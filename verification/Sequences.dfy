// Sequence identities, proved once so that other proofs need not search for them.
module Sequences {
  lemma InitAndLast<T>(s: seq<T>)
    requires s != []
    ensures s == s[..|s| - 1] + [s[|s| - 1]]
  {
  }

  lemma TakeTail<T>(s: seq<T>, j: nat)
    requires j < |s| - 1
    ensures s == [s[0]] + s[1..] && s[..j + 1] == [s[0]] + s[1..][..j] && s[j + 1] == s[1..][j]
  {
  }

  lemma HeadAndTail<T>(s: seq<T>)
    requires s != []
    ensures s == [s[0]] + s[1..]
  {
  }

  lemma Regroup<T>(a: seq<T>, b: seq<T>, c: seq<T>)
    ensures (a + b) + c == a + (b + c)
  {
  }

  lemma CutAt<T>(s: seq<T>, n: nat)
    requires n <= |s|
    ensures s == s[..n] + s[n..]
  {
  }
}
