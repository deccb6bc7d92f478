/** Exact decimal strings and their comparison (packages/canonical/src/decimal.ts). */
module ExactDecimal {
  import opened Outcomes
  import Sequences
  import opened Texts

  // ---------- syntax ----------

  /** `s.indexOf(c)`: the first place of c, or -1. */
  function IndexOf(s: string, c: char): (i: int)
    ensures -1 <= i < |s|
    ensures i == -1 ==> c !in s
    ensures i >= 0 ==> s[i] == c && c !in s[..i]
  {
    if s == [] then -1
    else if s[0] == c then 0
    else
      var rest := IndexOf(s[1..], c);
      assert rest >= 0 ==> s[..rest + 1] == [s[0]] + s[1..][..rest];
      if rest == -1 then -1 else rest + 1
  }

  function Body(s: string): string {
    if s != [] && s[0] == '-' then s[1..] else s
  }

  function IntPart(body: string): string {
    var dot := IndexOf(body, '.');
    if dot == -1 then body else body[..dot]
  }

  function FracPart(body: string): string {
    var dot := IndexOf(body, '.');
    if dot == -1 then "" else body[dot + 1..]
  }

  /** A string cut into sign, digits before the point and digits after it. */
  datatype Parts = Parts(negative: bool, whole: string, fraction: string)

  function PartsOf(s: string): Parts {
    Parts(s != [] && s[0] == '-', IntPart(Body(s)), FracPart(Body(s)))
  }

  predicate AreDigits(p: Parts) {
    AllDigits(p.whole) && AllDigits(p.fraction)
  }

  /** `^-?(?:0|[1-9]\d*)(?:\.\d+)?$` */
  predicate MatchesDecimal(s: string) {
    var p := PartsOf(s);
    && AreDigits(p)
    && p.whole != "" && (p.whole == "0" || p.whole[0] != '0')
    && (IndexOf(Body(s), '.') >= 0 ==> p.fraction != "")
  }

  predicate AllZeros(s: string) {
    forall i | 0 <= i < |s| :: s[i] == '0'
  }

  /** `^-0(?:\.0+)?$` */
  predicate IsNegativeZero(s: string) {
    var p := PartsOf(s);
    p.negative && p.whole == "0" && AllZeros(p.fraction)
  }

  predicate IsExactDecimal(s: string) {
    MatchesDecimal(s) && !IsNegativeZero(s)
  }

  // ---------- what a decimal string stands for ----------

  function Pow10(k: nat): (p: int)
    ensures p >= 1
  {
    if k == 0 then 1 else 10 * Pow10(k - 1)
  }

  function Digit(c: char): (d: int)
    requires IsDigit(c)
    ensures 0 <= d <= 9
  {
    c as int - '0' as int
  }

  /** The digits after the point: the sum of d_i / 10^i. */
  ghost function Fraction(f: string): real
    requires AllDigits(f)
  {
    if f == [] then 0.0
    else Fraction(f[..|f| - 1]) + Digit(f[|f| - 1]) as real / Pow10(|f|) as real
  }

  ghost function ValueOf(p: Parts): real
    requires AreDigits(p)
  {
    var magnitude := ParseNat(p.whole) as real + Fraction(p.fraction);
    if p.negative then -magnitude else magnitude
  }

  ghost function DecimalValue(s: string): real
    requires MatchesDecimal(s)
  {
    ValueOf(PartsOf(s))
  }

  // ---------- the comparison ----------

  /** `f.padEnd(n, '0')` */
  function PadEnd(f: string, n: nat): string {
    if |f| >= n then f else PadEnd(f, n - 1) + "0"
  }

  lemma {:induction false} PadEndIsDigits(f: string, n: nat)
    requires AllDigits(f)
    ensures AllDigits(PadEnd(f, n))
  {
    if |f| < n {
      PadEndIsDigits(f, n - 1);
    }
  }

  function Scaled(p: Parts, scale: nat): int
    requires AreDigits(p)
  {
    PadEndIsDigits(p.fraction, scale);
    var v: int := ParseNat(p.whole + PadEnd(p.fraction, scale));
    if p.negative then -v else v
  }

  /** `toScaled`: the value times 10^scale, as an integer. */
  function ToScaled(s: string, scale: nat): int
    requires MatchesDecimal(s)
  {
    Scaled(PartsOf(s), scale)
  }

  function FractionDigits(s: string): nat {
    if IndexOf(s, '.') >= 0 then |s| - IndexOf(s, '.') - 1 else 0
  }

  function Max(a: nat, b: nat): nat {
    if a < b then b else a
  }

  function CompareDecimal(a: string, b: string): Result<int> {
    if !IsExactDecimal(a) || !IsExactDecimal(b) then Err("not an exact decimal string")
    else
      var scale := Max(FractionDigits(a), FractionDigits(b));
      var va, vb := ToScaled(a, scale), ToScaled(b, scale);
      Ok(if va < vb then -1 else if va > vb then 1 else 0)
  }

  // ---------- scaling is exact ----------

  /** n moved k places to the left. */
  function Shift(n: int, k: nat): int {
    n * Pow10(k)
  }

  ghost function Moved(x: real, k: nat): real {
    x * Pow10(k) as real
  }

  lemma ShiftOnce(n: int, k: nat)
    ensures Shift(n, k + 1) == 10 * Shift(n, k) && Shift(n, 0) == n
  {
    assert n * (10 * Pow10(k)) == 10 * (n * Pow10(k));
  }

  lemma MovedOnce(x: real, k: nat)
    ensures Moved(x, k + 1) == 10.0 * Moved(x, k) && Moved(x, 0) == x
  {
    var p := Pow10(k) as real;
    assert Pow10(k + 1) as real == 10.0 * p;
    assert x * (10.0 * p) == 10.0 * (x * p);
  }

  lemma {:induction false} MovedTwice(x: real, j: nat, k: nat)
    ensures Moved(x, j + k) == Moved(Moved(x, j), k)
  {
    if k == 0 {
      MovedOnce(Moved(x, j), 0);
    } else {
      MovedTwice(x, j, k - 1);
      MovedOnce(x, j + k - 1);
      MovedOnce(Moved(x, j), k - 1);
    }
  }

  lemma MovedInteger(n: int, k: nat)
    ensures Moved(n as real, k) == Shift(n, k) as real
  {
  }

  lemma MovedSum(x: real, y: real, k: nat)
    ensures Moved(x + y, k) == Moved(x, k) + Moved(y, k)
  {
  }

  lemma MovedNegative(x: real, k: nat)
    ensures Moved(-x, k) == -Moved(x, k)
  {
  }

  lemma {:induction false} ParseConcat(a: string, b: string)
    requires AllDigits(a) && AllDigits(b)
    ensures AllDigits(a + b) && ParseNat(a + b) == Shift(ParseNat(a), |b|) + ParseNat(b)
  {
    ShiftOnce(ParseNat(a), 0);
    if b == [] {
      assert a + b == a;
    } else {
      var init := b[..|b| - 1];
      ParseConcat(a, init);
      assert (a + b)[..|a + b| - 1] == a + init;
      ShiftOnce(ParseNat(a), |init|);
    }
  }

  lemma AppendZero(s: string)
    requires AllDigits(s)
    ensures AllDigits(s + "0") && ParseNat(s + "0") == 10 * ParseNat(s)
  {
    assert (s + "0")[..|s|] == s;
  }

  lemma PaddedOnce(f: string, t: string, k: nat)
    requires AllDigits(f) && AllDigits(t) && ParseNat(t) == Shift(ParseNat(f), k)
    ensures AllDigits(t + "0") && ParseNat(t + "0") == Shift(ParseNat(f), k + 1)
  {
    AppendZero(t);
    ShiftOnce(ParseNat(f), k);
  }

  lemma {:induction false} ParsePadded(f: string, n: nat)
    requires AllDigits(f) && |f| <= n
    ensures |PadEnd(f, n)| == n && AllDigits(PadEnd(f, n))
    ensures ParseNat(PadEnd(f, n)) == Shift(ParseNat(f), n - |f|)
  {
    if |f| >= n {
      assert PadEnd(f, n) == f;
      ShiftOnce(ParseNat(f), 0);
    } else {
      var t := PadEnd(f, n - 1);
      ParsePadded(f, n - 1);
      PaddedOnce(f, t, n - 1 - |f|);
      assert PadEnd(f, n) == t + "0";
    }
  }

  lemma {:induction false} FractionScaled(f: string)
    requires AllDigits(f)
    ensures Moved(Fraction(f), |f|) == ParseNat(f) as real
  {
    if f == [] {
      MovedOnce(0.0, 0);
    } else {
      var init, last := f[..|f| - 1], Digit(f[|f| - 1]);
      FractionScaled(init);
      MovedOnce(Fraction(init), |init|);
      MovedSum(Fraction(init), last as real / Pow10(|f|) as real, |f|);
      LastDigitMoved(last, |f|);
    }
  }

  lemma LastDigitMoved(d: int, k: nat)
    ensures Moved(d as real / Pow10(k) as real, k) == d as real
  {
  }

  lemma {:induction false} MagnitudeScaled(whole: string, f: string, scale: nat)
    requires AllDigits(whole) && AllDigits(f) && |f| <= scale
    ensures AllDigits(whole + PadEnd(f, scale))
    ensures ParseNat(whole + PadEnd(f, scale)) as real == Moved(ParseNat(whole) as real + Fraction(f), scale)
  {
    ParsePadded(f, scale);
    ParseConcat(whole, PadEnd(f, scale));
    FractionScaled(f);
    MovedSum(ParseNat(whole) as real, Fraction(f), scale);
    MovedInteger(ParseNat(whole), scale);
    MovedInteger(ParseNat(f), scale - |f|);
    MovedTwice(Fraction(f), |f|, scale - |f|);
  }

  /** `toScaled` loses nothing: it is the exact value moved by `scale` places. */
  lemma ScaledIsExact(p: Parts, scale: nat)
    requires AreDigits(p) && |p.fraction| <= scale
    ensures Scaled(p, scale) as real == Moved(ValueOf(p), scale)
  {
    var magnitude := ParseNat(p.whole) as real + Fraction(p.fraction);
    MagnitudeScaled(p.whole, p.fraction, scale);
    MovedNegative(magnitude, scale);
    assert ValueOf(p) == if p.negative then -magnitude else magnitude;
  }

  lemma FractionDigitsAre(s: string)
    ensures FractionDigits(s) == |FracPart(Body(s))|
  {
    if s != [] && s[0] == '-' {
      var rest := IndexOf(s[1..], '.');
      assert IndexOf(s, '.') == if rest == -1 then -1 else rest + 1;
    }
  }

  ghost function SignOf(x: real): int {
    if x < 0.0 then -1 else if x > 0.0 then 1 else 0
  }

  lemma MovingKeepsOrder(x: real, y: real, k: nat)
    ensures SignOf(Moved(x, k) - Moved(y, k)) == SignOf(x - y)
  {
    var p := Pow10(k) as real;
    assert x * p - y * p == (x - y) * p;
    assert x > y ==> (x - y) * p > 0.0;
    assert x < y ==> (y - x) * p > 0.0;
  }

  // ---------- the results ----------

  /** The comparison throws on anything else, and otherwise gives the sign of the exact difference. */
  lemma {:induction false} ComparisonIsExact(a: string, b: string)
    ensures CompareDecimal(a, b).Ok? <==> IsExactDecimal(a) && IsExactDecimal(b)
    ensures CompareDecimal(a, b).Ok? ==> CompareDecimal(a, b).value == SignOf(DecimalValue(a) - DecimalValue(b))
  {
    if IsExactDecimal(a) && IsExactDecimal(b) {
      var scale := Max(FractionDigits(a), FractionDigits(b));
      FractionDigitsAre(a);
      FractionDigitsAre(b);
      SameScale(PartsOf(a), PartsOf(b), scale);
    }
  }

  lemma SameScale(p: Parts, q: Parts, scale: nat)
    requires AreDigits(p) && AreDigits(q) && |p.fraction| <= scale && |q.fraction| <= scale
    ensures SignOf(ValueOf(p) - ValueOf(q)) == Sign(Scaled(p, scale) - Scaled(q, scale))
  {
    ScaledIsExact(p, scale);
    ScaledIsExact(q, scale);
    MovingKeepsOrder(ValueOf(p), ValueOf(q), scale);
    var v, w := Scaled(p, scale), Scaled(q, scale);
    assert (v - w) as real == v as real - w as real;
  }

  /** The same comparison seen from the other side. */
  function Flipped(r: Result<int>): Result<int> {
    var sign :- r;
    Ok(-sign)
  }

  lemma ComparisonFlips(a: string, b: string)
    ensures CompareDecimal(b, a) == Flipped(CompareDecimal(a, b))
  {
  }

  /** Transitive, although every pair is compared at a scale of its own. */
  lemma {:induction false} ComparisonIsTransitive(a: string, b: string, c: string)
    requires IsExactDecimal(a) && IsExactDecimal(b) && IsExactDecimal(c)
    ensures CompareDecimal(a, b).Ok? && CompareDecimal(b, c).Ok? && CompareDecimal(a, c).Ok?
    ensures CompareDecimal(a, b).value <= 0 && CompareDecimal(b, c).value <= 0 ==> CompareDecimal(a, c).value <= 0
    ensures CompareDecimal(a, b).value <= 0 && CompareDecimal(b, c).value < 0 ==> CompareDecimal(a, c).value < 0
  {
    ComparisonIsExact(a, b);
    ComparisonIsExact(b, c);
    ComparisonIsExact(a, c);
  }

  /** `decimalEquals` */
  function DecimalEquals(a: string, b: string): Result<bool> {
    var sign :- CompareDecimal(a, b);
    Ok(sign == 0)
  }

  /** Equal exactly when the values are, hence an equivalence on exact decimals. */
  lemma {:induction false} EqualityIsOfValues(a: string, b: string)
    requires IsExactDecimal(a) && IsExactDecimal(b)
    ensures DecimalEquals(a, b) == Ok(DecimalValue(a) == DecimalValue(b))
  {
    ComparisonIsExact(a, b);
  }

  // ---------- which strings are exact decimals ----------

  /** A sign or none, digits without a leading zero, and a point with at least one digit or nothing. */
  ghost predicate Written(s: string, negative: bool, whole: string, fraction: Option<string>) {
    && s == (if negative then "-" else "") + whole + (if fraction.Some? then "." + fraction.value else "")
    && whole != "" && AllDigits(whole) && (whole[0] == '0' ==> whole == "0")
    && (fraction.Some? ==> fraction.value != "" && AllDigits(fraction.value))
  }

  /** Digits behind the point that are all zeros, or none. */
  ghost predicate Nought(fraction: Option<string>) {
    fraction.Some? ==> forall i | 0 <= i < |fraction.value| :: fraction.value[i] == '0'
  }

  lemma {:induction false} FirstIndex(w: string, c: char, rest: string)
    requires c !in w
    ensures IndexOf(w + [c] + rest, c) == |w|
  {
    if w == "" {
      assert w + [c] + rest == [c] + rest;
    } else {
      assert (w + [c] + rest)[1..] == w[1..] + [c] + rest;
      FirstIndex(w[1..], c, rest);
    }
  }

  lemma WrittenParts(s: string, negative: bool, whole: string, fraction: Option<string>)
    requires Written(s, negative, whole, fraction)
    ensures PartsOf(s) == Parts(negative, whole, if fraction.Some? then fraction.value else "")
    ensures IndexOf(Body(s), '.') == if fraction.Some? then |whole| else -1
  {
    assert s[0] == if negative then '-' else whole[0];
    if fraction.Some? {
      assert Body(s) == whole + "." + fraction.value;
      FirstIndex(whole, '.', fraction.value);
      assert Body(s)[..|whole|] == whole && Body(s)[|whole| + 1..] == fraction.value;
    } else {
      assert Body(s) == whole;
    }
  }

  lemma CutOut(s: string, i: nat)
    requires i < |s|
    ensures s == s[..i] + ([s[i]] + s[i + 1..])
  {
  }

  lemma BodyWrites(body: string, dot: int)
    requires dot == IndexOf(body, '.')
    ensures body == IntPart(body) + if dot >= 0 then "." + FracPart(body) else ""
  {
    if dot >= 0 {
      CutOut(body, dot);
    }
  }

  lemma SignAndBody(s: string)
    ensures s == (if s != "" && s[0] == '-' then "-" else "") + Body(s)
  {
  }

  lemma PutTogether(s: string, sign: string, body: string, whole: string, tail: string)
    requires s == sign + body && body == whole + tail
    ensures s == sign + whole + tail
  {
    Sequences.Regroup(sign, whole, tail);
  }

  lemma PartsWrite(s: string)
    requires MatchesDecimal(s)
    ensures var p := PartsOf(s);
      Written(s, p.negative, p.whole, if IndexOf(Body(s), '.') >= 0 then Some(p.fraction) else None)
  {
    var p, body, dot := PartsOf(s), Body(s), IndexOf(Body(s), '.');
    BodyWrites(body, dot);
    SignAndBody(s);
    PutTogether(s, if p.negative then "-" else "", body, p.whole, if dot >= 0 then "." + p.fraction else "");
  }

  /** Written this way, and not a negative zero. */
  ghost predicate SpellsExactly(s: string, negative: bool, whole: string, fraction: Option<string>) {
    Written(s, negative, whole, fraction) && !(negative && whole == "0" && Nought(fraction))
  }

  lemma WrittenMatches(s: string, negative: bool, whole: string, fraction: Option<string>)
    requires Written(s, negative, whole, fraction)
    ensures MatchesDecimal(s)
  {
    WrittenParts(s, negative, whole, fraction);
    var p := PartsOf(s);
    assert AreDigits(p) && p.whole == whole;
  }

  lemma WrittenIsNought(s: string, negative: bool, whole: string, fraction: Option<string>)
    requires Written(s, negative, whole, fraction)
    ensures IsNegativeZero(s) ==> negative && whole == "0" && Nought(fraction)
  {
    WrittenParts(s, negative, whole, fraction);
  }

  /** The comparison takes exactly the strings written this way, negative zero left out. */
  lemma ExactDecimalIff(s: string)
    ensures IsExactDecimal(s) <==> exists negative, whole, fraction :: SpellsExactly(s, negative, whole, fraction)
  {
    if IsExactDecimal(s) {
      var p := PartsOf(s);
      PartsWrite(s);
      assert SpellsExactly(s, p.negative, p.whole, if IndexOf(Body(s), '.') >= 0 then Some(p.fraction) else None);
    }
    if negative, whole, fraction :| SpellsExactly(s, negative, whole, fraction) {
      WrittenMatches(s, negative, whole, fraction);
      WrittenIsNought(s, negative, whole, fraction);
    }
  }
}
