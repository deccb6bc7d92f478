// Failure-aware results shared by every other module.
module Outcomes {
  datatype Option<+T> = None | Some(value: T)

  /** A thrown exception of the source is an `Err`; its text is not kept apart from a short label. */
  datatype Result<+T> = Ok(value: T) | Err(error: string) {
    predicate IsFailure() {
      Err?
    }

    function PropagateFailure<U>(): Result<U>
      requires Err?
    {
      Err(error)
    }

    function Extract(): T
      requires Ok?
    {
      value
    }
  }
}

// Timestamps: the text as written and the millisecond value `Date.parse` reads from it, if any.
module Instants {
  import opened Outcomes

  datatype Instant = Instant(text: string, millis: Option<int>) {
    predicate Parses() {
      millis.Some?
    }

    /** `isRealInstant`: of the RFC 3339 shape, and a date that exists. */
    predicate IsReal() {
      IsRfc3339(text) && Parses()
    }
  }

  /** In a pattern 'd' stands for one digit and every other character for itself. */
  predicate Matches(s: string, pattern: string) {
    |s| == |pattern| && forall i | 0 <= i < |s| :: if pattern[i] == 'd' then '0' <= s[i] <= '9' else s[i] == pattern[i]
  }

  predicate IsZone(s: string) {
    s == "Z" || Matches(s, "+dd:dd") || Matches(s, "-dd:dd")
  }

  /** A point and one to nine digits. */
  predicate IsFraction(s: string) {
    2 <= |s| <= 10 && s[0] == '.' && forall i | 1 <= i < |s| :: '0' <= s[i] <= '9'
  }

  /** Date and time, then an optional fraction of a second, then the zone. */
  predicate IsRfc3339(s: string) {
    && |s| >= 19 && Matches(s[..19], "dddd-dd-ddTdd:dd:dd")
    && (IsZone(s[19..]) || exists k | 19 < k <= |s| :: IsFraction(s[19..k]) && IsZone(s[k..]))
  }
}
