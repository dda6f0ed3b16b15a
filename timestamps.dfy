/**
  Timestamps as the query engine compares them: a naive datetime whose order is
  the lexicographic order of its fields, and the normalisation of an argument
  that may be either a datetime or its ISO-8601 text.
*/
module Timestamps {
  import opened Wrappers

  /**
    A naive timestamp, down to the nanosecond. The dataset's `Datetime` column
    may be finer than a Python datetime; a Python datetime (every query bound)
    is a timestamp whose `nanosecond` is 0.
  */
  datatype Timestamp = Timestamp(
    year: int, month: int, day: int,
    hour: int, minute: int, second: int, microsecond: int, nanosecond: int)

  /** The fields of a timestamp, most significant first. */
  function Fields(t: Timestamp): (f: seq<int>)
    ensures |f| == 8 && f[0] == t.year && f[1] == t.month && f[7] == t.nanosecond
  {
    [t.year, t.month, t.day, t.hour, t.minute, t.second, t.microsecond, t.nanosecond]
  }

  /** Lexicographic "less than or equal" on equally long sequences of integers. */
  predicate LexLe(a: seq<int>, b: seq<int>)
    requires |a| == |b|
    decreases |a|
  {
    |a| == 0 || a[0] < b[0] || (a[0] == b[0] && LexLe(a[1..], b[1..]))
  }

  /** Chronological order of timestamps: `a <= b` in Python. */
  predicate Le(a: Timestamp, b: Timestamp)
  {
    LexLe(Fields(a), Fields(b))
  }

  lemma {:induction false} LexLeReflexive(a: seq<int>)
    ensures LexLe(a, a)
    decreases |a|
  {
    if |a| > 0 {
      LexLeReflexive(a[1..]);
    }
  }

  lemma {:induction false} LexLeTransitive(a: seq<int>, b: seq<int>, c: seq<int>)
    requires |a| == |b| == |c|
    requires LexLe(a, b) && LexLe(b, c)
    ensures LexLe(a, c)
    decreases |a|
  {
    if |a| > 0 && a[0] == b[0] == c[0] {
      LexLeTransitive(a[1..], b[1..], c[1..]);
    }
  }

  lemma {:induction false} LexLeTotal(a: seq<int>, b: seq<int>)
    requires |a| == |b|
    ensures LexLe(a, b) || LexLe(b, a)
    decreases |a|
  {
    if |a| > 0 && a[0] == b[0] {
      LexLeTotal(a[1..], b[1..]);
    }
  }

  lemma {:induction false} LexLeAntisymmetric(a: seq<int>, b: seq<int>)
    requires |a| == |b|
    requires LexLe(a, b) && LexLe(b, a)
    ensures a == b
    decreases |a|
  {
    if |a| > 0 {
      LexLeAntisymmetric(a[1..], b[1..]);
      assert a == [a[0]] + a[1..];
      assert b == [b[0]] + b[1..];
    }
  }

  /** Every timestamp lies between itself and itself: an inclusive range of one instant. */
  lemma LeReflexive(a: Timestamp)
    ensures Le(a, a)
  {
    LexLeReflexive(Fields(a));
  }

  lemma LeTransitive(a: Timestamp, b: Timestamp, c: Timestamp)
    requires Le(a, b) && Le(b, c)
    ensures Le(a, c)
  {
    LexLeTransitive(Fields(a), Fields(b), Fields(c));
  }

  /** Any two timestamps are comparable, as Python's naive datetimes are. */
  lemma LeTotal(a: Timestamp, b: Timestamp)
    ensures Le(a, b) || Le(b, a)
  {
    LexLeTotal(Fields(a), Fields(b));
  }

  lemma LeAntisymmetric(a: Timestamp, b: Timestamp)
    requires Le(a, b) && Le(b, a)
    ensures a == b
  {
    var fa, fb := Fields(a), Fields(b);
    LexLeAntisymmetric(fa, fb);
    assert fa[2] == fb[2] && fa[3] == fb[3] && fa[4] == fb[4];
    assert fa[5] == fb[5] && fa[6] == fb[6] && fa[7] == fb[7];
  }

  /** Sequences equal up to position `k` and larger at `k` are not `LexLe`. */
  lemma {:induction false} LexLeFirstDifference(a: seq<int>, b: seq<int>, k: nat)
    requires |a| == |b| && k < |a|
    requires a[..k] == b[..k] && a[k] > b[k]
    ensures !LexLe(a, b)
    decreases k
  {
    if k > 0 {
      assert a[0] == a[..k][0] == b[..k][0] == b[0];
      assert a[1..][..k - 1] == a[1..k] == a[..k][1..];
      assert b[1..][..k - 1] == b[1..k] == b[..k][1..];
      LexLeFirstDifference(a[1..], b[1..], k - 1);
    }
  }

  /**
    A timestamp that agrees with a datetime down to the microsecond and has a
    positive nanosecond part lies after it, however small that part is.
  */
  lemma SubMicrosecondLater(t: Timestamp, bound: Timestamp)
    requires bound.nanosecond == 0 && t.nanosecond > 0
    requires t == bound.(nanosecond := t.nanosecond)
    ensures !Le(t, bound)
  {
    var ft, fb := Fields(t), Fields(bound);
    assert ft[..7] == fb[..7];
    LexLeFirstDifference(ft, fb, 7);
  }

  /**
    The (year, month) of an earlier timestamp is not after that of a later
    one: the fact partition pruning on year/month rests on.
  */
  lemma LeYearMonth(a: Timestamp, b: Timestamp)
    requires Le(a, b)
    ensures a.year < b.year || (a.year == b.year && a.month <= b.month)
  {
    var fa, fb := Fields(a), Fields(b);
    if fa[0] == fb[0] {
      assert LexLe(fa[1..], fb[1..]);
      assert fa[1..][0] == a.month && fb[1..][0] == b.month;
    }
  }

  /** An argument accepted where a timestamp is expected: text or a datetime. */
  datatype TimeArg = Text(text: string) | Stamp(stamp: Timestamp)

  /** The ValueError that ISO-8601 parsing raises on text it does not accept. */
  datatype ParseError = InvalidIsoFormat(text: string)

  /**
    Normalises an argument to a datetime: a datetime is returned unchanged and
    only text is parsed. `parse` stands for `datetime.fromisoformat`, with
    `None` where it raises.
  */
  function ToDatetime(v: TimeArg, parse: string -> Option<Timestamp>): (r: Result<Timestamp, ParseError>)
    ensures v.Stamp? ==> r == Success(v.stamp)
    ensures v.Text? ==> (r.Success? <==> parse(v.text).Some?)
    ensures v.Text? && r.Success? ==> r.value == parse(v.text).value
    ensures r.Failure? ==> v.Text? && r.error == InvalidIsoFormat(v.text)
  {
    match v
    case Stamp(t) => Success(t)
    case Text(s) =>
      match parse(s)
      case Some(t) => Success(t)
      case None => Failure(InvalidIsoFormat(s))
  }

  /**
    Normalising is idempotent: once an argument has become a datetime,
    normalising it again, with any parser, returns it unchanged.
  */
  lemma ToDatetimeIdempotent(v: TimeArg, parse: string -> Option<Timestamp>, reparse: string -> Option<Timestamp>)
    requires ToDatetime(v, parse).Success?
    ensures ToDatetime(Stamp(ToDatetime(v, parse).value), reparse) == ToDatetime(v, parse)
  {
  }
}
