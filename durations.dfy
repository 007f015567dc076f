/**
 * `formatDuration` and `repeat`, the two helpers the progress line is built
 * from.
 */
module Durations {
  import opened Wrappers
  import opened Decimal

  /**
   * `formatDuration` on the whole seconds of a duration: `"<secs>s"` under a
   * minute, otherwise `"<minutes>m <seconds>s"`. Go's `/` and `%` truncate
   * toward zero; on the `secs >= 60` branch the operands are positive, where
   * truncation and Dafny's Euclidean division agree.
   */
  function FormatDuration(secs: int): string
  {
    if secs < 60 then FormatInt(secs) + "s"
    else FormatInt(secs / 60) + "m " + FormatInt(secs % 60) + "s"
  }

  /** The index of the first occurrence of `c` in `s`. */
  function IndexOf(s: string, c: char): (r: Option<nat>)
    ensures r.None? <==> c !in s
    ensures r.Some? ==> r.value < |s| && s[r.value] == c && c !in s[..r.value]
  {
    if |s| == 0 then None
    else if s[0] == c then Some(0)
    else
      match IndexOf(s[1..], c)
      case None => None
      case Some(i) =>
        assert s[..i + 1] == [s[0]] + s[1..][..i];
        Some(i + 1)
  }

  /**
   * Reads a string of either shape `FormatDuration` writes back into seconds:
   * minutes of at least one with a remainder below a minute, or a plain
   * count of seconds, followed by `s`.
   */
  function ParseDuration(s: string): Option<int>
  {
    if |s| == 0 || s[|s| - 1] != 's' then None else ParseBody(s[..|s| - 1])
  }

  /** A duration string without its final `s`: split at the first `m`, if any. */
  function ParseBody(body: string): Option<int>
  {
    match IndexOf(body, 'm')
    case None => ParseInt(body)
    case Some(i) => ParseMinutes(body[..i], body[i + 1..])
  }

  /** The minutes before the `m` and, after a space, the remaining seconds. */
  function ParseMinutes(ms: string, rest: string): Option<int>
  {
    if |rest| == 0 || rest[0] != ' ' then None
    else
      match (ParseInt(ms), ParseInt(rest[1..]))
      case (Some(m), Some(r)) =>
        if 1 <= m && 0 <= r < 60 then Some(m * 60 + r) else None
      case _ => None
  }

  /** Under a minute, the string is the seconds and an `s`. */
  lemma {:induction false} ParseFormatSeconds(secs: int)
    requires secs < 60
    ensures ParseDuration(FormatDuration(secs)) == Some(secs)
  {
    var s := FormatDuration(secs);
    assert s[..|s| - 1] == FormatInt(secs);
    assert 'm' !in FormatInt(secs);
    ParseFormatInt(secs);
  }

  /** The first `c` of `x + y` is the first of `y` when `x` has none. */
  lemma {:induction false} IndexOfAppend(x: string, y: string, c: char)
    requires c !in x && |y| >= 1 && y[0] == c
    ensures IndexOf(x + y, c) == Some(|x|)
    decreases |x|
  {
    if |x| > 0 {
      assert (x + y)[1..] == x[1..] + y;
      IndexOfAppend(x[1..], y, c);
    }
  }

  lemma {:induction false} ParseDurationBody(body: string)
    ensures ParseDuration(body + "s") == ParseBody(body)
  {
    assert (body + "s")[..|body|] == body;
  }

  lemma {:induction false} ParseBodySplit(ms: string, rest: string)
    requires 'm' !in ms
    ensures ParseBody(ms + (['m'] + rest)) == ParseMinutes(ms, rest)
  {
    var body := ms + (['m'] + rest);
    IndexOfAppend(ms, ['m'] + rest, 'm');
    assert body[..|ms|] == ms;
    assert body[|ms| + 1..] == rest;
  }

  lemma {:induction false} ParseMinutesSpace(ms: string, rs: string, m: int, r: int)
    requires ParseInt(ms) == Some(m) && ParseInt(rs) == Some(r)
    requires 1 <= m && 0 <= r < 60
    ensures ParseMinutes(ms, [' '] + rs) == Some(m * 60 + r)
  {
    assert ([' '] + rs)[1..] == rs;
  }

  /** A minutes string is read as its two numbers. */
  lemma {:induction false} ParseMinutesShape(ms: string, rs: string, m: int, r: int)
    requires 'm' !in ms && ParseInt(ms) == Some(m) && ParseInt(rs) == Some(r)
    requires 1 <= m && 0 <= r < 60
    ensures ParseDuration(ms + "m " + rs + "s") == Some(m * 60 + r)
  {
    var body := ms + (['m'] + ([' '] + rs));
    assert ms + "m " + rs + "s" == body + "s";
    ParseDurationBody(body);
    ParseBodySplit(ms, [' '] + rs);
    ParseMinutesSpace(ms, rs, m, r);
  }

  /** From a minute on, the string splits at the first `m`. */
  lemma {:induction false} ParseFormatMinutes(secs: int)
    requires secs >= 60
    ensures ParseDuration(FormatDuration(secs)) == Some(secs)
  {
    ParseFormatInt(secs / 60);
    ParseFormatInt(secs % 60);
    ParseMinutesShape(FormatInt(secs / 60), FormatInt(secs % 60), secs / 60, secs % 60);
  }

  /** The seconds a duration string gives back are the seconds written. */
  lemma {:induction false} ParseFormatDuration(secs: int)
    ensures ParseDuration(FormatDuration(secs)) == Some(secs)
  {
    if secs < 60 {
      ParseFormatSeconds(secs);
    } else {
      ParseFormatMinutes(secs);
    }
  }

  /** Distinct second counts are displayed differently. */
  lemma {:induction false} FormatDurationInjective(a: int, b: int)
    requires FormatDuration(a) == FormatDuration(b)
    ensures a == b
  {
    ParseFormatDuration(a);
    ParseFormatDuration(b);
  }

  /**
   * The minutes form splits the seconds into whole minutes (at least one)
   * and a remainder below a minute.
   */
  lemma {:induction false} FormatDurationMinutes(secs: int)
    requires secs >= 60
    ensures exists m: int, r: int {:trigger FormatInt(m), FormatInt(r)} ::
      1 <= m && 0 <= r < 60 && secs == m * 60 + r &&
      FormatDuration(secs) == FormatInt(m) + "m " + FormatInt(r) + "s"
  {
    var m, r := secs / 60, secs % 60;
    assert 1 <= m && 0 <= r < 60 && secs == m * 60 + r;
    assert FormatDuration(secs) == FormatInt(m) + "m " + FormatInt(r) + "s";
  }

  /**
   * `repeat`: a fresh slice of `count` copies of `c`. `make` panics on a
   * negative length, hence the precondition.
   */
  method Repeat(c: char, count: int) returns (res: seq<char>)
    requires count >= 0
    ensures |res| == count
    ensures forall i :: 0 <= i < |res| ==> res[i] == c
  {
    var a := new char[count](_ => '\0');
    for i := 0 to count
      invariant forall j :: 0 <= j < i ==> a[j] == c
    {
      a[i] := c;
    }
    res := a[..];
  }
}
