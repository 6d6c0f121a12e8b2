/**
 * The time-window check of a manifest (RFC 6486, section 4.4): thisUpdate and
 * nextUpdate against the current time, compared field by field on broken-down
 * UTC times as ASN1_time_tm_cmp does.
 */
module Times {
  import opened Base

  /** A broken-down time (struct tm) as far as ASN1_time_tm_cmp looks at it. */
  datatype Tm = Tm(year: int, mon: int, mday: int, hour: int, min: int, sec: int)

  /** The fields in order of significance. */
  function Fields(t: Tm): (f: seq<int>)
    ensures |f| == 6
  {
    [t.year, t.mon, t.mday, t.hour, t.min, t.sec]
  }

  /** Strict lexicographic order on equally long integer sequences. */
  predicate LexLess(a: seq<int>, b: seq<int>)
    requires |a| == |b|
  {
    |a| > 0 && (a[0] < b[0] || (a[0] == b[0] && LexLess(a[1..], b[1..])))
  }

  /** t is strictly earlier than u. */
  predicate Before(t: Tm, u: Tm) {
    LexLess(Fields(t), Fields(u))
  }

  lemma {:induction false} LexLessIrreflexive(a: seq<int>)
    ensures !LexLess(a, a)
  {
    if |a| > 0 {
      LexLessIrreflexive(a[1..]);
    }
  }

  lemma {:induction false} LexLessTransitive(a: seq<int>, b: seq<int>, c: seq<int>)
    requires |a| == |b| == |c|
    requires LexLess(a, b) && LexLess(b, c)
    ensures LexLess(a, c)
  {
    if a[0] == b[0] && b[0] == c[0] {
      LexLessTransitive(a[1..], b[1..], c[1..]);
    }
  }

  lemma {:induction false} LexLessTotal(a: seq<int>, b: seq<int>)
    requires |a| == |b|
    ensures LexLess(a, b) || a == b || LexLess(b, a)
  {
    if |a| > 0 && a[0] == b[0] {
      LexLessTotal(a[1..], b[1..]);
      if a[1..] == b[1..] {
        assert a == [a[0]] + a[1..] && b == [b[0]] + b[1..];
      }
    }
  }

  /** Before is a strict total order on times. */
  lemma BeforeIsStrictTotalOrder(t: Tm, u: Tm, v: Tm)
    ensures !Before(t, t)
    ensures Before(t, u) && Before(u, v) ==> Before(t, v)
    ensures Before(t, u) || t == u || Before(u, t)
  {
    LexLessIrreflexive(Fields(t));
    if Before(t, u) && Before(u, v) {
      LexLessTransitive(Fields(t), Fields(u), Fields(v));
    }
    LexLessTotal(Fields(t), Fields(u));
  }

  /** Before spelled out field by field. */
  lemma BeforeFieldwise(t: Tm, u: Tm)
    ensures Before(t, u) <==>
      t.year < u.year || (t.year == u.year &&
      (t.mon < u.mon || (t.mon == u.mon &&
      (t.mday < u.mday || (t.mday == u.mday &&
      (t.hour < u.hour || (t.hour == u.hour &&
      (t.min < u.min || (t.min == u.min && t.sec < u.sec)))))))))
  {
    var a, b := Fields(t), Fields(u);
    var a1, b1 := [t.mon, t.mday, t.hour, t.min, t.sec], [u.mon, u.mday, u.hour, u.min, u.sec];
    var a2, b2 := [t.mday, t.hour, t.min, t.sec], [u.mday, u.hour, u.min, u.sec];
    var a3, b3 := [t.hour, t.min, t.sec], [u.hour, u.min, u.sec];
    var a4, b4 := [t.min, t.sec], [u.min, u.sec];
    var a5, b5 := [t.sec], [u.sec];
    assert a[1..] == a1 && b[1..] == b1;
    assert a1[1..] == a2 && b1[1..] == b2;
    assert a2[1..] == a3 && b2[1..] == b3;
    assert a3[1..] == a4 && b3[1..] == b4;
    assert a4[1..] == a5 && b4[1..] == b5;
    assert a5[1..] == [] && b5[1..] == [];
    assert LexLess(a5, b5) <==> t.sec < u.sec;
    assert LexLess(a4, b4) <==> t.min < u.min || (t.min == u.min && LexLess(a5, b5));
    assert LexLess(a3, b3) <==> t.hour < u.hour || (t.hour == u.hour && LexLess(a4, b4));
    assert LexLess(a2, b2) <==> t.mday < u.mday || (t.mday == u.mday && LexLess(a3, b3));
    assert LexLess(a1, b1) <==> t.mon < u.mon || (t.mon == u.mon && LexLess(a2, b2));
    assert LexLess(a, b) <==> t.year < u.year || (t.year == u.year && LexLess(a1, b1));
  }

  /** "Not later than" chains: t <= u and u <= v give t <= v. */
  lemma NotBeforeTransitive(t: Tm, u: Tm, v: Tm)
    ensures !Before(u, t) && !Before(v, u) ==> !Before(v, t)
  {
    BeforeIsStrictTotalOrder(t, u, v);
    BeforeIsStrictTotalOrder(u, v, t);
    BeforeIsStrictTotalOrder(v, t, u);
    BeforeIsStrictTotalOrder(t, v, u);
  }

  /** ASN1_time_tm_cmp: -1, 0 or 1 as t is earlier than, equal to or later than u. */
  function Compare(t: Tm, u: Tm): (r: int)
    ensures r == -1 || r == 0 || r == 1
    ensures r < 0 <==> Before(t, u)
    ensures r == 0 <==> t == u
    ensures r > 0 <==> Before(u, t)
  {
    BeforeFieldwise(t, u);
    BeforeFieldwise(u, t);
    if t.year != u.year then (if t.year < u.year then -1 else 1)
    else if t.mon != u.mon then (if t.mon < u.mon then -1 else 1)
    else if t.mday != u.mday then (if t.mday < u.mday then -1 else 1)
    else if t.hour != u.hour then (if t.hour < u.hour then -1 else 1)
    else if t.min != u.min then (if t.min < u.min then -1 else 1)
    else if t.sec != u.sec then (if t.sec < u.sec then -1 else 1)
    else 0
  }

  /** Why check_validity answered -1. */
  datatype TimeError =
    | NoCurrentTime   // gmtime_r failed
    | BadFromTime     // thisUpdate is not a valid GeneralizedTime
    | BadUntilTime    // nextUpdate is not a valid GeneralizedTime
    | BadInterval     // nextUpdate is before thisUpdate
    | NotYetValid     // thisUpdate is after now

  /** The three-way answer of check_validity. */
  datatype Validity = Invalid(why: TimeError) | Stale | Current {
    /** The integer the source returns: -1, 0 (stale) or 1 (current). */
    function Code(): (c: int)
      ensures c == -1 <==> Invalid?
      ensures c == 0 <==> Stale?
      ensures c == 1 <==> Current?
    {
      match this
      case Invalid(_) => -1
      case Stale => 0
      case Current => 1
    }
  }

  /**
   * check_validity(from, until): the parsed thisUpdate and nextUpdate (None where
   * the GeneralizedTime does not parse) against the current time (None where
   * gmtime_r fails), which is a parameter here.
   */
  function CheckValidity(from: Option<Tm>, until: Option<Tm>, now: Option<Tm>): (v: Validity)
    ensures v.Current? <==>
      from.Some? && until.Some? && now.Some? &&
      !Before(now.value, from.value) && !Before(until.value, now.value)
    ensures v.Stale? <==>
      from.Some? && until.Some? && now.Some? &&
      !Before(until.value, from.value) && !Before(now.value, from.value) && Before(until.value, now.value)
    ensures from.Some? && until.Some? && Before(until.value, from.value) ==> v.Invalid?
    ensures from.Some? && now.Some? && Before(now.value, from.value) ==> v.Invalid?
  {
    if now.None? then Invalid(NoCurrentTime)
    else if from.None? then Invalid(BadFromTime)
    else if until.None? then Invalid(BadUntilTime)
    else
      NotBeforeTransitive(from.value, now.value, until.value);
      CheckWindow(from.value, until.value, now.value)
  }

  /** The comparisons of check_validity once all three times are known. */
  function CheckWindow(from: Tm, until: Tm, now: Tm): Validity
  {
    if Compare(until, from) < 0 then Invalid(BadInterval)
    else if Compare(from, now) > 0 then Invalid(NotYetValid)
    else if Compare(until, now) < 0 then Stale
    else Current
  }

  /** Both ends of the window are inclusive: thisUpdate == now and nextUpdate == now are current. */
  lemma WindowEndsAreCurrent(from: Tm, until: Tm, now: Tm)
    requires !Before(until, from)
    requires from == now || until == now
    ensures CheckValidity(Some(from), Some(until), Some(now)) == Current
  {
    BeforeIsStrictTotalOrder(from, until, now);
  }

  /** Any time after nextUpdate, in a well-ordered window, is stale. */
  lemma AfterWindowIsStale(from: Tm, until: Tm, now: Tm)
    requires !Before(until, from) && Before(until, now)
    ensures CheckValidity(Some(from), Some(until), Some(now)) == Stale
  {
    BeforeIsStrictTotalOrder(from, until, now);
    BeforeIsStrictTotalOrder(now, from, until);
  }

  /** The seconds field one past nextUpdate, with all else equal, is stale. */
  lemma OneSecondLateIsStale(from: Tm, until: Tm)
    requires !Before(until, from)
    ensures CheckValidity(Some(from), Some(until), Some(until.(sec := until.sec + 1))) == Stale
  {
    var now := until.(sec := until.sec + 1);
    BeforeFieldwise(until, now);
    BeforeFieldwise(now, from);
    BeforeFieldwise(until, from);
  }
}
