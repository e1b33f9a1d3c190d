/** The running-timer display: seconds elapsed since the log's start, shown as
    `HH:MM:SS`, or `MM:SS` below an hour. The current instant is an input; the
    once-a-second ticking is not modelled. */
module Timer {
  import opened Wrappers
  import opened Text

  /** `Math.floor((now - start) / 1000)`: whole seconds elapsed. */
  function ElapsedSeconds(start: int, now: int): (e: int)
    ensures 1000 * e <= now - start < 1000 * e + 1000
    ensures start <= now ==> e >= 0
  {
    (now - start) / 1000
  }

  /** One tick of the interval: with no start time no interval runs and the
      display keeps its value (initially 0). */
  function Tick(startTime: Option<int>, now: int, elapsed: int): (e: int)
    ensures startTime.None? ==> e == elapsed
    ensures startTime.Some? ==> 1000 * e <= now - startTime.value < 1000 * e + 1000
  {
    match startTime
    case None => elapsed
    case Some(start) => ElapsedSeconds(start, now)
  }

  /** `hours`, `minutes` and `secs` as `formatTime` computes them. */
  function ClockFields(seconds: int): (f: (int, int, int))
    ensures f.0 > 0 <==> seconds >= 3600
  {
    (seconds / 3600, JsRem(seconds, 3600) / 60, JsRem(seconds, 60))
  }

  /** For a non-negative count the fields are its hours, minutes and seconds:
      they recompose into the count, and minutes and seconds stay below 60. */
  lemma ClockFieldsDecompose(seconds: nat)
    ensures var f := ClockFields(seconds);
      && f.0 >= 0 && 0 <= f.1 < 60 && 0 <= f.2 < 60
      && 3600 * f.0 + 60 * f.1 + f.2 == seconds
  {
  }

  /** `n.toString().padStart(2, '0')`. */
  function Pad2(n: int): string {
    PadStart(IntToString(n), 2, '0')
  }

  /** A non-negative field, padded, is all digits, at least two wide, exactly
      two wide below 100, and keeps its value. */
  lemma Pad2Field(n: nat)
    ensures AllDigits(Pad2(n)) && |Pad2(n)| >= 2 && DigitsValue(Pad2(n)) == n
    ensures n < 100 ==> |Pad2(n)| == 2
  {
    PadZeros(IntToString(n), 2);
  }

  /** Minutes and seconds below 60, padded: all digits and exactly two wide. */
  lemma Pad2Small(n: nat)
    requires n < 60
    ensures AllDigits(Pad2(n)) && |Pad2(n)| == 2
  {
    Pad2Field(n);
  }

  /** The display's layout: hours shown only when positive. */
  function Layout(h: int, m: int, s: int): string {
    if h > 0 then Pad2(h) + ":" + Pad2(m) + ":" + Pad2(s) else Pad2(m) + ":" + Pad2(s)
  }

  /** The component's `formatTime(seconds)`. For a non-negative count the
      display reads back as the same count. */
  function FormatTime(seconds: int): (r: string)
    ensures seconds >= 0 ==> ParseClock(r) == Some(seconds)
    ensures seconds >= 0 ==> exists h: nat, m: nat, s: nat :: m < 60 && s < 60 &&
                               3600 * h + 60 * m + s == seconds && r == Layout(h, m, s)
  {
    var f := ClockFields(seconds);
    if seconds >= 0 then
      ClockFieldsDecompose(seconds);
      LayoutRoundTrip(f.0, f.1, f.2, seconds);
      Layout(f.0, f.1, f.2)
    else
      Layout(f.0, f.1, f.2)
  }

  /** Reads `"HH:MM:SS"` or `"MM:SS"` back into seconds. */
  function ParseClock(text: string): Option<int> {
    var parts := Split(text, ':');
    if |parts| == 3 then
      var h, m, s := ParseNat(parts[0]), ParseNat(parts[1]), ParseNat(parts[2]);
      if h.Some? && m.Some? && s.Some? then Some(3600 * h.value + 60 * m.value + s.value) else None
    else if |parts| == 2 then
      var m, s := ParseNat(parts[0]), ParseNat(parts[1]);
      if m.Some? && s.Some? then Some(60 * m.value + s.value) else None
    else None
  }

  /** The colon-separated fields of a layout, each a padded field. */
  lemma SplitLayout(h: nat, m: nat, s: nat)
    ensures Split(Layout(h, m, s), ':') == if h > 0 then [Pad2(h), Pad2(m), Pad2(s)] else [Pad2(m), Pad2(s)]
  {
    Pad2Reads(m);
    Pad2Reads(s);
    if h > 0 {
      Pad2Reads(h);
      assert Layout(h, m, s) == Pad2(h) + [':'] + Pad2(m) + [':'] + Pad2(s);
      SplitThree(Pad2(h), Pad2(m), Pad2(s), ':');
    } else {
      assert Layout(h, m, s) == Pad2(m) + [':'] + Pad2(s);
      SplitTwo(Pad2(m), Pad2(s), ':');
    }
  }

  /** The shape of the display's fields: two or three, all digits, at least two
      wide, the last two exactly two wide. */
  predicate DisplayFields(parts: seq<string>) {
    && 2 <= |parts| <= 3
    && (forall i :: 0 <= i < |parts| ==> AllDigits(parts[i]) && |parts[i]| >= 2)
    && |parts[|parts| - 1]| == 2 && |parts[|parts| - 2]| == 2
  }

  /** A three-field list of digit fields, the last two two wide, has the display's shape. */
  lemma ThreeDisplayFields(a: string, b: string, c: string)
    requires AllDigits(a) && |a| >= 2 && AllDigits(b) && |b| == 2 && AllDigits(c) && |c| == 2
    ensures DisplayFields([a, b, c])
  {
  }

  /** A two-field list of two-wide digit fields has the display's shape. */
  lemma TwoDisplayFields(b: string, c: string)
    requires AllDigits(b) && |b| == 2 && AllDigits(c) && |c| == 2
    ensures DisplayFields([b, c])
  {
  }

  /** The fields of a layout with minutes and seconds below 60: three when the
      hours are positive, two otherwise, in the display's shape. */
  lemma LayoutFields(h: nat, m: nat, s: nat)
    requires m < 60 && s < 60
    ensures |Split(Layout(h, m, s), ':')| == (if h > 0 then 3 else 2)
    ensures DisplayFields(Split(Layout(h, m, s), ':'))
  {
    SplitLayout(h, m, s);
    Pad2Small(m);
    Pad2Small(s);
    if h > 0 {
      Pad2Field(h);
      ThreeDisplayFields(Pad2(h), Pad2(m), Pad2(s));
    } else {
      TwoDisplayFields(Pad2(m), Pad2(s));
    }
  }

  /** The colon-separated fields of the display for a non-negative count: three
      from an hour on, two below; minutes and seconds exactly two digits wide,
      hours at least two. */
  lemma FormatTimeFields(seconds: nat)
    ensures |Split(FormatTime(seconds), ':')| == (if seconds >= 3600 then 3 else 2)
    ensures DisplayFields(Split(FormatTime(seconds), ':'))
  {
    var f := ClockFields(seconds);
    ClockFieldsDecompose(seconds);
    LayoutFields(f.0, f.1, f.2);
  }

  /** A padded field holds no colon and reads back as its value. */
  lemma Pad2Reads(n: nat)
    ensures ':' !in Pad2(n)
    ensures ParseNat(Pad2(n)) == Some(n)
  {
    Pad2Field(n);
    DigitsExclude(Pad2(n), ':');
  }

  /** Three colon-free fields that read as the hours, minutes and seconds of
      a count read back as that count. */
  lemma ReadThreeParts(a: string, b: string, c: string, h: nat, m: nat, s: nat, seconds: int)
    requires ':' !in a && ':' !in b && ':' !in c
    requires ParseNat(a) == Some(h) && ParseNat(b) == Some(m) && ParseNat(c) == Some(s)
    requires 3600 * h + 60 * m + s == seconds
    ensures ParseClock(a + [':'] + b + [':'] + c) == Some(seconds)
  {
    SplitThree(a, b, c, ':');
  }

  /** Two colon-free fields that read as the minutes and seconds of a count
      read back as that count. */
  lemma ReadTwoParts(a: string, b: string, m: nat, s: nat, seconds: int)
    requires ':' !in a && ':' !in b
    requires ParseNat(a) == Some(m) && ParseNat(b) == Some(s)
    requires 60 * m + s == seconds
    ensures ParseClock(a + [':'] + b) == Some(seconds)
  {
    SplitTwo(a, b, ':');
  }

  /** `"HH:MM:SS"` built from padded fields reads back as the count they denote. */
  lemma ReadThreeFields(h: nat, m: nat, s: nat, seconds: int)
    requires 3600 * h + 60 * m + s == seconds
    ensures ParseClock(Pad2(h) + [':'] + Pad2(m) + [':'] + Pad2(s)) == Some(seconds)
  {
    Pad2Reads(h);
    Pad2Reads(m);
    Pad2Reads(s);
    ReadThreeParts(Pad2(h), Pad2(m), Pad2(s), h, m, s, seconds);
  }

  /** `"MM:SS"` built from padded fields reads back as the count they denote. */
  lemma ReadTwoFields(m: nat, s: nat, seconds: int)
    requires 60 * m + s == seconds
    ensures ParseClock(Pad2(m) + [':'] + Pad2(s)) == Some(seconds)
  {
    Pad2Reads(m);
    Pad2Reads(s);
    ReadTwoParts(Pad2(m), Pad2(s), m, s, seconds);
  }

  /** A layout whose fields denote a count reads back as that count. */
  lemma LayoutRoundTrip(h: nat, m: nat, s: nat, seconds: int)
    requires 3600 * h + 60 * m + s == seconds
    ensures ParseClock(Layout(h, m, s)) == Some(seconds)
  {
    if h > 0 {
      assert Layout(h, m, s) == Pad2(h) + [':'] + Pad2(m) + [':'] + Pad2(s);
      ReadThreeFields(h, m, s, seconds);
    } else {
      assert Layout(h, m, s) == Pad2(m) + [':'] + Pad2(s);
      ReadTwoFields(m, s, seconds);
    }
  }
}
