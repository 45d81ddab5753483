// Times of day: the restricted `TimeSpan` parser used for the first field of a
// timetable row, and the `hh:mm` rendering used on the display.
module Clock {
  import opened Wrappers
  import Text

  const SecondsPerDay: nat := 86400
  /** A `TimeSpan` tick is 100 ns. */
  const TicksPerSecond: nat := 10_000_000

  /** A time of day at whole-second resolution, as a departure time. */
  type Seconds = t: nat | t < 86400

  /** A time of day at tick resolution, as `DateTime.Now.TimeOfDay`. */
  type Ticks = t: nat | t < 864_000_000_000

  predicate IsDigit(c: char) { '0' <= c <= '9' }

  function DigitValue(c: char): (v: nat)
    requires IsDigit(c)
    ensures v < 10
  {
    c as nat - '0' as nat
  }

  function DigitChar(v: nat): (c: char)
    requires v < 10
    ensures IsDigit(c) && DigitValue(c) == v
  {
    ('0' as nat + v) as char
  }

  /** One component of a time: one or two decimal digits whose value is below `bound`. */
  function Field(s: string, bound: nat): (r: Option<nat>)
    ensures r.Some? ==> 1 <= |s| <= 2 && r.value < bound
  {
    if 1 <= |s| <= 2 && forall i :: 0 <= i < |s| ==> IsDigit(s[i]) then
      var v := if |s| == 1 then DigitValue(s[0]) else 10 * DigitValue(s[0]) + DigitValue(s[1]);
      if v < bound then Some(v) else None
    else None
  }

  /** `TimeSpan.TryParse` restricted to `H:MM` and `H:MM:SS`: hours below 24,
      minutes and seconds below 60, each written with one or two digits. */
  function ParseTime(s: string): (r: Option<Seconds>)
    ensures r.Some? ==> 1 <= Text.Count(s, ':') <= 2
  {
    var f := Text.Split(s, ':');
    if |f| != 2 && |f| != 3 then None
    else
      match (Field(f[0], 24), Field(f[1], 60), if |f| == 3 then Field(f[2], 60) else Some(0))
      case (Some(h), Some(m), Some(sec)) => Some(h * 3600 + m * 60 + sec)
      case _ => None
  }

  /** Two decimal digits with a leading zero, as the `hh` and `mm` format specifiers. */
  function Pad2(n: nat): (r: string)
    requires n < 100
    ensures |r| == 2 && IsDigit(r[0]) && IsDigit(r[1])
    ensures forall bound: nat :: n < bound ==> Field(r, bound) == Some(n)
  {
    [DigitChar(n / 10), DigitChar(n % 10)]
  }

  /** The hours component of a time of day. */
  function Hours(t: Seconds): (h: nat)
    ensures h < 24
  {
    t / 3600
  }

  /** The minutes component of a time of day. */
  function Minutes(t: Seconds): (m: nat)
    ensures m < 60
  {
    t % 3600 / 60
  }

  /** The `hh:mm` rendering of a time of day: seconds are not shown. */
  function Clock(t: Seconds): (r: string)
    ensures |r| == 5 && r[2] == ':' && Text.Count(r, ':') == 1
  {
    var hh, mm := Pad2(Hours(t)), Pad2(Minutes(t));
    Text.CountZero(hh, ':');
    Text.CountZero(mm, ':');
    Text.CountAppend(hh, [':'], ':');
    Text.CountAppend(hh + [':'], mm, ':');
    hh + [':'] + mm
  }

  /** The parts of a text split around one separator that occurs in neither side. */
  lemma SplitPair(a: string, b: string, sep: char)
    requires sep !in a && sep !in b
    ensures Text.Split(a + [sep] + b, sep) == [a, b]
  {
    Text.SplitAround(a, sep, b);
    Text.SplitNoSeparator(a, sep);
    Text.SplitNoSeparator(b, sep);
  }

  /** A time of day is its hours, minutes and seconds components recombined. */
  lemma Decompose(t: Seconds)
    ensures t == Hours(t) * 3600 + Minutes(t) * 60 + t % 60
    ensures t - t % 60 == Hours(t) * 3600 + Minutes(t) * 60
  {
    var r := t % 3600;
    assert t == Hours(t) * 3600 + r;
    assert r == Minutes(t) * 60 + r % 60;
    assert r % 60 == t % 60;
  }

  /** A text of two or three colon-separated fields is read field by field. */
  lemma ParseFields(s: string, f: seq<string>, h: nat, m: nat, sec: nat)
    requires Text.Split(s, ':') == f && (|f| == 2 || |f| == 3)
    requires Field(f[0], 24) == Some(h) && Field(f[1], 60) == Some(m)
    requires |f| == 3 ==> Field(f[2], 60) == Some(sec)
    requires |f| == 2 ==> sec == 0
    ensures ParseTime(s) == Some(h * 3600 + m * 60 + sec)
  {
  }

  /** Reading back a rendered `hh:mm` gives the time truncated to the minute. */
  lemma ClockRoundTrip(t: Seconds)
    ensures ParseTime(Clock(t)) == Some(t - t % 60)
  {
    var hh, mm := Pad2(Hours(t)), Pad2(Minutes(t));
    SplitPair(hh, mm, ':');
    assert Clock(t) == hh + [':'] + mm;
    Decompose(t);
    ParseFields(Clock(t), [hh, mm], Hours(t), Minutes(t), 0);
  }

  /** A time written as `hh:mm:ss` is read back exactly. */
  lemma ClockSecondsRoundTrip(t: Seconds)
    ensures ParseTime(Clock(t) + [':'] + Pad2(t % 60)) == Some(t)
  {
    var hh, mm, ss := Pad2(Hours(t)), Pad2(Minutes(t)), Pad2(t % 60);
    SplitTriple(hh, mm, ss);
    assert Clock(t) + [':'] + ss == hh + [':'] + mm + [':'] + ss;
    Decompose(t);
    ParseFields(Clock(t) + [':'] + ss, [hh, mm, ss], Hours(t), Minutes(t), t % 60);
  }

  /** The parts of three separator-free texts joined by colons. */
  lemma SplitTriple(a: string, b: string, c: string)
    requires ':' !in a && ':' !in b && ':' !in c
    ensures Text.Split(a + [':'] + b + [':'] + c, ':') == [a, b, c]
  {
    SplitPair(b, c, ':');
    Text.SplitNoSeparator(a, ':');
    Text.SplitAround(a, ':', b + [':'] + c);
    assert a + [':'] + b + [':'] + c == a + [':'] + (b + [':'] + c);
  }

  /** The time of day as `TimeSpan` ticks, for comparison with the clock. */
  function ToTicks(t: Seconds): (r: Ticks)
    ensures r / TicksPerSecond == t && r % TicksPerSecond == 0
  {
    t * TicksPerSecond
  }
}
