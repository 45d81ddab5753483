// What the screen shows: the first three departures at or after the current
// time, in timetable (file) order, one line each, or the "service ended"
// message when none remain.
module Display {
  import Clock
  import opened Wrappers
  import opened Timetable

  /** At most this many departures are shown (`Take(3)`). */
  const MaxTrains: nat := 3
  /** The vertical position of the first line. */
  const Top: int := 100
  /** The vertical distance between consecutive lines. */
  const RowHeight: int := 120
  /** "Service has ended for today." */
  const ServiceEnded: string := "本日の運行は終了しました"
  /** The ideographic space U+3000 that separates the fields of a departure line. */
  const Gap: char := '　'

  /** One string drawn on the screen, with its vertical position. */
  datatype Line = Line(y: int, text: string)

  /** The departure has not left yet: `Time >= now`, compared at tick resolution. */
  predicate NotDeparted(d: Departure, now: Clock.Ticks)
  {
    Clock.ToTicks(d.time) >= now
  }

  /** The departures that have not left yet, in timetable order (`Where`). */
  function Upcoming(now: Clock.Ticks, timetable: seq<Departure>): (r: seq<Departure>)
    ensures |r| <= |timetable|
    ensures forall i :: 0 <= i < |r| ==> NotDeparted(r[i], now)
  {
    if timetable == [] then []
    else (if NotDeparted(timetable[0], now) then [timetable[0]] else []) + Upcoming(now, timetable[1..])
  }

  /** The departures shown: the first three that have not left yet (`Where(...).Take(3)`). */
  function NextTrains(now: Clock.Ticks, timetable: seq<Departure>): (r: seq<Departure>)
    ensures forall i :: 0 <= i < |r| ==> NotDeparted(r[i], now)
    ensures r <= Upcoming(now, timetable)
    ensures |r| == if |Upcoming(now, timetable)| < MaxTrains then |Upcoming(now, timetable)| else MaxTrains
  {
    var upcoming := Upcoming(now, timetable);
    if |upcoming| <= MaxTrains then upcoming else upcoming[..MaxTrains]
  }

  /** The text of one departure line: `hh:mm`, destination + "行き" ("bound for"),
      platform + "番線" ("platform"), and the service type, separated by U+3000. */
  function DepartureText(d: Departure): (r: string)
    ensures |r| == 12 + |d.destination| + |d.platform| + |d.kind|
    ensures r[..5] == Clock.Clock(d.time) && r[5] == Gap
  {
    Clock.Clock(d.time) + [Gap] + d.destination + "行き" + [Gap] + d.platform + "番線" + [Gap] + d.kind
  }

  /** The lines of the selected departures, the first at `y`, each `RowHeight` below the previous. */
  function DepartureLines(trains: seq<Departure>, y: int): (r: seq<Line>)
    ensures |r| == |trains|
    ensures forall i :: 0 <= i < |r| ==> r[i] == Line(y + RowHeight * i, DepartureText(trains[i]))
  {
    if trains == [] then []
    else [Line(y, DepartureText(trains[0]))] + DepartureLines(trains[1..], y + RowHeight)
  }

  /** Everything drawn for the current time. */
  function Screen(now: Clock.Ticks, timetable: seq<Departure>): (r: seq<Line>)
    ensures 1 <= |r| <= MaxTrains
    ensures forall i :: 0 <= i < |r| ==> r[i].y == Top + RowHeight * i
    ensures r == [Line(Top, ServiceEnded)] <==> Upcoming(now, timetable) == []
    ensures Upcoming(now, timetable) != [] ==>
              |r| == |NextTrains(now, timetable)| &&
              forall i :: 0 <= i < |r| ==> r[i].text == DepartureText(NextTrains(now, timetable)[i])
  {
    var trains := NextTrains(now, timetable);
    if trains == [] then [Line(Top, ServiceEnded)]
    else
      DepartureTextIsNotMessage(trains[0]);
      DepartureLines(trains, Top)
  }

  /** A departure line never reads as the "service ended" message. */
  lemma DepartureTextIsNotMessage(d: Departure)
    ensures DepartureText(d) != ServiceEnded
  {
    assert DepartureText(d)[2] == ':';
    assert ServiceEnded[2] == 'の';
  }

  /** The clock at the head of a departure line reads back as the departure
      time truncated to the minute. */
  lemma DepartureTextClock(d: Departure)
    ensures Clock.ParseTime(DepartureText(d)[..5]) == Some(d.time - d.time % 60)
  {
    Clock.ClockRoundTrip(d.time);
  }

  /** A departure is upcoming exactly when it is in the timetable and has not left. */
  lemma {:induction false} UpcomingMembership(now: Clock.Ticks, timetable: seq<Departure>, d: Departure)
    ensures d in Upcoming(now, timetable) <==> d in timetable && NotDeparted(d, now)
  {
    if timetable != [] {
      UpcomingMembership(now, timetable[1..], d);
      assert timetable == [timetable[0]] + timetable[1..];
    }
  }

  /** Filtering works run by run: the upcoming departures of two runs of the
      timetable are the first's followed by the second's. */
  lemma {:induction false} UpcomingAppend(now: Clock.Ticks, a: seq<Departure>, b: seq<Departure>)
    ensures Upcoming(now, a + b) == Upcoming(now, a) + Upcoming(now, b)
  {
    if a == [] {
      assert a + b == b;
    } else {
      assert (a + b)[0] == a[0] && (a + b)[1..] == a[1..] + b;
      UpcomingAppend(now, a[1..], b);
    }
  }

  /** Entry `k` of the timetable is shown: it has not left and fewer than three
      departures before it in the timetable have not left. */
  predicate Shown(now: Clock.Ticks, timetable: seq<Departure>, k: nat)
    requires k < |timetable|
  {
    NotDeparted(timetable[k], now) && |Upcoming(now, timetable[..k])| < MaxTrains
  }

  /** A shown entry appears on the screen, at the position given by the number
      of earlier entries that have not left. */
  lemma ShownIsSelected(now: Clock.Ticks, timetable: seq<Departure>, k: nat)
    requires k < |timetable| && Shown(now, timetable, k)
    ensures |Upcoming(now, timetable[..k])| < |NextTrains(now, timetable)|
    ensures NextTrains(now, timetable)[|Upcoming(now, timetable[..k])|] == timetable[k]
  {
    var before, rest := timetable[..k], timetable[k..];
    assert timetable == before + rest;
    UpcomingAppend(now, before, rest);
    assert rest == [timetable[k]] + rest[1..];
    UpcomingAppend(now, [timetable[k]], rest[1..]);
    assert Upcoming(now, [timetable[k]]) == [timetable[k]];
    assert Upcoming(now, timetable)[|Upcoming(now, before)|] == timetable[k];
  }

  /** Each upcoming departure is some timetable entry that has not left, at the
      position given by the number of earlier entries that have not left. */
  lemma {:induction false} UpcomingOrigin(now: Clock.Ticks, timetable: seq<Departure>, j: nat)
    requires j < |Upcoming(now, timetable)|
    ensures exists k :: 0 <= k < |timetable| && NotDeparted(timetable[k], now) &&
                        |Upcoming(now, timetable[..k])| == j && timetable[k] == Upcoming(now, timetable)[j]
  {
    var head := timetable[0];
    var tail := timetable[1..];
    if NotDeparted(head, now) && j == 0 {
      assert timetable[..0] == [];
      assert Upcoming(now, timetable[..0]) == [];
    } else {
      var j' := if NotDeparted(head, now) then j - 1 else j;
      assert Upcoming(now, timetable)[j] == Upcoming(now, tail)[j'];
      UpcomingOrigin(now, tail, j');
      var k' :| 0 <= k' < |tail| && NotDeparted(tail[k'], now) &&
                |Upcoming(now, tail[..k'])| == j' && tail[k'] == Upcoming(now, tail)[j'];
      var k := k' + 1;
      PrefixOfTail(timetable, k');
      UpcomingAppend(now, [head], tail[..k']);
      assert |Upcoming(now, [head])| == j - j';
      assert |Upcoming(now, timetable[..k])| == j;
      assert timetable[k] == tail[k'];
    }
  }

  lemma PrefixOfTail(s: seq<Departure>, n: nat)
    requires n < |s|
    ensures s[..n + 1] == [s[0]] + s[1..][..n]
  {
  }

  /** Every departure on the screen is a shown timetable entry. */
  lemma SelectedIsShown(now: Clock.Ticks, timetable: seq<Departure>, j: nat)
    requires j < |NextTrains(now, timetable)|
    ensures exists k :: 0 <= k < |timetable| && Shown(now, timetable, k) &&
                        |Upcoming(now, timetable[..k])| == j && timetable[k] == NextTrains(now, timetable)[j]
  {
    UpcomingOrigin(now, timetable, j);
  }

  /** The selection is closed towards the start of the file: an entry that has
      not left and comes before a shown entry is shown too. */
  lemma EarlierIsShown(now: Clock.Ticks, timetable: seq<Departure>, i: nat, k: nat)
    requires i < k < |timetable|
    requires Shown(now, timetable, k) && NotDeparted(timetable[i], now)
    ensures Shown(now, timetable, i)
  {
    var prefix := timetable[..k];
    assert prefix == timetable[..i] + [timetable[i]] + timetable[i + 1..k];
    UpcomingAppend(now, timetable[..i] + [timetable[i]], timetable[i + 1..k]);
    UpcomingAppend(now, timetable[..i], [timetable[i]]);
  }

  /** Timetable 08:00, 09:00, 10:00 at 08:30: the two later departures are
      shown, on two lines, even though up to three could be. */
  lemma TwoRemaining(a: Departure, b: Departure, c: Departure)
    requires a.time == 8 * 3600 && b.time == 9 * 3600 && c.time == 10 * 3600
    ensures NextTrains(Clock.ToTicks(8 * 3600 + 30 * 60), [a, b, c]) == [b, c]
    ensures |Screen(Clock.ToTicks(8 * 3600 + 30 * 60), [a, b, c])| == 2
  {
    var now := Clock.ToTicks(8 * 3600 + 30 * 60);
    assert [a, b, c][1..] == [b, c] && [b, c][1..] == [c] && [c][1..] == [];
    assert Upcoming(now, [c]) == [c];
    assert Upcoming(now, [b, c]) == [b, c];
    assert Upcoming(now, [a, b, c]) == [b, c];
  }

  /** Timetable 08:00 at 09:00: only the "service ended" message is drawn. */
  lemma AllDeparted(a: Departure)
    requires a.time == 8 * 3600
    ensures Screen(Clock.ToTicks(9 * 3600), [a]) == [Line(Top, ServiceEnded)]
  {
    assert Upcoming(Clock.ToTicks(9 * 3600), [a]) == [];
  }

  /** Timetable 10:00, 08:00, 09:00 at 08:30: 10:00 is shown before 09:00,
      in file order, although 09:00 leaves sooner. */
  lemma FileOrderNotChronological(a: Departure, b: Departure, c: Departure)
    requires a.time == 10 * 3600 && b.time == 8 * 3600 && c.time == 9 * 3600
    ensures NextTrains(Clock.ToTicks(8 * 3600 + 30 * 60), [a, b, c]) == [a, c]
    ensures c.time < a.time
  {
    var now := Clock.ToTicks(8 * 3600 + 30 * 60);
    assert [a, b, c][1..] == [b, c] && [b, c][1..] == [c] && [c][1..] == [];
    assert Upcoming(now, [c]) == [c];
    assert Upcoming(now, [b, c]) == [c];
    assert Upcoming(now, [a, b, c]) == [a, c];
  }

  /** A departure leaving at the current whole second is still shown, but not
      once any fraction of that second has passed. */
  lemma SameSecond(a: Departure, frac: nat)
    requires 0 < frac < Clock.TicksPerSecond
    ensures Clock.ToTicks(a.time) + frac < 864_000_000_000
    ensures NextTrains(Clock.ToTicks(a.time), [a]) == [a]
    ensures NextTrains((Clock.ToTicks(a.time) + frac) as Clock.Ticks, [a]) == []
  {
    assert a.time * Clock.TicksPerSecond <= 86399 * Clock.TicksPerSecond;
    assert Upcoming(Clock.ToTicks(a.time), [a]) == [a];
    assert Upcoming((Clock.ToTicks(a.time) + frac) as Clock.Ticks, [a]) == [];
  }
}
