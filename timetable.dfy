// Loading the timetable: the header line is dropped, every further line is
// split on commas, and each line with at least four fields whose first field
// reads as a time becomes one departure, in file order.
module Timetable {
  import opened Wrappers
  import Text
  import Clock

  /** One scheduled departure; `kind` is the service type (the `Type` property). */
  datatype Departure = Departure(time: Clock.Seconds, destination: string, platform: string, kind: string)

  /** The departure a single data line describes, or `None` when the line is skipped. */
  function ParseRow(line: string): (r: Option<Departure>)
    ensures r.Some? ==> Text.Count(line, ',') >= 3
  {
    var parts := Text.Split(line, ',');
    if |parts| < 4 then None
    else
      match Clock.ParseTime(parts[0])
      case Some(time) => Some(Departure(time, parts[1], parts[2], parts[3]))
      case None => None
  }

  /** A line with fewer than three commas has fewer than four fields and is
      skipped without error. */
  lemma TooFewFieldsSkipped(line: string)
    requires Text.Count(line, ',') < 3
    ensures ParseRow(line) == None
  {
  }

  /** A line whose text before the first comma is not a time is skipped without error. */
  lemma BadTimeSkipped(line: string)
    requires Clock.ParseTime(Text.Split(line, ',')[0]) == None
    ensures ParseRow(line) == None
  {
  }

  /** The values present in `xs`, in order. */
  function Somes<T>(xs: seq<Option<T>>): (r: seq<T>)
    ensures |r| <= |xs|
  {
    if xs == [] then []
    else (if xs[0].Some? then [xs[0].value] else []) + Somes(xs[1..])
  }

  /** The outcome of reading each data line. */
  function Parsed(rows: seq<string>): (r: seq<Option<Departure>>)
    ensures |r| == |rows| && forall i :: 0 <= i < |rows| ==> r[i] == ParseRow(rows[i])
  {
    seq(|rows|, i requires 0 <= i < |rows| => ParseRow(rows[i]))
  }

  /** The departures of the data lines, in line order. */
  function Rows(rows: seq<string>): (r: seq<Departure>)
    ensures |r| <= |rows|
  {
    Somes(Parsed(rows))
  }

  /** The timetable of a file's lines: every line but the first is a data line. */
  function Load(lines: seq<string>): (r: seq<Departure>)
    ensures |lines| <= 1 ==> r == []
    ensures |lines| >= 1 ==> |r| <= |lines| - 1
  {
    if |lines| == 0 then [] else Rows(lines[1..])
  }

  /** A line whose fields are known is read field by field. */
  lemma ParseRowOfFields(line: string, parts: seq<string>, t: Clock.Seconds)
    requires Text.Split(line, ',') == parts && |parts| >= 4
    requires Clock.ParseTime(parts[0]) == Some(t)
    ensures ParseRow(line) == Some(Departure(t, parts[1], parts[2], parts[3]))
  {
  }

  /** A well-formed line: a readable time, then destination, platform and type
      verbatim; fields after the fourth are ignored. */
  lemma AcceptedRow(timeText: string, destination: string, platform: string, kind: string,
                    extra: seq<string>, t: Clock.Seconds)
    requires Clock.ParseTime(timeText) == Some(t)
    requires ',' !in timeText && ',' !in destination && ',' !in platform && ',' !in kind
    requires forall i :: 0 <= i < |extra| ==> ',' !in extra[i]
    ensures ParseRow(Text.Join([timeText, destination, platform, kind] + extra, ','))
            == Some(Departure(t, destination, platform, kind))
  {
    var parts := [timeText, destination, platform, kind] + extra;
    CommaFree(timeText, destination, platform, kind, extra);
    Text.SplitJoin(parts, ',');
    ParseRowOfFields(Text.Join(parts, ','), parts, t);
  }

  lemma CommaFree(timeText: string, destination: string, platform: string, kind: string,
                  extra: seq<string>)
    requires ',' !in timeText && ',' !in destination && ',' !in platform && ',' !in kind
    requires forall i :: 0 <= i < |extra| ==> ',' !in extra[i]
    ensures var parts := [timeText, destination, platform, kind] + extra;
            |parts| >= 4 && parts[0] == timeText && parts[1] == destination &&
            parts[2] == platform && parts[3] == kind &&
            forall i :: 0 <= i < |parts| ==> ',' !in parts[i]
  {
    var parts := [timeText, destination, platform, kind] + extra;
    forall i | 0 <= i < |parts| ensures ',' !in parts[i] {
      if i >= 4 { assert parts[i] == extra[i - 4]; }
    }
  }

  /** An accepted line is exactly such a well-formed line. */
  lemma AcceptedRowShape(line: string, d: Departure)
    requires ParseRow(line) == Some(d)
    ensures exists timeText: string, extra: seq<string> ::
              Clock.ParseTime(timeText) == Some(d.time) &&
              line == Text.Join([timeText, d.destination, d.platform, d.kind] + extra, ',')
  {
    var parts := Text.Split(line, ',');
    Text.JoinSplit(line, ',');
    assert |parts| >= 4 && Clock.ParseTime(parts[0]) == Some(d.time);
    assert parts[1] == d.destination && parts[2] == d.platform && parts[3] == d.kind;
    assert parts == [parts[0], d.destination, d.platform, d.kind] + parts[4..];
    assert line == Text.Join([parts[0], d.destination, d.platform, d.kind] + parts[4..], ',');
  }

  /** Values are collected independently of what follows: the values of two
      runs are the first's followed by the second's. */
  lemma {:induction false} SomesAppend<T>(a: seq<Option<T>>, b: seq<Option<T>>)
    ensures Somes(a + b) == Somes(a) + Somes(b)
  {
    if a == [] {
      assert a + b == b;
    } else {
      assert (a + b)[0] == a[0] && (a + b)[1..] == a[1..] + b;
      SomesAppend(a[1..], b);
    }
  }

  /** Data lines contribute independently: the timetable of two runs of lines
      is the first's followed by the second's. */
  lemma RowsAppend(a: seq<string>, b: seq<string>)
    ensures Rows(a + b) == Rows(a) + Rows(b)
  {
    assert Parsed(a + b) == Parsed(a) + Parsed(b);
    SomesAppend(Parsed(a), Parsed(b));
  }

  /** What one data line contributes to the timetable: one departure or nothing. */
  function RowDepartures(line: string): (r: seq<Departure>)
    ensures |r| <= 1 && (r == [] <==> ParseRow(line) == None)
    ensures forall d :: d in r <==> ParseRow(line) == Some(d)
  {
    match ParseRow(line)
    case Some(d) => [d]
    case None => []
  }

  /** The first line never contributes, however well-formed it is. */
  lemma HeaderIgnored(header: string, other: string, rows: seq<string>)
    ensures Load([header] + rows) == Load([other] + rows)
  {
    assert ([header] + rows)[1..] == rows == ([other] + rows)[1..];
  }

  /** Appending a line to a file appends that line's departure, if any, to the
      timetable: loading is in file order and never sorts. */
  lemma LoadAppend(lines: seq<string>, line: string)
    requires |lines| >= 1
    ensures Load(lines + [line]) == Load(lines) + RowDepartures(line)
  {
    assert (lines + [line])[1..] == lines[1..] + [line];
    RowsSnoc(lines[1..], line);
  }

  /** One more data line adds its departure, if any, at the end. */
  lemma RowsSnoc(rows: seq<string>, line: string)
    ensures Rows(rows + [line]) == Rows(rows) + RowDepartures(line)
  {
    RowsAppend(rows, [line]);
    assert Parsed([line]) == [ParseRow(line)];
    assert Somes([ParseRow(line)]) == RowDepartures(line);
  }

  /** The index in `xs` of each value of `Somes(xs)`. */
  function Origins<T>(xs: seq<Option<T>>): (o: seq<nat>)
    ensures |o| == |Somes(xs)|
  {
    if xs == [] then []
    else (if xs[0].Some? then [0] else []) + Shift(Origins(xs[1..]))
  }

  function Shift(o: seq<nat>): (r: seq<nat>)
    ensures |r| == |o| && forall k :: 0 <= k < |o| ==> r[k] == o[k] + 1
  {
    seq(|o|, k requires 0 <= k < |o| => o[k] + 1)
  }

  /** Each origin holds the value at the same position. */
  lemma {:induction false} OriginsDescribe<T>(xs: seq<Option<T>>, k: nat)
    requires k < |Origins(xs)|
    ensures Origins(xs)[k] < |xs| && xs[Origins(xs)[k]] == Some(Somes(xs)[k])
  {
    var o, tail := Origins(xs), Origins(xs[1..]);
    if xs[0].Some? && k == 0 {
      assert o[0] == 0;
    } else {
      var j := if xs[0].Some? then k - 1 else k;
      assert o[k] == tail[j] + 1 && Somes(xs)[k] == Somes(xs[1..])[j];
      OriginsDescribe(xs[1..], j);
    }
  }

  /** Origins strictly increase. */
  lemma {:induction false} OriginsIncrease<T>(xs: seq<Option<T>>)
    ensures forall k, l :: 0 <= k < l < |Origins(xs)| ==> Origins(xs)[k] < Origins(xs)[l]
  {
    if xs != [] {
      OriginsIncrease(xs[1..]);
      var o, tail := Origins(xs), Origins(xs[1..]);
      if xs[0].Some? {
        forall k, l | 0 <= k < l < |o| ensures o[k] < o[l] {
          assert o[l] == tail[l - 1] + 1;
          if k > 0 { assert o[k] == tail[k - 1] + 1; }
        }
      }
    }
  }

  /** Every present value has its index among the origins. */
  lemma {:induction false} OriginsComplete<T>(xs: seq<Option<T>>, i: nat)
    requires i < |xs| && xs[i].Some?
    ensures i in Origins(xs)
  {
    var tail := Origins(xs[1..]);
    if i > 0 {
      assert xs[1..][i - 1] == xs[i];
      OriginsComplete(xs[1..], i - 1);
      var k :| 0 <= k < |tail| && tail[k] == i - 1;
      assert Origins(xs)[k + (if xs[0].Some? then 1 else 0)] == i;
    }
  }

  /** The line of the file each departure of the timetable comes from. */
  function SourceLines(lines: seq<string>): (o: seq<nat>)
    requires |lines| >= 1
  {
    Shift(Origins(Parsed(lines[1..])))
  }

  /** Each departure of the timetable is described by its source line, a data line. */
  lemma SourceLineDescribes(lines: seq<string>, k: nat)
    requires |lines| >= 1 && k < |SourceLines(lines)|
    ensures |SourceLines(lines)| == |Load(lines)|
    ensures 1 <= SourceLines(lines)[k] < |lines|
    ensures ParseRow(lines[SourceLines(lines)[k]]) == Some(Load(lines)[k])
  {
    var xs := Parsed(lines[1..]);
    OriginsDescribe(xs, k);
    var i := Origins(xs)[k];
    assert xs[i] == ParseRow(lines[1..][i]);
    assert lines[1..][i] == lines[i + 1];
  }

  /** Every accepted data line is the source line of some departure. */
  lemma SourceLineComplete(lines: seq<string>, i: nat)
    requires 1 <= i < |lines| && ParseRow(lines[i]).Some?
    ensures i in SourceLines(lines)
  {
    var xs := Parsed(lines[1..]);
    assert xs[i - 1] == ParseRow(lines[i]);
    OriginsComplete(xs, i - 1);
    var k :| 0 <= k < |Origins(xs)| && Origins(xs)[k] == i - 1;
    assert SourceLines(lines)[k] == i;
  }

  /** The timetable is the accepted data lines, each once, in file order: its
      k-th departure comes from data line `SourceLines(lines)[k]`, those line
      numbers increase, and every accepted data line is among them. */
  lemma LoadTraceable(lines: seq<string>)
    requires |lines| >= 1
    ensures |SourceLines(lines)| == |Load(lines)|
    ensures forall k :: 0 <= k < |SourceLines(lines)| ==>
              1 <= SourceLines(lines)[k] < |lines| && ParseRow(lines[SourceLines(lines)[k]]) == Some(Load(lines)[k])
    ensures forall k, l :: 0 <= k < l < |SourceLines(lines)| ==> SourceLines(lines)[k] < SourceLines(lines)[l]
    ensures forall i :: 1 <= i < |lines| && ParseRow(lines[i]).Some? ==> i in SourceLines(lines)
  {
    OriginsIncrease(Parsed(lines[1..]));
    forall k | 0 <= k < |SourceLines(lines)|
      ensures 1 <= SourceLines(lines)[k] < |lines| && ParseRow(lines[SourceLines(lines)[k]]) == Some(Load(lines)[k])
    {
      SourceLineDescribes(lines, k);
    }
    forall i | 1 <= i < |lines| && ParseRow(lines[i]).Some?
      ensures i in SourceLines(lines)
    {
      SourceLineComplete(lines, i);
    }
  }

  /** A departure is in the timetable exactly when some data line describes it. */
  lemma LoadMembership(lines: seq<string>, d: Departure)
    ensures d in Load(lines) <==> exists i :: 1 <= i < |lines| && ParseRow(lines[i]) == Some(d)
  {
    if |lines| >= 1 {
      LoadTraceable(lines);
      var o := SourceLines(lines);
      if d in Load(lines) {
        var k :| 0 <= k < |Load(lines)| && Load(lines)[k] == d;
        assert ParseRow(lines[o[k]]) == Some(d);
      }
      if i :| 1 <= i < |lines| && ParseRow(lines[i]) == Some(d) {
        var k :| 0 <= k < |o| && o[k] == i;
        assert Load(lines)[k] == d;
      }
    }
  }

  /** A file of a header and one data line holds that line's departure, if any. */
  lemma LoadOneRow(header: string, row: string)
    ensures Load([header, row]) == RowDepartures(row)
  {
    assert [header, row][1..] == [row];
    assert Parsed([row]) == [ParseRow(row)];
  }

  /** The sample row `08:15,Tokyo,3,Express`. */
  lemma SampleRow(row: string)
    requires row == "08:15,Tokyo,3,Express"
    ensures ParseRow(row) == Some(Departure(8 * 3600 + 15 * 60, "Tokyo", "3", "Express"))
  {
    SampleRowFields(row);
    SampleTime();
    AcceptedRow("08:15", "Tokyo", "3", "Express", [], 8 * 3600 + 15 * 60);
  }

  lemma SampleRowFields(row: string)
    requires row == "08:15,Tokyo,3,Express"
    ensures row == Text.Join(["08:15", "Tokyo", "3", "Express"] + [], ',')
  {
    var fields := ["08:15", "Tokyo", "3", "Express"];
    assert fields + [] == fields;
  }

  lemma SampleTime()
    ensures Clock.ParseTime("08:15") == Some(8 * 3600 + 15 * 60)
  {
    Clock.SplitPair("08", "15", ':');
    assert "08" + [':'] + "15" == "08:15";
    Clock.ParseFields("08:15", ["08", "15"], 8, 15, 0);
  }

  /** The sample file: any header and the row `08:15,Tokyo,3,Express` give
      one departure at 08:15. */
  lemma SampleFile(header: string, row: string)
    requires row == "08:15,Tokyo,3,Express"
    ensures Load([header, row]) == [Departure(8 * 3600 + 15 * 60, "Tokyo", "3", "Express")]
  {
    LoadOneRow(header, row);
    SampleRow(row);
  }
}
