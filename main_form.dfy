// The display form: it owns the loaded timetable, reloads it from the file's
// lines, and computes what each repaint draws.
module Signage {
  import Text
  import Clock
  import opened Wrappers
  import opened Timetable
  import opened Display

  class MainForm {
    /** The departures currently loaded, in file order. */
    var timetable: seq<Departure>

    /** Creating the form loads the timetable once. */
    constructor (lines: seq<string>)
      ensures timetable == Load(lines)
    {
      timetable := [];
      new;
      LoadTimetable(lines);
    }

    /** The form's load event loads the timetable again, from the same lines. */
    method FormLoad(lines: seq<string>)
      modifies this
      ensures timetable == Load(lines)
    {
      LoadTimetable(lines);
    }

    /** Replaces the timetable by the departures of `lines`: the header line is
        skipped and each further line is added when it has at least four fields
        and a readable time. Whatever was loaded before is discarded. */
    method LoadTimetable(lines: seq<string>)
      modifies this
      ensures timetable == Load(lines)
    {
      timetable := [];
      var rows := if |lines| == 0 then [] else lines[1..];
      for i := 0 to |rows|
        invariant timetable == Rows(rows[..i])
      {
        assert rows[..i + 1] == rows[..i] + [rows[i]];
        RowsSnoc(rows[..i], rows[i]);
        var parts := Text.Split(rows[i], ',');
        if |parts| < 4 {
          continue;
        }
        match Clock.ParseTime(parts[0])
        case Some(time) =>
          timetable := timetable + [Departure(time, parts[1], parts[2], parts[3])];
        case None =>
      }
      assert rows[..|rows|] == rows;
    }

    /** The lines one repaint draws at time of day `now`. */
    method OnPaint(now: Clock.Ticks) returns (screen: seq<Line>)
      ensures screen == Screen(now, timetable)
    {
      var trains := NextTrains(now, timetable);
      var y := Top;
      if |trains| == 0 {
        screen := [Line(y, ServiceEnded)];
        return;
      }
      screen := [];
      for i := 0 to |trains|
        invariant |screen| == i && y == Top + RowHeight * i
        invariant forall m :: 0 <= m < i ==> screen[m] == Line(Top + RowHeight * m, DepartureText(trains[m]))
      {
        var text := DepartureText(trains[i]);
        screen := screen + [Line(y, text)];
        y := y + RowHeight;
      }
    }
  }

  /** Start-up loads the timetable in the constructor and again in the load
      event; the second load replaces the first, so the form holds the
      timetable of one load and no duplicates. */
  method StartUp(lines: seq<string>) returns (form: MainForm)
    ensures fresh(form) && form.timetable == Load(lines)
  {
    form := new MainForm(lines);
    form.FormLoad(lines);
  }
}
