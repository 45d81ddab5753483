# Timetable signage: a verified model of the loader and the departure board

The signage program shows a station's next departures on a fullscreen
display. It reads `timetable.csv`, drops the header line, splits every other
line on commas, and keeps each line that has at least four fields and a
first field that reads as a time of day. The result is a list of departures
(time, destination, platform, service type) in file order, with no sorting.
On every repaint it takes the departures whose time is at or after the
current time of day, in file order, and keeps the first three. It draws one
line per kept departure at y = 100, 220 and 340. When nothing is kept it
draws "本日の運行は終了しました" ("service has ended for today") at y = 100.

The model has six modules:

- `Wrappers` (wrappers.dfy): the shared `Option` type for "read or skip"
  results.
- `Text` (text.dfy): `string.Split(char)` as a function. It never quotes or
  escapes, keeps empty parts, and always yields one more part than there are
  separators. `Join` is its inverse.
- `Clock` (clock.dfy): times of day. `ParseTime` is the restricted
  `TimeSpan.TryParse` (see "Left out"). `Clock` is the `hh:mm` rendering.
  `ToTicks` converts to the 100 ns ticks in which the current time is given.
- `Timetable` (timetable.dfy): the `Departure` record, the reading of one
  line (`ParseRow`) and of a whole file (`Load`).
- `Display` (display.dfy): the `Where(...).Take(3)` selection (`NextTrains`)
  and the drawn lines (`Screen`), as pure functions of the time and the
  timetable.
- `Signage` (main_form.dfy): the form as a class. It owns the `timetable`
  field and has an imperative `LoadTimetable` loop (with `continue`) that
  replaces the field. `OnPaint` is a loop that advances `y` by the row
  height and returns the `(y, text)` lines it would draw.

The "next three" selection follows file order, not departure time: an
unsorted file can show a later train above a sooner one. The model keeps
that behaviour and proves it: `FileOrderNotChronological` shows 10:00 drawn
before 09:00.

## Model

| member | source | states |
|---|---|---|
| `Text.Split` | Timetable-Signage/MainForm.cs:55 | a line splits into exactly one more part than it has separators |
| `Text.SplitPartsFree` | Timetable-Signage/MainForm.cs:55 | no part contains the separator |
| `Text.JoinSplit` | Timetable-Signage/MainForm.cs:55 | splitting loses nothing: re-joining the parts with the separator gives the line back |
| `Text.SplitJoin` | Timetable-Signage/MainForm.cs:55 | separator-free fields joined with the separator split back into exactly those fields (empty fields included) |
| `Text.SplitAround` | Timetable-Signage/MainForm.cs:55 | a separator between two texts makes the parts of the whole the parts of the left followed by those of the right |
| `Clock.ParseTime` | Timetable-Signage/MainForm.cs:58 | a text read as a time has one or two colons, and the result is a time of day below 24 h |
| `Clock.Pad2` | Timetable-Signage/MainForm.cs:98 | two digits, which read back as the number under any bound above it |
| `Clock.Clock` | Timetable-Signage/MainForm.cs:98 | `hh:mm` is five characters with its only colon at position 2 |
| `Clock.ClockRoundTrip` | Timetable-Signage/MainForm.cs:58 | reading a rendered `hh:mm` back gives the time truncated to the minute |
| `Clock.ClockSecondsRoundTrip` | Timetable-Signage/MainForm.cs:58 | `hh:mm:ss` reads back as exactly the time written |
| `Clock.ToTicks` | Timetable-Signage/MainForm.cs:83-84 | a whole-second time is an exact multiple of 10,000,000 ticks with that many seconds |
| `Timetable.ParseRow` | Timetable-Signage/MainForm.cs:55-66 | the reading of one data line (split, the fewer-than-four-fields skip, `TryParse`, the field mapping); its contract says an accepted line has at least three commas, and its full meaning is given by `TooFewFieldsSkipped`, `BadTimeSkipped`, `AcceptedRow` and `AcceptedRowShape` |
| `Timetable.TooFewFieldsSkipped` | Timetable-Signage/MainForm.cs:55-56 | a line with fewer than three commas (fewer than four fields) yields no departure and no error |
| `Timetable.BadTimeSkipped` | Timetable-Signage/MainForm.cs:58 | a line whose first field is not a time yields no departure and no error |
| `Timetable.AcceptedRow` | Timetable-Signage/MainForm.cs:58-66 | a readable time followed by destination, platform and type gives one departure with those fields verbatim; fields after the fourth are ignored |
| `Timetable.AcceptedRowShape` | Timetable-Signage/MainForm.cs:55-66 | conversely, every accepted line is a readable time, the departure's three text fields and any further fields, joined by commas |
| `Timetable.RowDepartures` | Timetable-Signage/MainForm.cs:55-67 | a data line contributes at most one departure: exactly the one it describes, or none when it is skipped |
| `Timetable.Rows` | Timetable-Signage/MainForm.cs:53-68 | no more departures than data lines |
| `Timetable.Load` | Timetable-Signage/MainForm.cs:49-69 | an empty or header-only file gives an empty timetable, and a timetable is never longer than the lines after the header |
| `Timetable.HeaderIgnored` | Timetable-Signage/MainForm.cs:53 | replacing the first line, even a well-formed one, never changes the timetable |
| `Timetable.RowsAppend` | Timetable-Signage/MainForm.cs:53-68 | the departures of two runs of lines are the first run's followed by the second's |
| `Timetable.RowsSnoc` | Timetable-Signage/MainForm.cs:53-68 | one more data line adds its departure, if any, at the end |
| `Timetable.LoadAppend` | Timetable-Signage/MainForm.cs:51-68 | appending a line to the file appends its departure, if any, to the timetable (file order, no sorting) |
| `Timetable.SourceLineDescribes` | Timetable-Signage/MainForm.cs:53-66 | the k-th departure is described by its source line, a line after the header |
| `Timetable.SourceLineComplete` | Timetable-Signage/MainForm.cs:53-66 | every accepted line after the header is the source of some departure |
| `Timetable.LoadTraceable` | Timetable-Signage/MainForm.cs:51-68 | the timetable is the accepted lines after the header, each once, in file order: source lines increase and none is missed |
| `Timetable.LoadMembership` | Timetable-Signage/MainForm.cs:53-67 | a departure is in the timetable if and only if some line after the header describes it |
| `Timetable.LoadOneRow` | Timetable-Signage/MainForm.cs:51-68 | a header and one data line give exactly that line's departure, if any |
| `Timetable.SampleRow` | Timetable-Signage/MainForm.cs:55-66 | `08:15,Tokyo,3,Express` gives the departure at 08:15 to Tokyo, platform 3, Express |
| `Timetable.SampleFile` | Timetable-Signage/MainForm.cs:49-69 | any header followed by that row gives a one-departure timetable |
| `Display.Upcoming` | Timetable-Signage/MainForm.cs:84 | the filtered list is no longer than the timetable and every entry has `Time >= now` |
| `Display.UpcomingMembership` | Timetable-Signage/MainForm.cs:84 | a departure passes the filter if and only if it is in the timetable and has `Time >= now` |
| `Display.UpcomingAppend` | Timetable-Signage/MainForm.cs:84 | the filter keeps order: filtering two runs gives the first's result followed by the second's |
| `Display.NextTrains` | Timetable-Signage/MainForm.cs:84 | the selection is a prefix of the filtered timetable, of length min(3, k), and every entry has `Time >= now` |
| `Display.ShownIsSelected` | Timetable-Signage/MainForm.cs:84 | an entry with `Time >= now` and fewer than three such entries before it in the file is selected, at the position equal to that count |
| `Display.SelectedIsShown` | Timetable-Signage/MainForm.cs:84 | conversely, each selected departure is such an entry, at such a position |
| `Display.EarlierIsShown` | Timetable-Signage/MainForm.cs:84 | an entry with `Time >= now` earlier in the file than a selected entry is selected too |
| `Display.DepartureText` | Timetable-Signage/MainForm.cs:98 | a departure line starts with the `hh:mm` clock and U+3000, and its length is 12 plus the three text fields |
| `Display.DepartureTextIsNotMessage` | Timetable-Signage/MainForm.cs:90-98 | a departure line never equals the "service ended" message |
| `Display.DepartureTextClock` | Timetable-Signage/MainForm.cs:98 | the clock at the head of a departure line reads back as the departure time truncated to the minute |
| `Display.DepartureLines` | Timetable-Signage/MainForm.cs:96-101 | line i is at y + 120·i and shows departure i's text |
| `Display.Screen` | Timetable-Signage/MainForm.cs:87-101 | one to three lines, line i at y = 100 + 120·i; the "service ended" message alone if and only if nothing has `Time >= now`, otherwise one line per selected departure with its text |
| `Display.TwoRemaining` | Timetable-Signage/MainForm.cs:84-101 | 08:00, 09:00, 10:00 at 08:30 select 09:00 and 10:00 and draw two lines |
| `Display.AllDeparted` | Timetable-Signage/MainForm.cs:90-94 | 08:00 at 09:00 draws only the "service ended" message at y = 100 |
| `Display.FileOrderNotChronological` | Timetable-Signage/MainForm.cs:84 | 10:00, 08:00, 09:00 at 08:30 select 10:00 then 09:00, in file order, though 09:00 is sooner |
| `Display.SameSecond` | Timetable-Signage/MainForm.cs:83-84 | a departure is still shown during the tick of its own second but not after any fraction of that second has passed |
| `Signage.MainForm.constructor` | Timetable-Signage/MainForm.cs:18-30 | a new form holds the timetable of the file's lines |
| `Signage.MainForm.FormLoad` | Timetable-Signage/MainForm.cs:32-47 | the load event leaves the form holding the timetable of the lines |
| `Signage.MainForm.LoadTimetable` | Timetable-Signage/MainForm.cs:49-69 | the loop leaves the field equal to the timetable of the lines, whatever it held before (replace, not append) |
| `Signage.MainForm.OnPaint` | Timetable-Signage/MainForm.cs:79-102 | the drawing loop produces exactly the screen for the current time and the loaded timetable |
| `Signage.StartUp` | Timetable-Signage/MainForm.cs:18-47 | loading in the constructor and again in the load event gives the timetable of one load, with no duplicates |

## Left out

- Reading the file is not modelled: the existence check, the error dialog,
  `Application.Exit`, `File.ReadAllLines` and Shift_JIS decoding
  (MainForm.cs:34-43, 52). The model starts from the decoded lines, which
  every loading member takes as a parameter. One consequence goes
  unmodelled: the constructor loads (MainForm.cs:28) before the load event
  checks that the file exists (MainForm.cs:35). A missing file therefore
  makes the constructor's read fail before the dialog can appear.
- Clock.ParseTime: accepts only `H:MM` and `H:MM:SS`. Each component has one
  or two digits, hours are below 24, and minutes and seconds are below 60.
  The .NET `TimeSpan.TryParse` grammar is wider and culture-sensitive: it
  also accepts surrounding white space, a bare day count, `d.hh:mm:ss`,
  fractional seconds and a sign. Lines that only that wider grammar accepts
  are skipped by the model but loaded by the program. Times of a day or more,
  and negative times, therefore never occur in the model.
- The current time is a parameter (`now`, in 100 ns ticks) instead of
  `DateTime.Now` (MainForm.cs:83).
- The one-second redraw timer and `Invalidate` (MainForm.cs:71-77) are
  event-loop plumbing. The Escape-key handler (MainForm.cs:104-113) is
  process control. Neither is modelled.
- Form styling, fonts, colours and `Graphics.DrawString` are not modelled
  (MainForm.cs:21-26, 92, 99). Only the `(y, text)` lines are modelled. The
  x position, which is always 100, is left out.
