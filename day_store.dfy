/**
 * The calendar's state: the displayed month, the records of the days keyed by `formatDate`,
 * and the edit session of one selected day, changed by the event handlers of the component.
 *
 * The browser's storage is modelled by a field holding the map last written under the one
 * storage key; the JSON text it would hold is not modelled.
 */
module DayStore {
  import opened Wrappers
  import opened Calendar
  import opened DateKey
  import MonthGrid

  /** What is kept for a day: a free-text note and a progress percentage. */
  datatype DayRecord = DayRecord(note: string, progress: int)

  /** The record shown for a day that has none: `{ note: "", progress: 0 }`. */
  const DefaultRecord := DayRecord("", 0)

  /**
   * `days[key] || { note: "", progress: 0 }`: the stored record, or the default one.
   * Reading never adds the default to the map.
   */
  function RecordOf(days: map<string, DayRecord>, key: string): (r: DayRecord)
    ensures key in days ==> r == days[key]
    ensures key !in days ==> r == DayRecord("", 0)
  {
    if key in days then days[key] else DefaultRecord
  }

  /** `Math.max(0, Math.min(100, progress))`: the percentage a day's tile shows. */
  function Pct(progress: int): (p: int)
    ensures 0 <= p <= 100
    ensures 0 <= progress <= 100 ==> p == progress
    ensures progress < 0 ==> p == 0
    ensures progress > 100 ==> p == 100
  {
    var capped := if 100 < progress then 100 else progress;
    if 0 < capped then capped else 0
  }

  /** `{ ...prev, [key]: record }`: a copy of the map with one key set. */
  function Saved(days: map<string, DayRecord>, key: string, record: DayRecord): (r: map<string, DayRecord>)
    ensures r.Keys == days.Keys + {key}
    ensures r[key] == record
    ensures forall k | k in days && k != key :: r[k] == days[k]
  {
    days[key := record]
  }

  /** Reading a key after saving it gives the saved record; every other key reads as before. */
  lemma SavedThenRead(days: map<string, DayRecord>, key: string, record: DayRecord, other: string)
    ensures RecordOf(Saved(days, key, record), key) == record
    ensures other != key ==> RecordOf(Saved(days, key, record), other) == RecordOf(days, other)
  {
  }

  /** What the storage slot can hold at start-up: nothing, text that does not parse, or a map. */
  datatype Snapshot = Missing | Malformed | Stored(records: map<string, DayRecord>)

  /** The initial `days`: the stored map, or an empty one when the slot is missing or malformed. */
  function Load(snapshot: Snapshot): (days: map<string, DayRecord>)
    ensures snapshot.Stored? ==> days == snapshot.records
    ensures !snapshot.Stored? ==> days == map[]
  {
    match snapshot
    case Stored(records) => records
    case _ => map[]
  }

  /** The `App` component's state and its event handlers, run one at a time. */
  class CalendarApp {
    var baseDate: Date
    var days: map<string, DayRecord>
    var selected: Option<string>
    var note: string
    var progress: int
    /** The map last written to the storage slot. */
    var storage: map<string, DayRecord>

    /** The shown month is a first of month, and storage holds `days` after every handler. */
    ghost predicate Valid()
      reads this
    {
      baseDate.day == 1 && 0 <= baseDate.month < 12 && storage == days
    }

    /** Mounting: the month of `today`, `days` loaded, no day selected, then `days` written back. */
    constructor (today: Date, snapshot: Snapshot)
      requires 0 <= today.month < 12
      ensures Valid()
      ensures baseDate == StartOfMonth(today) && days == Load(snapshot)
      ensures selected == None && note == "" && progress == 0
    {
      baseDate := StartOfMonth(today);
      days := Load(snapshot);
      selected := None;
      note := "";
      progress := 0;
      storage := Load(snapshot);
    }

    /** `openDay`: select the day's key and copy its record, or the default, into the dialog. */
    method OpenDay(d: Date)
      requires Valid() && IsValidDate(d)
      modifies this
      ensures Valid()
      ensures selected == Some(FormatDate(d))
      ensures note == RecordOf(days, FormatDate(d)).note
      ensures progress == RecordOf(days, FormatDate(d)).progress
      ensures days == old(days) && storage == old(storage) && baseDate == old(baseDate)
    {
      var key := FormatDate(d);
      selected := Some(key);
      var data := RecordOf(days, key);
      note := data.note;
      progress := data.progress;
    }

    /** The note's text area changes. */
    method SetNote(text: string)
      requires Valid()
      modifies this`note
      ensures Valid() && note == text
    {
      note := text;
    }

    /** The progress slider, whose range is 0 to 100, changes. */
    method SetProgress(value: int)
      requires Valid() && 0 <= value <= 100
      modifies this`progress
      ensures Valid() && progress == value
    {
      progress := value;
    }

    /**
     * `saveAndClose`: the selected key gets the dialog's note and progress as they are, with
     * no clamping; every other key keeps its record; the dialog closes and storage follows.
     */
    method SaveAndClose()
      requires Valid() && selected.Some?
      modifies this`days, this`selected, this`storage
      ensures Valid()
      ensures days == Saved(old(days), old(selected).value, DayRecord(old(note), old(progress)))
      ensures forall k | k in old(days) && k != old(selected).value :: k in days && days[k] == old(days)[k]
      ensures selected == None && baseDate == old(baseDate)
      ensures note == old(note) && progress == old(progress)
    {
      days := Saved(days, selected.value, DayRecord(note, progress));
      selected := None;
      storage := days;
    }

    /** `closeWithoutSave`: the dialog closes and nothing is stored. */
    method CloseWithoutSave()
      requires Valid()
      modifies this`selected
      ensures Valid() && selected == None
      ensures days == old(days) && storage == old(storage)
    {
      selected := None;
    }

    /** `prevMonth`: show the first of the preceding month. */
    method ShowPrevMonth()
      requires Valid()
      modifies this`baseDate
      ensures Valid() && baseDate == Calendar.PrevMonth(old(baseDate))
    {
      baseDate := Calendar.PrevMonth(baseDate);
    }

    /** `nextMonth`: show the first of the following month. */
    method ShowNextMonth()
      requires Valid()
      modifies this`baseDate
      ensures Valid() && baseDate == Calendar.NextMonth(old(baseDate))
    {
      baseDate := Calendar.NextMonth(baseDate);
    }

    /** The `matrix` memo: the grid of the shown month. */
    method Matrix() returns (weeks: seq<seq<MonthGrid.Cell>>)
      requires Valid()
      ensures |weeks| == MonthGrid.WeekCount(baseDate.year, baseDate.month)
      ensures forall w | 0 <= w < |weeks| :: |weeks[w]| == 7
      ensures forall w, c | 0 <= w < |weeks| && 0 <= c < 7 ::
        weeks[w][c] == MonthGrid.GridCell(baseDate.year, baseDate.month, 7 * w + c)
      ensures MonthGrid.Dates(MonthGrid.Flatten(weeks)) == MonthGrid.MonthDays(baseDate.year, baseDate.month)
    {
      weeks := MonthGrid.MonthMatrix(baseDate.year, baseDate.month);
    }

    /** The percentage a day's tile shows: its stored progress clamped to 0..100, 0 when unset. */
    function DisplayedPercent(d: Date): (p: int)
      requires IsValidDate(d)
      reads this
      ensures 0 <= p <= 100
      ensures FormatDate(d) !in days ==> p == 0
      ensures FormatDate(d) in days && 0 <= days[FormatDate(d)].progress <= 100 ==> p == days[FormatDate(d)].progress
    {
      Pct(RecordOf(days, FormatDate(d)).progress)
    }
  }

  /**
   * Opening a day and cancelling leaves the records and storage as they were; the dialog's
   * fields keep the opened record.
   */
  method OpenAndCancel(app: CalendarApp, d: Date)
    requires app.Valid() && IsValidDate(d)
    modifies app
    ensures app.Valid() && app.selected == None
    ensures app.days == old(app.days) && app.storage == old(app.storage)
    ensures app.baseDate == old(app.baseDate)
    ensures app.note == RecordOf(old(app.days), FormatDate(d)).note
    ensures app.progress == RecordOf(old(app.days), FormatDate(d)).progress
  {
    app.OpenDay(d);
    app.CloseWithoutSave();
  }

  /**
   * Opening a day and saving without an edit stores the record the dialog showed, so a day
   * without a record gets the default written in.
   */
  method OpenAndSaveUnedited(app: CalendarApp, d: Date)
    requires app.Valid() && IsValidDate(d)
    modifies app
    ensures app.Valid() && app.selected == None
    ensures app.days == Saved(old(app.days), FormatDate(d), RecordOf(old(app.days), FormatDate(d)))
    ensures app.baseDate == old(app.baseDate)
  {
    app.OpenDay(d);
    app.SaveAndClose();
  }
}
