/** The daily-note engine of the main screen: today's note read through the
    persistent key-value store, the seven-day backfill, and the history list.
    The store is the app's string-to-string defaults store, the clock is the
    `today` argument, and `resolve` is the localization lookup. */
module DailyNotes {
  import opened Wrappers
  import opened Catalog
  import opened Gregorian
  import opened DateKeys
  import opened Rotation
  import opened Window

  /** The store keys of distinct days differ. */
  lemma StorageKeysInjective()
    ensures Injective(StorageKey)
  {
    forall d1, d2 | StorageKey(d1) == StorageKey(d2)
      ensures d1 == d2
    {
      StorageKeyInjective(d1, d2);
    }
  }

  /** First launch with an empty store: after the backfill, the history
      shows each of the last seven days with its own rotation note. */
  lemma FirstLaunchHistory(resolve: string -> string, dateLabel: Day -> string, today: Day)
    requires today >= WindowSize - 1
    ensures var h := History(Seeded(map[], StorageKey, NoteAt(resolve), today), StorageKey, dateLabel, today);
      |h| == WindowSize &&
      forall i :: 0 <= i < WindowSize ==> h[i] == HistoryRecord(dateLabel(today - i), NoteForDay(resolve, today - i))
  {
    var noteOf := NoteAt(resolve);
    StorageKeysInjective();
    FirstLaunch(StorageKey, noteOf, dateLabel, today);
    var h := History(Seeded(map[], StorageKey, noteOf, today), StorageKey, dateLabel, today);
    forall i | 0 <= i < WindowSize
      ensures h[i] == HistoryRecord(dateLabel(today - i), NoteForDay(resolve, today - i))
    {
      assert noteOf(today - i) == NoteForDay(resolve, today - i);
    }
  }

  /** `todaysNote` as written reads the clock twice: `todayKey` for the key
      and `computedNoteForToday` for the ordinal. With those readings falling
      on `keyDay` and `noteDay`, this is the lookup it performs. */
  function TodaysNoteTwoReadings(m: Store, resolve: string -> string, keyDay: Day, noteDay: Day): (r: Lookup)
    ensures StorageKey(keyDay) !in m ==>
      r.note == NoteForDay(resolve, noteDay) && r.store == m[StorageKey(keyDay) := r.note]
  {
    ReadThrough(m, StorageKey(keyDay), NoteForDay(resolve, noteDay))
  }

  /** When the two readings straddle a midnight within a year and the key is
      not yet stored, the key of day d receives the note of day d + 1, which
      differs from d's own note (identifiers shown as their own text). */
  lemma MidnightMismatch(m: Store, d: Day)
    requires StorageKey(d) !in m
    requires ToCivil(d + 1).year == ToCivil(d).year
    ensures var r := TodaysNoteTwoReadings(m, s => s, d, d + 1);
      StorageKey(d) in r.store && r.store[StorageKey(d)] != NoteForDay(s => s, d)
  {
    var i, j := NoteIndex(Some(DayOfYear(d))), NoteIndex(Some(DayOfYear(d + 1)));
    NextDayIndex(d);
    assert i != j;
    NoteKeysTable();
    if i < j {
      assert NoteKeys()[i] != NoteKeys()[j];
    } else {
      assert NoteKeys()[j] != NoteKeys()[i];
    }
  }

  class NoteStore {
    /** The string values of the persistent store, by key. */
    var entries: Store
    /** Identifier to localized text. */
    const resolve: string -> string

    constructor (persisted: Store, resolve: string -> string)
      ensures entries == persisted && this.resolve == resolve
    {
      entries := persisted;
      this.resolve := resolve;
    }

    /** `NSLocalizedString(noteKeys[index], comment: "")`. */
    method LocalizedNote(index: nat) returns (text: string)
      requires index < NoteCount
      ensures text == resolve(NoteKey(index))
    {
      NoteKeysTable();
      text := resolve(NoteKeys()[index]);
    }

    /** `todaysNote`: the note stored under today's key; on a miss, the
        rotation note, which is stored under that key first. */
    method TodaysNote(today: Day) returns (note: string)
      modifies this
      ensures var key := StorageKey(today);
        && (key in old(entries) ==> note == old(entries)[key] && entries == old(entries))
        && (key !in old(entries) ==> note == NoteForDay(resolve, today) && entries == old(entries)[key := note])
      ensures Lookup(note, entries) == ReadThrough(old(entries), StorageKey(today), NoteForDay(resolve, today))
    {
      var key := StoragePrefix + DayKey(today);
      if key in entries {
        note := entries[key];
      } else {
        note := LocalizedNote(NoteIndex(Some(DayOfYear(today))));
        entries := entries[key := note];
      }
    }

    /** `seedLast7IfNeeded`: for today and each of the six days before it,
        stores the day's rotation note unless its key is already stored. */
    method SeedLast7IfNeeded(today: Day)
      modifies this
      ensures entries == Seeded(old(entries), StorageKey, NoteAt(resolve), today)
    {
      ghost var initial := entries;
      for offset := 0 to WindowSize
        invariant entries == SeedUpTo(initial, StorageKey, NoteAt(resolve), today, offset)
      {
        SeedDay(today, offset);
      }
    }

    /** The body of the backfill loop: the day `offset` days before today,
        when the calendar has it, gets its rotation note unless its key is
        already stored. */
    method SeedDay(today: Day, offset: nat)
      modifies this
      ensures entries == SeedStep(old(entries), StorageKey, NoteAt(resolve), today, offset)
    {
      var date := DaysAgo(today, offset);
      if date.None? {
        return;
      }
      var key := StoragePrefix + DayKey(date.value);
      assert key == StorageKey(date.value);
      if key !in entries {
        var dayOfYear := DayOfYear(date.value);
        var index := NoteIndex(Some(dayOfYear));
        var note := LocalizedNote(index);
        assert note == NoteAt(resolve)(date.value);
        entries := entries[key := note];
      }
    }

    /** `last7`: one record per day from today back to six days ago (fewer
        only before the calendar's seventh day), each with the day's label
        and its stored note or the placeholder. Reads the store only. */
    function Last7(today: Day, dateLabel: Day -> string): (records: seq<HistoryRecord>)
      reads this
      ensures |records| == if today >= WindowSize - 1 then WindowSize else today + 1
      ensures forall i :: 0 <= i < |records| ==> records[i] == RecordOf(entries, StorageKey, dateLabel, today - i)
    {
      History(entries, StorageKey, dateLabel, today)
    }
  }

}
