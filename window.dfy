/** The daily cache and the seven-day history window, as functions of the
    string-to-string store: what `todaysNote` returns and leaves behind, what
    `seedLast7IfNeeded` writes, and what `last7` shows.

    The store key of a day (`keyOf`) and the note a day gets (`noteOf`) are
    parameters here. The app's are `DateKeys.StorageKey`, which is injective,
    and `Rotation.NoteAt(resolve)`; `DailyNotes` instantiates them. */
module Window {
  import opened Gregorian

  /** The persistent key-value store, restricted to its string values. */
  type Store = map<string, string>

  /** Number of days the history covers, today included. */
  const WindowSize: nat := 7

  /** What the history shows for a day whose key is absent. */
  const Placeholder: string := "—"

  datatype HistoryRecord = HistoryRecord(dateText: string, note: string)

  /** What a read-through lookup returns and the store it leaves. */
  datatype Lookup = Lookup(note: string, store: Store)

  /** No entry of m has changed or disappeared in m'. */
  predicate Extends(m: Store, m': Store) {
    forall key :: key in m ==> key in m' && m'[key] == m[key]
  }

  /** Distinct days have distinct keys. */
  ghost predicate Injective(keyOf: Day -> string) {
    forall d1, d2 :: keyOf(d1) == keyOf(d2) ==> d1 == d2
  }

  // ---------------------------------------------------------------------
  // Read-through, write-once lookup

  /** The stored value when key is present; otherwise `computed`, which is
      then stored under key. */
  function ReadThrough(m: Store, key: string, computed: string): (r: Lookup)
    ensures key in r.store && r.store[key] == r.note
    ensures r.store.Keys == m.Keys + {key}
    ensures Extends(m, r.store)
    ensures key in m ==> r.note == m[key] && r.store == m
    ensures key !in m ==> r.note == computed
  {
    if key in m then Lookup(m[key], m) else Lookup(computed, m[key := computed])
  }

  /** A second lookup of the same key returns the first one's note and
      writes nothing, whatever it would have computed. */
  lemma ReadThroughTwice(m: Store, key: string, computed: string, computed': string)
    ensures var first := ReadThrough(m, key, computed);
      ReadThrough(first.store, key, computed') == first
  {
  }

  // ---------------------------------------------------------------------
  // Seeding

  /** Day d is at one of the offsets 0 .. k - 1 before today. */
  predicate InWindow(today: Day, k: nat, d: Day) {
    d <= today && today - d < k
  }

  /** The keys of the days at offsets 0 .. k - 1 that exist. */
  function WindowKeys(keyOf: Day -> string, today: Day, k: nat): (keys: set<string>)
    ensures forall d :: InWindow(today, k, d) ==> keyOf(d) in keys
  {
    if k == 0 then {}
    else WindowKeys(keyOf, today, k - 1) + (if k - 1 <= today then {keyOf(today - (k - 1))} else {})
  }

  /** One pass of the seeding loop: the day at `offset`, when it exists,
      gets its note unless its key is already stored. */
  function SeedStep(m: Store, keyOf: Day -> string, noteOf: Day -> string, today: Day, offset: nat): Store {
    match DaysAgo(today, offset)
    case None => m
    case Some(d) => if keyOf(d) in m then m else m[keyOf(d) := noteOf(d)]
  }

  /** The store after the passes for offsets 0 .. k - 1, in that order. */
  function SeedUpTo(m: Store, keyOf: Day -> string, noteOf: Day -> string, today: Day, k: nat): Store {
    if k == 0 then m else SeedStep(SeedUpTo(m, keyOf, noteOf, today, k - 1), keyOf, noteOf, today, k - 1)
  }

  /** The store after `seedLast7IfNeeded`. */
  function Seeded(m: Store, keyOf: Day -> string, noteOf: Day -> string, today: Day): Store {
    SeedUpTo(m, keyOf, noteOf, today, WindowSize)
  }

  lemma {:induction false} WindowKeysExact(keyOf: Day -> string, today: Day, k: nat, key: string)
    ensures key in WindowKeys(keyOf, today, k) <==> exists d :: InWindow(today, k, d) && key == keyOf(d)
  {
    if k > 0 {
      WindowKeysExact(keyOf, today, k - 1, key);
      if key in WindowKeys(keyOf, today, k) && key !in WindowKeys(keyOf, today, k - 1) {
        assert InWindow(today, k, today - (k - 1));
      }
    }
  }

  /** One pass adds at most the key of its own day, with that day's note. */
  lemma SeedStepEffect(prev: Store, keyOf: Day -> string, noteOf: Day -> string, today: Day, offset: nat)
    ensures var r := SeedStep(prev, keyOf, noteOf, today, offset);
      && r.Keys == prev.Keys + (if offset <= today then {keyOf(today - offset)} else {})
      && Extends(prev, r)
      && (offset <= today && keyOf(today - offset) !in prev ==>
            r[keyOf(today - offset)] == noteOf(today - offset))
  {
  }

  /** With injective keys, the key of the day at offset k is not among the
      keys of offsets 0 .. k - 1. */
  lemma FreshWindowKey(keyOf: Day -> string, today: Day, k: nat)
    requires Injective(keyOf) && k <= today
    ensures keyOf(today - k) !in WindowKeys(keyOf, today, k)
  {
    WindowKeysExact(keyOf, today, k, keyOf(today - k));
  }

  /** What the first k passes of seeding have done to m. */
  ghost predicate SeedInvariant(m: Store, r: Store, keyOf: Day -> string, noteOf: Day -> string, today: Day, k: nat) {
    && r.Keys == m.Keys + WindowKeys(keyOf, today, k)
    && Extends(m, r)
    && (forall d :: InWindow(today, k, d) && keyOf(d) !in m ==> keyOf(d) in r && r[keyOf(d)] == noteOf(d))
  }

  /** The pass for offset k carries the invariant from k to k + 1. */
  lemma SeedStepPreserves(m: Store, prev: Store, keyOf: Day -> string, noteOf: Day -> string, today: Day, k: nat)
    requires Injective(keyOf)
    requires SeedInvariant(m, prev, keyOf, noteOf, today, k)
    ensures SeedInvariant(m, SeedStep(prev, keyOf, noteOf, today, k), keyOf, noteOf, today, k + 1)
  {
    var r := SeedStep(prev, keyOf, noteOf, today, k);
    SeedStepEffect(prev, keyOf, noteOf, today, k);
    if k <= today {
      FreshWindowKey(keyOf, today, k);
    }
    forall d | InWindow(today, k + 1, d) && keyOf(d) !in m
      ensures keyOf(d) in r && r[keyOf(d)] == noteOf(d)
    {
      if d != today - k {
        assert InWindow(today, k, d);
      }
    }
  }

  /** The first k passes leave exactly the old keys and the window's keys, keep
      every old entry, and give every newly written key its own day's note. */
  lemma {:induction false} SeedUpToEffect(m: Store, keyOf: Day -> string, noteOf: Day -> string, today: Day, k: nat)
    requires Injective(keyOf)
    ensures SeedInvariant(m, SeedUpTo(m, keyOf, noteOf, today, k), keyOf, noteOf, today, k)
  {
    if k > 0 {
      SeedUpToEffect(m, keyOf, noteOf, today, k - 1);
      SeedStepPreserves(m, SeedUpTo(m, keyOf, noteOf, today, k - 1), keyOf, noteOf, today, k - 1);
    }
  }

  /** Seeding writes nothing when every window key is already stored. */
  lemma {:induction false} SeedUpToComplete(m: Store, keyOf: Day -> string, noteOf: Day -> string, today: Day, k: nat)
    requires forall d :: InWindow(today, k, d) ==> keyOf(d) in m
    ensures SeedUpTo(m, keyOf, noteOf, today, k) == m
  {
    if k > 0 {
      SeedUpToComplete(m, keyOf, noteOf, today, k - 1);
      if k - 1 <= today {
        assert InWindow(today, k, today - (k - 1));
      }
    }
  }

  /** `seedLast7IfNeeded`: afterwards every day of the window that exists has
      its key stored; the keys are the old ones and the window's, so keys
      outside the window are as they were; entries present before keep their
      value; a key written now holds its own day's note. */
  lemma SeededEffect(m: Store, keyOf: Day -> string, noteOf: Day -> string, today: Day)
    requires Injective(keyOf)
    ensures var r := Seeded(m, keyOf, noteOf, today);
      && (forall d :: InWindow(today, WindowSize, d) ==> keyOf(d) in r)
      && r.Keys == m.Keys + WindowKeys(keyOf, today, WindowSize)
      && Extends(m, r)
      && (forall d :: InWindow(today, WindowSize, d) && keyOf(d) !in m ==> r[keyOf(d)] == noteOf(d))
  {
    SeedUpToEffect(m, keyOf, noteOf, today, WindowSize);
  }

  /** Seeding twice on the same day leaves the store as seeding once. */
  lemma SeededIdempotent(m: Store, keyOf: Day -> string, noteOf: Day -> string, today: Day)
    requires Injective(keyOf)
    ensures Seeded(Seeded(m, keyOf, noteOf, today), keyOf, noteOf, today) == Seeded(m, keyOf, noteOf, today)
  {
    SeededEffect(m, keyOf, noteOf, today);
    SeedUpToComplete(Seeded(m, keyOf, noteOf, today), keyOf, noteOf, today, WindowSize);
  }

  /** After seeding, today's note is already cached: `todaysNote` returns the
      seeded value and writes nothing. */
  lemma SeededTodayCached(m: Store, keyOf: Day -> string, noteOf: Day -> string, today: Day, computed: string)
    requires Injective(keyOf)
    ensures var s := Seeded(m, keyOf, noteOf, today);
      keyOf(today) in s && ReadThrough(s, keyOf(today), computed) == Lookup(s[keyOf(today)], s)
  {
    SeededEffect(m, keyOf, noteOf, today);
    assert InWindow(today, WindowSize, today);
  }

  /** `todaysNote` first, then seeding: the seeding pass keeps the note that
      was shown. */
  lemma SeedKeepsTodaysNote(m: Store, keyOf: Day -> string, noteOf: Day -> string, today: Day)
    requires Injective(keyOf)
    ensures var shown := ReadThrough(m, keyOf(today), noteOf(today));
      var s := Seeded(shown.store, keyOf, noteOf, today);
      keyOf(today) in s && s[keyOf(today)] == shown.note
  {
    var shown := ReadThrough(m, keyOf(today), noteOf(today));
    SeededEffect(shown.store, keyOf, noteOf, today);
  }

  // ---------------------------------------------------------------------
  // History

  /** The record of day d: its label and its stored note, or the placeholder. */
  function RecordOf(m: Store, keyOf: Day -> string, dateLabel: Day -> string, d: Day): HistoryRecord {
    HistoryRecord(dateLabel(d), if keyOf(d) in m then m[keyOf(d)] else Placeholder)
  }

  /** The records for the offsets 0 .. k - 1 that have a date, today first. */
  function HistoryUpTo(m: Store, keyOf: Day -> string, dateLabel: Day -> string, today: Day, k: nat): (r: seq<HistoryRecord>)
    ensures |r| == if k <= today + 1 then k else today + 1
    ensures forall i :: 0 <= i < |r| ==> r[i] == RecordOf(m, keyOf, dateLabel, today - i)
  {
    if k == 0 then []
    else
      HistoryUpTo(m, keyOf, dateLabel, today, k - 1)
        + match DaysAgo(today, k - 1)
          case None => []
          case Some(d) => [RecordOf(m, keyOf, dateLabel, d)]
  }

  /** `last7` over the store m. */
  function History(m: Store, keyOf: Day -> string, dateLabel: Day -> string, today: Day): seq<HistoryRecord> {
    HistoryUpTo(m, keyOf, dateLabel, today, WindowSize)
  }

  /** After seeding, the history has one record for each of the seven days
      (from the seventh day of the calendar on), today first, and every note
      in it is the stored one, so none comes from the absent-key path. */
  lemma HistoryAfterSeeding(m: Store, keyOf: Day -> string, noteOf: Day -> string, dateLabel: Day -> string, today: Day)
    requires Injective(keyOf)
    ensures var s := Seeded(m, keyOf, noteOf, today);
      var h := History(s, keyOf, dateLabel, today);
      && (today >= WindowSize - 1 ==> |h| == WindowSize)
      && forall i :: 0 <= i < |h| ==>
           keyOf(today - i) in s && h[i] == HistoryRecord(dateLabel(today - i), s[keyOf(today - i)])
  {
    SeededEffect(m, keyOf, noteOf, today);
  }

  /** When no day of the window has the placeholder as its stored value or
      as its note, no record shown after seeding is the placeholder. */
  lemma NoPlaceholderAfterSeeding(m: Store, keyOf: Day -> string, noteOf: Day -> string, dateLabel: Day -> string, today: Day)
    requires Injective(keyOf)
    requires forall d :: InWindow(today, WindowSize, d) && keyOf(d) in m ==> m[keyOf(d)] != Placeholder
    requires forall d :: InWindow(today, WindowSize, d) ==> noteOf(d) != Placeholder
    ensures forall r :: r in History(Seeded(m, keyOf, noteOf, today), keyOf, dateLabel, today) ==> r.note != Placeholder
  {
    var s := Seeded(m, keyOf, noteOf, today);
    SeededEffect(m, keyOf, noteOf, today);
    HistoryAfterSeeding(m, keyOf, noteOf, dateLabel, today);
    var h := History(s, keyOf, dateLabel, today);
    forall i | 0 <= i < |h|
      ensures h[i].note != Placeholder
    {
      var d := today - i;
      assert InWindow(today, WindowSize, d);
    }
  }

  /** First launch: with nothing stored, seeding followed by the history
      shows the note of each of the seven days, today first. */
  lemma FirstLaunch(keyOf: Day -> string, noteOf: Day -> string, dateLabel: Day -> string, today: Day)
    requires Injective(keyOf) && today >= WindowSize - 1
    ensures var h := History(Seeded(map[], keyOf, noteOf, today), keyOf, dateLabel, today);
      |h| == WindowSize &&
      forall i :: 0 <= i < WindowSize ==> h[i] == HistoryRecord(dateLabel(today - i), noteOf(today - i))
  {
    SeededEffect(map[], keyOf, noteOf, today);
    HistoryAfterSeeding(map[], keyOf, noteOf, dateLabel, today);
  }
}
