/** The rotation function: the note of a day is table entry
    `(dayOfYear - 1) % noteKeys.count`, with a missing ordinal read as 1. */
module Rotation {
  import opened Wrappers
  import opened Catalog
  import opened Gregorian

  /** Swift's `%` on Int: the remainder truncates toward zero, so it has the
      sign of the dividend (Dafny's `%` never yields a negative value). */
  function SwiftRem(a: int, b: int): (r: int)
    requires b > 0
    ensures a >= 0 ==> 0 <= r < b
    ensures a < 0 ==> -b < r <= 0
    ensures (a - r) % b == 0
  {
    RemainderOffset(if a >= 0 then a else -a, b);
    if a >= 0 then a % b else -((-a) % b)
  }

  /** n and its remainder differ by a multiple of b, on either side of 0. */
  lemma RemainderOffset(n: nat, b: int)
    requires b > 0
    ensures (n - n % b) % b == 0 && (n % b - n) % b == 0
  {
    var q := n / b;
    assert n - n % b == q * b;
    MultipleRemainder(q, b);
    MultipleRemainder(-q, b);
    assert n % b - n == (-q) * b;
  }

  /** Every multiple of b leaves remainder 0. */
  lemma MultipleRemainder(k: int, b: int)
    requires b > 0
    ensures (k * b) % b == 0
  {
    var q, m := (k * b) / b, (k * b) % b;
    var j := k - q;
    assert j * b == k * b - q * b;
    assert m == j * b;
    if j >= 1 {
      AtLeastOnce(j, b);
    } else if j <= -1 {
      AtLeastOnce(-j, b);
    }
  }

  /** A positive multiple of b is at least b. */
  lemma {:induction false} AtLeastOnce(j: int, b: int)
    requires b > 0 && j >= 1
    ensures j * b >= b
    decreases j
  {
    if j > 1 {
      AtLeastOnce(j - 1, b);
      assert j * b == (j - 1) * b + b;
    }
  }

  /** `(ordinal - 1) % noteKeys.count`: a valid table index for every
      ordinal from 1 on; an ordinal below 1 would give a negative index. */
  function RotationIndex(ordinal: int): (r: int)
    ensures ordinal >= 1 ==> 0 <= r < NoteCount
    ensures ordinal < 1 ==> r <= 0
  {
    SwiftRem(ordinal - 1, NoteCount)
  }

  /** The table index for an ordinal as the calendar API returns it, an
      absent ordinal counting as 1. */
  function NoteIndex(ordinal: Option<int>): (r: nat)
    requires ordinal.Some? ==> ordinal.value >= 1
    ensures r < NoteCount
    ensures ordinal.None? ==> r == 0
  {
    RotationIndex(if ordinal.Some? then ordinal.value else 1)
  }

  /** `computedNoteForToday`, and the note `seedLast7IfNeeded` writes for a
      past day: the localized text of that day's table entry, whose
      identifier is `NoteKeys()[i]` (see `Catalog.NoteKeysTable`). */
  function NoteForDay(resolve: string -> string, d: Day): string {
    resolve(NoteKey(NoteIndex(Some(DayOfYear(d)))))
  }

  /** `NoteForDay` as a function of the day alone. */
  function NoteAt(resolve: string -> string): Day -> string {
    (d: Day) => NoteForDay(resolve, d)
  }

  /** From ordinal 1 on the index repeats with the table size as period. */
  lemma RotationPeriodic(ordinal: int)
    requires ordinal >= 1
    ensures RotationIndex(ordinal + NoteCount) == RotationIndex(ordinal)
  {
  }

  /** Day-of-year 1 and day-of-year 121 both select `note_001`, as does a
      missing ordinal. */
  lemma RotationScenarios()
    ensures NoteIndex(Some(1)) == 0 && NoteIndex(Some(121)) == 0 && NoteIndex(None) == 0
    ensures NoteKeys()[NoteIndex(Some(1))] == "note_001"
    ensures NoteIndex(Some(120)) == 119 && NoteKeys()[NoteIndex(Some(120))] == "note_120"
  {
    FirstAndLastKeys();
  }

  /** The note of the first of January is always `note_001`'s text. */
  lemma NewYearNote(resolve: string -> string, d: Day)
    requires ToCivil(d).month == 1 && ToCivil(d).day == 1
    ensures NoteForDay(resolve, d) == resolve("note_001")
  {
    FirstAndLastKeys();
  }

  /** From one day to the next the index advances by one, wrapping after
      entry 119, except that it starts again at entry 0 on the first of
      January. */
  lemma NextDayIndex(d: Day)
    ensures ToCivil(d + 1).year == ToCivil(d).year ==>
      NoteIndex(Some(DayOfYear(d + 1))) == (NoteIndex(Some(DayOfYear(d))) + 1) % NoteCount
    ensures ToCivil(d + 1).year != ToCivil(d).year ==> NoteIndex(Some(DayOfYear(d + 1))) == 0
  {
    DayOfYearSuccessor(d);
    var k, k' := DayOfYear(d), DayOfYear(d + 1);
    if ToCivil(d + 1).year == ToCivil(d).year {
      RotationStep(k);
      assert k' == k + 1;
    }
  }

  /** Within the positive ordinals the index advances by one, modulo the
      table size. */
  lemma RotationStep(ordinal: int)
    requires ordinal >= 1
    ensures RotationIndex(ordinal + 1) == (RotationIndex(ordinal) + 1) % NoteCount
  {
    var r := RotationIndex(ordinal);
    assert r == (ordinal - 1) % 120 && RotationIndex(ordinal + 1) == ordinal % 120;
    assert ordinal == (ordinal - 1) / 120 * 120 + r + 1;
  }

  /** Two days whose ordinals differ by the table size get the same note. */
  lemma NotePeriodic(resolve: string -> string, d1: Day, d2: Day)
    requires DayOfYear(d2) == DayOfYear(d1) + NoteCount
    ensures NoteForDay(resolve, d1) == NoteForDay(resolve, d2)
  {
    var k := DayOfYear(d1);
    RotationPeriodic(k);
    assert NoteIndex(Some(DayOfYear(d2))) == NoteIndex(Some(k));
  }
}
