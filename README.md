# NebulaWhisper daily-note engine in Dafny

NebulaWhisper shows one short note per calendar day. The note is chosen by
day of year from a table of 120 localized texts, `note_001` .. `note_120`.
The app keeps each day's note in the persistent key-value store under
`note.yyyy-MM-dd`, so a day's note is chosen once and then stays fixed. When
the main screen appears, the app backfills the notes of the last seven days.
Its history sheet then lists those seven days, today first, with `—` for a
day that has no stored note.

This project models that engine and proves its properties:

| file | module | what it holds |
|---|---|---|
| `wrappers.dfy` | `Wrappers` | `Option` |
| `decimal.dfy` | `Decimal` | zero-padded decimal rendering (`%03d`, `yyyy`, `MM`, `dd`) and its inverse |
| `catalog.dfy` | `Catalog` | the identifier table `noteKeys` |
| `gregorian.dfy` | `Gregorian` | local day numbers, the proleptic Gregorian calendar, day of year, "n days ago" |
| `datekey.dfy` | `DateKeys` | `dayKey(for:)` / `todayKey`, the store key `note.` + date key, and a parser for keys |
| `rotation.dfy` | `Rotation` | Swift's `%`, the rotation index and its `?? 1` fallback, the note of a day |
| `window.dfy` | `Window` | read-through lookup, the seeding pass and the history, as functions on the store |
| `store.dfy` | `DailyNotes` | class `NoteStore`: the store as a `map` field, with `todaysNote` and `seedLast7IfNeeded` as methods and `last7` as a function reading it |

A day is a local day number: day 0 is 0001-01-01. The clock reading is the
caller's `today` argument. The localization lookup `NSLocalizedString` is the
parameter `resolve`, and the `.medium` date label is the parameter
`dateLabel`. Both are functions the model knows nothing about. `Window` takes
the store key of a day (`keyOf`) and the note of a day (`noteOf`) as
parameters, and its seeding lemmas need only that `keyOf` is injective.
`DailyNotes` supplies the app's `StorageKey` and `NoteAt(resolve)` and proves
`StorageKey` injective.

The methods are proved against the functions. `TodaysNote` ends in the state
`ReadThrough` describes. `SeedLast7IfNeeded` ends in the state `Seeded`
describes, with the loop invariant "the store is `SeedUpTo` after `offset`
passes". `Last7` is `History` over the current store. The lemmas in `Window`
state what these functions guarantee.

Two points of the source shape the model:

- The date key is formatted with a fixed Gregorian calendar (line 23).
  The day of year comes from `Calendar.current` (lines 40 and 79). The model
  assumes the current calendar is Gregorian too.
- `last7` is not a list of exactly seven records by construction. It uses
  `compactMap` over `Calendar.date(byAdding:)`, which may give no date, and
  `seedLast7IfNeeded` skips such an offset with `continue`. The model keeps
  that path: `DaysAgo` has no day before day 0, so the history is shorter
  only in the first six days of the calendar.

## Model

| member | source | states |
|---|---|---|
| Decimal.Digits | NebulaWhisper/ContentView.swift:12 | the decimal rendering of a number is non-empty, all digits, with no leading zero |
| Decimal.Padded | NebulaWhisper/ContentView.swift:12 | a zero-padded rendering is all digits and as wide as the requested width or the number, whichever is wider |
| Decimal.ValueOfPadded | NebulaWhisper/ContentView.swift:12 | reading a zero-padded rendering back gives the number |
| Decimal.PaddedWidth | NebulaWhisper/ContentView.swift:12 | a number below 10^w, padded to width w, is exactly w characters |
| Decimal.PaddedInjective | NebulaWhisper/ContentView.swift:12 | two numbers whose zero-padded renderings at the same width are equal are the same number |
| Catalog.NoteKeys | NebulaWhisper/ContentView.swift:12 | the identifier table has `NoteCount` (120) entries |
| Catalog.NoteKeyShape | NebulaWhisper/ContentView.swift:12 | identifier i is 8 characters: `note_`, then three digits whose value is i + 1 |
| Catalog.NoteKeysTable | NebulaWhisper/ContentView.swift:12 | the table has exactly 120 entries, entry i is identifier i, and no two entries are equal |
| Catalog.FirstAndLastKeys | NebulaWhisper/ContentView.swift:12 | the first entry is `note_001` and the last is `note_120` |
| Gregorian.DaysBeforeMonth | NebulaWhisper/ContentView.swift:40 | no days precede January; the days before "month 13" fill the whole year |
| Gregorian.DaysInMonth | NebulaWhisper/ContentView.swift:40 | a month has 28 to 31 days, and 29 exactly for February of a leap year |
| Gregorian.ToCivil | NebulaWhisper/ContentView.swift:30-37 | every day number has a valid calendar date whose day number is that day |
| Gregorian.DayNumberInjective | NebulaWhisper/ContentView.swift:30-37 | distinct valid dates have distinct day numbers |
| Gregorian.ToCivilOfDayNumber | NebulaWhisper/ContentView.swift:30-37 | converting a date to its day number and back gives the same date |
| Gregorian.DayOfYear | NebulaWhisper/ContentView.swift:40 | the ordinal of a day in its year lies between 1 and the year's length and counts the days since 1 January, plus one |
| Gregorian.DayOfYearSuccessor | NebulaWhisper/ContentView.swift:40 | within a year the ordinal grows by one from day to day; the day after a year's last day is 1 January of the next year, with ordinal 1 |
| Gregorian.FirstDay | NebulaWhisper/ContentView.swift:40 | day 0 is 0001-01-01, with ordinal 1 |
| Gregorian.DaysAgo | NebulaWhisper/ContentView.swift:67 | a date exists `offset` days back exactly when `offset` does not pass day 0, and it lies `offset` days before |
| DateKeys.ParseKey | NebulaWhisper/ContentView.swift:26 | the inverse of the `yyyy-MM-dd` format, used only for the round trip in `ParseFormat` (the app never parses a key); a string it accepts has at least ten characters |
| DateKeys.ParseFormat | NebulaWhisper/ContentView.swift:30-37 | reading a rendered `yyyy-MM-dd` key back gives the date |
| DateKeys.KeyShape | NebulaWhisper/ContentView.swift:26 | for years 1 to 9999 a key is ten characters, with `-` at positions 4 and 7 and digits elsewhere |
| DateKeys.DayKeyInjective | NebulaWhisper/ContentView.swift:30-37 | two days have the same date key if and only if they are the same day |
| DateKeys.StorageKeyInjective | NebulaWhisper/ContentView.swift:46 | two days have the same `note.` store key if and only if they are the same day |
| Rotation.SwiftRem | NebulaWhisper/ContentView.swift:41 | Swift's remainder differs from the dividend by a multiple of the divisor, has the sign of the dividend and a magnitude below the divisor |
| Rotation.RotationIndex | NebulaWhisper/ContentView.swift:41 | for every ordinal from 1 on, the index lies in 0 .. 119 |
| Rotation.NoteIndex | NebulaWhisper/ContentView.swift:40-41 | the index is always below 120, and a missing ordinal (`?? 1`) gives index 0 |
| Rotation.RotationPeriodic | NebulaWhisper/ContentView.swift:41 | ordinals d and d + 120 give the same index |
| Rotation.RotationStep | NebulaWhisper/ContentView.swift:41 | the index of the next ordinal is the index plus one, modulo 120 |
| Rotation.RotationScenarios | NebulaWhisper/ContentView.swift:40-42 | ordinal 1, ordinal 121 and a missing ordinal select `note_001`, and ordinal 120 selects `note_120` |
| Rotation.NewYearNote | NebulaWhisper/ContentView.swift:39-43 | every 1 January gets the text of `note_001` |
| Rotation.NextDayIndex | NebulaWhisper/ContentView.swift:39-43 | from one day to the next, the index advances by one modulo 120, and it restarts at 0 on 1 January |
| Rotation.NotePeriodic | NebulaWhisper/ContentView.swift:39-43 | days whose ordinals differ by 120 get the same note |
| Window.ReadThrough | NebulaWhisper/ContentView.swift:45-54 | on a hit: the stored value, with the store unchanged; on a miss: the computed note, stored under the key; no other key is added or changed |
| Window.ReadThroughTwice | NebulaWhisper/ContentView.swift:45-54 | a second lookup returns the first lookup's note and writes nothing |
| Window.WindowKeys | NebulaWhisper/ContentView.swift:75-77 | the key of every existing day in the window is in the set |
| Window.WindowKeysExact | NebulaWhisper/ContentView.swift:75-77 | a key is in the window's set exactly when it is the key of some day in the window |
| Window.SeedStepEffect | NebulaWhisper/ContentView.swift:76-82 | one pass adds at most its own day's key, keeps every entry, and gives a new key its day's note |
| Window.FreshWindowKey | NebulaWhisper/ContentView.swift:75-77 | with injective keys, the key of offset k is not among the keys of offsets 0 .. k - 1 |
| Window.SeedStepPreserves | NebulaWhisper/ContentView.swift:74-84 | the pass for offset k carries the seeding invariant from k to k + 1 |
| Window.SeedUpToEffect | NebulaWhisper/ContentView.swift:74-84 | after k passes the keys are the old ones plus the window's; old entries are kept; a key written now holds its own day's note |
| Window.SeedUpToComplete | NebulaWhisper/ContentView.swift:78 | when every window key is already stored, seeding writes nothing |
| Window.SeededEffect | NebulaWhisper/ContentView.swift:74-84 | after seeding every window day's key is present; the keys are the old ones plus the window's, so keys outside the window are untouched; present entries keep their value; new ones hold `resolve(noteKeys[(dayOfYear - 1) % 120])` of their day |
| Window.SeededIdempotent | NebulaWhisper/ContentView.swift:78 | seeding twice on the same day leaves the same store as seeding once |
| Window.SeededTodayCached | NebulaWhisper/ContentView.swift:45-48 | after seeding, `todaysNote` finds today's key and writes nothing |
| Window.SeedKeepsTodaysNote | NebulaWhisper/ContentView.swift:78 | seeding after `todaysNote` keeps the note that was shown |
| Window.HistoryUpTo | NebulaWhisper/ContentView.swift:66-71 | one record per existing day, today first; record i holds day today - i's label and its stored note or `—` |
| Window.HistoryAfterSeeding | NebulaWhisper/ContentView.swift:62-72 | after seeding there are seven records (from the seventh calendar day on), and each holds its day's label and the stored note of that day |
| Window.NoPlaceholderAfterSeeding | NebulaWhisper/ContentView.swift:69 | if no window day's stored value or note is `—`, no record after seeding is `—` |
| Window.FirstLaunch | NebulaWhisper/ContentView.swift:62-84 | on an empty store, seeding and then `last7` list the seven days, today first, each with its own note |
| DailyNotes.StorageKeysInjective | NebulaWhisper/ContentView.swift:46 | the app's store-key function is injective |
| DailyNotes.FirstLaunchHistory | NebulaWhisper/ContentView.swift:62-84 | on an empty store the app's history after seeding is the seven days with their rotation notes |
| DailyNotes.TodaysNoteTwoReadings | NebulaWhisper/ContentView.swift:45-54 | with the clock read once for the key and once for the note, a miss stores the second reading's note under the first reading's key |
| DailyNotes.MidnightMismatch | NebulaWhisper/ContentView.swift:45-54 | when those readings straddle a midnight within a year, the stored note is not the key day's own note |
| DailyNotes.NoteStore.constructor | NebulaWhisper/ContentView.swift:13 | the store starts as the persisted entries |
| DailyNotes.NoteStore.LocalizedNote | NebulaWhisper/ContentView.swift:42 | the text of table entry `index` is the localized text of its identifier |
| DailyNotes.NoteStore.TodaysNote | NebulaWhisper/ContentView.swift:45-54 | a hit returns the stored value and leaves the store unchanged; a miss returns today's rotation note and adds only that entry; the result equals `ReadThrough` on the old store |
| DailyNotes.NoteStore.SeedLast7IfNeeded | NebulaWhisper/ContentView.swift:74-84 | the new store is `Seeded` of the old one, with the app's keys and notes |
| DailyNotes.NoteStore.SeedDay | NebulaWhisper/ContentView.swift:76-82 | one loop pass leaves the store as `SeedStep` describes |
| DailyNotes.NoteStore.Last7 | NebulaWhisper/ContentView.swift:62-72 | seven records (fewer only in the calendar's first six days); record i holds day today - i's label and the stored note, or `—` when the key is absent; it reads the store and writes nothing |

## Left out

- The SwiftUI view, its animations, colours and the `clamp` layout helper: presentation over floating point.
- `todaysDateText` and the `.medium` labels in `last7`: locale-dependent display text, kept as the parameter `dateLabel`.
- `NSLocalizedString`: a lookup into the app bundle, kept as the parameter `resolve`.
- The clock, `TimeZone.current` and the instant-to-day conversion: a reading is given as its local day number, so two instants on the same local day have the same key by construction.
- `Calendar.current`: assumed to be Gregorian, like the formatter's fixed calendar. Other calendars would give other ordinals.
- Days before 0001-01-01: `DaysAgo` has no date there, in place of the calendar's BC dates.
- Gregorian.ToCivil, Gregorian.DayOfYear and DateKeys.DayKey: the model's calendar is proleptic Gregorian, while Foundation's `.gregorian` calendar follows the Julian calendar before 1582-10-15 (so 1582 has 355 days there). For days before 1582-10-15 the model gives other dates, ordinals and keys than the app would. A real clock never reads such a day.
- UserDefaults values that are not strings, write failures and other processes sharing the store: the store is a `map<string, string>`.
- Each clock reading in `seedLast7IfNeeded` and `last7` (lines 67 and 76) is taken to be the same `today`; the consequence of the two readings in `todaysNote` is stated under Findings.
- Rotation.RotationIndex: fixed to the table size 120 rather than `noteKeys.count` in general; the table's size is a constant in the source.
- Rotation.NoteIndex: requires an ordinal of at least 1. A negative index would trap in Swift, and `Calendar.ordinality` never gives one.
- NotificationManager, the onboarding gate and the onboarding and prompt views: they are not part of the daily-note engine.

## Findings

| source | as written | input that shows it | evidently intended | confidence | as-written member | corrected member |
|---|---|---|---|---|---|---|
| NebulaWhisper/ContentView.swift:45-54 | `todaysNote` reads the clock once for the key (`todayKey`) and again for the note (`computedNoteForToday`) | on an empty store the two readings straddle midnight, e.g. 2025-03-10 23:59:59.999 and 2025-03-11 00:00:00.000: the note of 03-11 is stored under `note.2025-03-10` | the key day's own rotation note is stored under its key | medium, not executed | DailyNotes.MidnightMismatch | DailyNotes.NoteStore.TodaysNote |
