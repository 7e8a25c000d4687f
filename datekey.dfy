/** The date key codec: the `yyyy-MM-dd` rendering of a day under a fixed
    Gregorian calendar with the en_US_POSIX locale, and the store key
    "note." + date key under which that day's note is kept. */
module DateKeys {
  import opened Wrappers
  import opened Decimal
  import opened Gregorian

  const StoragePrefix: string := "note."

  /** `yyyy-MM-dd`: the year with at least four digits, month and day with two. */
  function FormatCivil(c: Civil): string
    requires Valid(c)
  {
    Padded(c.year as nat, 4) + "-" + Padded(c.month as nat, 2) + "-" + Padded(c.day as nat, 2)
  }

  /** `dayKey(for:)` and `todayKey`. */
  function DayKey(d: Day): string {
    FormatCivil(ToCivil(d))
  }

  /** The store key of a day's note. */
  function StorageKey(d: Day): string {
    StoragePrefix + DayKey(d)
  }

  /** Reads a `yyyy-MM-dd` key back, splitting it from the right so that
      years of more than four digits are read as well. */
  function ParseKey(s: string): (r: Option<Civil>)
    ensures r.Some? ==> |s| >= 10
  {
    var n := |s|;
    if n >= 10 && s[n - 3] == '-' && s[n - 6] == '-'
       && AllDigits(s[..n - 6]) && AllDigits(s[n - 5..n - 3]) && AllDigits(s[n - 2..])
    then
      var c := Civil(Value(s[..n - 6]), Value(s[n - 5..n - 3]), Value(s[n - 2..]));
      if Valid(c) then Some(c) else None
    else None
  }

  lemma {:induction false} FormatParts(c: Civil)
    requires Valid(c)
    ensures var s, n := FormatCivil(c), |FormatCivil(c)|;
      && n >= 10 && s[n - 3] == '-' && s[n - 6] == '-'
      && s[..n - 6] == Padded(c.year as nat, 4)
      && s[n - 5..n - 3] == Padded(c.month as nat, 2)
      && s[n - 2..] == Padded(c.day as nat, 2)
  {
    assert Pow10(2) == 100;
    PaddedWidth(c.month as nat, 2);
    PaddedWidth(c.day as nat, 2);
  }

  /** Parsing a rendered date gives the date back. */
  lemma ParseFormat(c: Civil)
    requires Valid(c)
    ensures ParseKey(FormatCivil(c)) == Some(c)
  {
    FormatParts(c);
    ValueOfPadded(c.year as nat, 4);
    ValueOfPadded(c.month as nat, 2);
    ValueOfPadded(c.day as nat, 2);
  }

  /** For the years 1 to 9999 a key is ten characters, `yyyy-MM-dd`, with
      digits everywhere but the two dashes. */
  lemma KeyShape(d: Day)
    requires ToCivil(d).year <= 9999
    ensures |DayKey(d)| == 10
    ensures DayKey(d)[4] == '-' && DayKey(d)[7] == '-'
    ensures forall i :: 0 <= i < 10 && i != 4 && i != 7 ==> IsDigit(DayKey(d)[i])
  {
    assert Pow10(4) == 10000;
    PaddedWidth(ToCivil(d).year as nat, 4);
    FormatParts(ToCivil(d));
  }

  /** Two days have the same key exactly when they are the same day. */
  lemma DayKeyInjective(d1: Day, d2: Day)
    ensures DayKey(d1) == DayKey(d2) <==> d1 == d2
  {
    if DayKey(d1) == DayKey(d2) {
      ParseFormat(ToCivil(d1));
      ParseFormat(ToCivil(d2));
    }
  }

  lemma StorageKeyInjective(d1: Day, d2: Day)
    ensures StorageKey(d1) == StorageKey(d2) <==> d1 == d2
  {
    if StorageKey(d1) == StorageKey(d2) {
      assert DayKey(d1) == StorageKey(d1)[|StoragePrefix|..];
      assert DayKey(d2) == StorageKey(d2)[|StoragePrefix|..];
      DayKeyInjective(d1, d2);
    }
  }
}
