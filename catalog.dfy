/** The content table: the identifiers `note_001` .. `note_120` that the
    localization lookup turns into note texts. */
module Catalog {
  import opened Decimal

  /** Size of the content table. */
  const NoteCount: nat := 120

  const NotePrefix: string := "note_"

  /** Identifier of table entry i (zero-based): "note_" and i + 1 as `%03d`. */
  function NoteKey(i: nat): string {
    NotePrefix + Padded(i + 1, 3)
  }

  /** The table `(1...120).map { String(format: "note_%03d", $0) }`. */
  function NoteKeys(): (keys: seq<string>)
    ensures |keys| == NoteCount
  {
    seq(NoteCount, i requires 0 <= i => NoteKey(i))
  }

  /** Every identifier is "note_" followed by exactly three digits that spell
      its one-based position. */
  lemma NoteKeyShape(i: nat)
    requires i < NoteCount
    ensures |NoteKey(i)| == 8
    ensures NoteKey(i)[..5] == "note_"
    ensures AllDigits(NoteKey(i)[5..]) && Value(NoteKey(i)[5..]) == i + 1
  {
    PaddedWidth(i + 1, 3);
    ValueOfPadded(i + 1, 3);
    assert NoteKey(i)[5..] == Padded(i + 1, 3);
  }

  /** The table has exactly 120 entries, entry i is the identifier of i,
      and no identifier occurs twice. */
  lemma NoteKeysTable()
    ensures |NoteKeys()| == 120
    ensures forall i :: 0 <= i < 120 ==> NoteKeys()[i] == NoteKey(i)
    ensures forall i, j :: 0 <= i < j < 120 ==> NoteKeys()[i] != NoteKeys()[j]
  {
    forall i, j | 0 <= i < j < 120
      ensures NoteKeys()[i] != NoteKeys()[j]
    {
      NoteKeyShape(i);
      NoteKeyShape(j);
    }
  }

  lemma FirstAndLastKeys()
    ensures NoteKeys()[0] == "note_001"
    ensures NoteKeys()[119] == "note_120"
  {
    assert Digits(1) == "1";
    assert Digits(12) == Digits(1) + "2";
    assert Digits(120) == Digits(12) + "0";
  }
}
