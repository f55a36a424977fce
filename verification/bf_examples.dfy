/**
  Worked cases of toBfData: run compaction on a small table, and the table
  holding the largest code, where the 32-bit successor of toBfData loses the
  only run.
 */
module BfExamples {
  import opened CMapTypes
  import opened BfData
  import opened CMapText
  import opened Digits

  /** {1:'a', 2:'b', 3:'c', 10:'z'}: one bfchar entry for code 10, one bfrange entry for codes 1 to 3. */
  lemma CompactionExample()
    ensures var t: map<CharCode, Rune> := map[1 := 0x61, 2 := 0x62, 3 := 0x63, 10 := 0x7A];
      ToBfBlocks(t) == [CharBlock([BfChar(10, 0x7A)]), RangeBlock([BfRange(1, 3, 0x61)])]
  {
    var t: map<CharCode, Rune> := map[1 := 0x61, 2 := 0x62, 3 := 0x63, 10 := 0x7A];
    CompactionCodes(t);
    CompactionRuns();
    CompactionEntries(t);
    OneBlockEach([CharRange(1, 4), CharRange(10, 11)], t, BfChar(10, 0x7A), BfRange(1, 3, 0x61));
  }

  lemma CompactionCodes(t: map<CharCode, Rune>)
    requires t == map[1 := 0x61, 2 := 0x62, 3 := 0x63, 10 := 0x7A]
    ensures SortedCodes(t.Keys) == [1, 2, 3, 10]
  {
    var codes := [1, 2, 3, 10];
    assert forall c :: c in codes <==> c in t.Keys;
    SortedCodesOf(t.Keys, codes);
  }

  /** One bfchar entry and one bfrange entry make one block of each kind. */
  lemma OneBlockEach(runs: seq<CharRange>, t: map<CharCode, Rune>, c: BfEntry, r: BfEntry)
    requires CharEntries(runs, t) == [c] && RangeEntries(runs, t) == [r]
    ensures BlocksOf(runs, t) == [CharBlock([c]), RangeBlock([r])]
  {
    assert Chunks([c]) == [[c]] && Chunks([r]) == [[r]];
  }

  lemma CompactionRuns()
    ensures Runs([1, 2, 3, 10]) == [CharRange(1, 4), CharRange(10, 11)]
  {
    var codes := [1, 2, 3, 10];
    assert codes[1..] == [2, 3, 10] && [2, 3, 10][1..] == [3, 10] && [3, 10][1..] == [10] && [10][1..] == [];
  }

  lemma CompactionEntries(t: map<CharCode, Rune>)
    requires t == map[1 := 0x61, 2 := 0x62, 3 := 0x63, 10 := 0x7A]
    ensures CharEntries([CharRange(1, 4), CharRange(10, 11)], t) == [BfChar(10, 0x7A)]
    ensures RangeEntries([CharRange(1, 4), CharRange(10, 11)], t) == [BfRange(1, 3, 0x61)]
  {
    var runs := [CharRange(1, 4), CharRange(10, 11)];
    assert runs[1..] == [CharRange(10, 11)] && runs[1..][1..] == [];
    assert Dst(t, 10) == 0x7A && Dst(t, 1) == 0x61;
    assert !IsSingle(runs[0]) && IsSingle(runs[1]);
    assert CharEntries(runs[1..], t) == [BfChar(10, 0x7A)];
    assert RangeEntries(runs[1..], t) == [];
  }

  /**
    The table {0xFFFFFFFF: 'A'}: the exact run detection gives one bfchar
    entry, which the body reads back as; toBfData as written computes the end
    of the run as 0xFFFFFFFF + 1, which wraps to 0, drops the run and writes an
    empty body, which reads back as no entry at all.
   */
  lemma LargestCodeExample()
    ensures var t: map<CharCode, Rune> := map[0xFFFF_FFFF := 0x41];
      && ToBfBlocks(t) == [CharBlock([BfChar(0xFFFF_FFFF, 0x41)])]
      && ReadBfData(ToBfData(t)) == Some([CharBlock([BfChar(0xFFFF_FFFF, 0x41)])])
      && ToBfBlocksAsWritten(t) == []
      && ToBfDataAsWritten(t) == []
  {
    var t: map<CharCode, Rune> := map[0xFFFF_FFFF := 0x41];
    var codes := [0xFFFF_FFFF];
    assert forall c :: c in codes <==> c in t.Keys;
    SortedCodesOf(t.Keys, codes);
    assert codes[1..] == [];
    assert Runs(codes) == [CharRange(0xFFFF_FFFF, 0x1_0000_0000)];
    assert RunsAsWritten(codes) == [];
    var runs := [CharRange(0xFFFF_FFFF, 0x1_0000_0000)];
    assert runs[1..] == [];
    assert CharEntries(runs, t) == [BfChar(0xFFFF_FFFF, 0x41)];
    assert RangeEntries(runs, t) == [];
    ToBfDataRoundTrip(t);
  }

  /**
    The bytes of the whole ToUnicode CMap for {0xFFFFFFFF: 'A'}: the corrected
    serializer's bytes read back as the one bfchar entry, while the bytes the
    code writes read back as no entry at all.
   */
  lemma LargestCodeBytes()
    ensures var t: map<CharCode, Rune> := map[0xFFFF_FFFF := 0x41];
      && ReadToUnicode(Bytes(t)) == Some([CharBlock([BfChar(0xFFFF_FFFF, 0x41)])])
      && ReadToUnicode(BytesAsWritten(t)) == Some([])
  {
    var t: map<CharCode, Rune> := map[0xFFFF_FFFF := 0x41];
    LargestCodeExample();
    BytesRoundTrip(t);
    Join3(Header, ToBfDataAsWritten(t), Trailer, '\n');
    ReadWrapped(ToBfDataAsWritten(t));
    ToBfDataRoundTrip(map[]);
  }

  /** `%04x` pads with zeros to four characters, and the minus sign of a negative value is one of them. */
  lemma Hex04Examples()
    ensures Hex04(10) == "000a"
    ensures Hex04(-1) == "-001"
  {
    assert DigitsOf(10, 16) == [10];
    var ds: seq<nat> := [0, 0, 0, 10];
    assert ZeroPad([10], 4) == ds;
    assert Render(ds) == "000a";
    assert DigitsOf(1, 16) == [1];
    var ns: seq<nat> := [0, 0, 1];
    assert ZeroPad([1], 3) == ns;
    assert Render(ns) == "001";
  }
}
