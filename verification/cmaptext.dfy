/**
  The CMap text of toBfData and Bytes: each bfchar or bfrange entry on a line
  of `%04x` numerals in angle brackets, each block framed by its count and its
  begin/end operators, the lines joined by newlines, and the whole wrapped in
  the fixed header and trailer of the Adobe-Identity-UCS CMap. A reader for
  that text is the partner that the round-trip lemmas run against.
 */
module CMapText {
  import opened CMapTypes
  import opened Digits
  import opened BfData
  import opened Utf8

  // ----- Lines -----

  /** A `%04x` numeral in angle brackets. */
  function Field(v: int): string
  {
    "<" + Hex04(v) + ">"
  }

  /** One entry as toBfData writes it: `<code> <rune>` or `<low><high> <rune>`. */
  function EntryLine(e: BfEntry): string
  {
    match e
    case BfChar(code, dst) => Field(code) + " " + Field(dst)
    case BfRange(low, high, dst) => Field(low) + Field(high) + " " + Field(dst)
  }

  function BeginWord(isChar: bool): string
  {
    if isChar then "beginbfchar" else "beginbfrange"
  }

  function EndWord(isChar: bool): string
  {
    if isChar then "endbfchar" else "endbfrange"
  }

  /** The first line of a block of n entries: `n beginbfchar` or `n beginbfrange`. */
  function HeaderLine(n: nat, isChar: bool): string
  {
    Decimal(n) + " " + BeginWord(isChar)
  }

  /** One line per entry. */
  function EntryLines(es: seq<BfEntry>): (lines: seq<string>)
    ensures |lines| == |es|
  {
    if es == [] then [] else [EntryLine(es[0])] + EntryLines(es[1..])
  }

  /** The lines of one block: its header line, its entry lines, `endbfchar` or `endbfrange`. */
  function BlockLines(b: BfBlock): seq<string>
  {
    [HeaderLine(|b.entries|, b.CharBlock?)] + EntryLines(b.entries) + [EndWord(b.CharBlock?)]
  }

  /** The lines of all blocks, in order. */
  function BodyLines(blocks: seq<BfBlock>): seq<string>
  {
    if blocks == [] then [] else BlockLines(blocks[0]) + BodyLines(blocks[1..])
  }

  /** strings.Join: the lines with `sep` between neighbours; "" for no lines. */
  function Join(lines: seq<string>, sep: char): string
  {
    if lines == [] then []
    else if |lines| == 1 then lines[0]
    else lines[0] + [sep] + Join(lines[1..], sep)
  }

  /** strings.Split: the pieces of `s` between occurrences of `sep`; always at least one piece. */
  function Split(s: string, sep: char): (pieces: seq<string>)
    ensures pieces != []
  {
    if s == [] then [[]]
    else if s[0] == sep then [[]] + Split(s[1..], sep)
    else
      var rest := Split(s[1..], sep);
      [[s[0]] + rest[0]] + rest[1..]
  }

  /**
    The body toBfData is meant to write for a table, "" for an empty table.
    This is the corrected serializer: its runs are found over unbounded
    integers, so a table holding code 0xFFFFFFFF keeps its last run.
    ToBfDataAsWritten is the code as written.
   */
  function ToBfData(t: map<CharCode, Rune>): string
  {
    Join(BodyLines(ToBfBlocks(t)), '\n')
  }

  /** The body toBfData writes as the code stands, with 32-bit run detection. */
  function ToBfDataAsWritten(t: map<CharCode, Rune>): string
  {
    Join(BodyLines(ToBfBlocksAsWritten(t)), '\n')
  }

  // ----- Reading the text back -----

  /** The text before the first `ch` in `s`, and the text after it. */
  function SplitAt(s: string, ch: char): Option<(string, string)>
  {
    if s == [] then None
    else if s[0] == ch then Some(([], s[1..]))
    else
      match SplitAt(s[1..], ch)
      case Some(p) => Some(([s[0]] + p.0, p.1))
      case None => None
  }

  /** A `<hex>` field at the start of `s`: its value and the text after it. */
  function ReadField(s: string): Option<(int, string)>
  {
    if s == [] || s[0] != '<' then None
    else
      match SplitAt(s[1..], '>')
      case None => None
      case Some(p) =>
        match ReadHex(p.0)
        case Some(v) => Some((v, p.1))
        case None => None
  }

  predicate IsRune(v: int)
  {
    -0x8000_0000 <= v < 0x8000_0000
  }

  /** The last field of an entry line, ` <rune>`, when the value is a rune and nothing follows. */
  function ReadLastRune(s: string): Option<Rune>
  {
    if s == [] || s[0] != ' ' then None
    else
      match ReadField(s[1..])
      case Some(f) => if f.1 == [] && IsRune(f.0) then Some(f.0 as Rune) else None
      case None => None
  }

  /** Reads one entry line of a bfchar block (`isChar`) or of a bfrange block. */
  function ReadEntryLine(line: string, isChar: bool): Option<BfEntry>
  {
    match ReadField(line)
    case None => None
    case Some(f1) =>
      if isChar then
        match ReadLastRune(f1.1)
        case Some(r) => Some(BfChar(f1.0, r))
        case None => None
      else
        match ReadField(f1.1)
        case None => None
        case Some(f2) =>
          match ReadLastRune(f2.1)
          case Some(r) => Some(BfRange(f1.0, f2.0, r))
          case None => None
  }

  /** Reads a run of entry lines of one kind. */
  function ReadEntries(lines: seq<string>, isChar: bool): Option<seq<BfEntry>>
  {
    if lines == [] then Some([])
    else
      match (ReadEntryLine(lines[0], isChar), ReadEntries(lines[1..], isChar))
      case (Some(e), Some(es)) => Some([e] + es)
      case _ => None
  }

  /** Reads a block's first line: its entry count, and whether it opens a bfchar block. */
  function ReadHeader(line: string): Option<(nat, bool)>
  {
    match SplitAt(line, ' ')
    case None => None
    case Some(p) =>
      if p.1 != BeginWord(true) && p.1 != BeginWord(false) then None
      else
        match ReadNumber(p.0, 10)
        case Some(n) => Some((n, p.1 == BeginWord(true)))
        case None => None
  }

  /**
    Reads the block at the start of `lines`: its count line, that many entry
    lines and its end line. Gives the block and the number of lines it takes.
   */
  function ReadBlock(lines: seq<string>): (r: Option<(BfBlock, nat)>)
    ensures r.Some? ==> 2 <= r.value.1 <= |lines|
  {
    if lines == [] then None
    else
      match ReadHeader(lines[0])
      case None => None
      case Some(h) =>
        var n, isChar := h.0, h.1;
        if |lines| < n + 2 || lines[n + 1] != EndWord(isChar) then None
        else
          match ReadEntries(lines[1..n + 1], isChar)
          case Some(es) => Some((if isChar then CharBlock(es) else RangeBlock(es), n + 2))
          case None => None
  }

  /** Reads blocks of bfchar and bfrange entries, one after the other, until the lines run out. */
  function ReadBlocks(lines: seq<string>): Option<seq<BfBlock>>
    decreases |lines|
  {
    if lines == [] then Some([])
    else
      match ReadBlock(lines)
      case None => None
      case Some(p) =>
        match ReadBlocks(lines[p.1..])
        case Some(bs) => Some([p.0] + bs)
        case None => None
  }

  /** Reads the body of a ToUnicode CMap back into blocks; the empty body has none. */
  function ReadBfData(text: string): Option<seq<BfBlock>>
  {
    if text == [] then Some([]) else ReadBlocks(Split(text, '\n'))
  }

  // ----- Round trip of the body -----

  lemma {:induction false} SplitAtConcat(a: string, ch: char, b: string)
    requires ch !in a
    ensures SplitAt(a + [ch] + b, ch) == Some((a, b))
  {
    if a != [] {
      assert (a + [ch] + b)[1..] == a[1..] + [ch] + b;
      SplitAtConcat(a[1..], ch, b);
      assert [a[0]] + a[1..] == a;
    }
  }

  /** A `%04x` numeral holds no bracket, space or newline, only printable ASCII. */
  lemma Hex04Plain(v: int)
    ensures '>' !in Hex04(v) && ' ' !in Hex04(v) && Hex04(v) != [] && Printable(Hex04(v))
  {
    Hex04Chars(v);
  }

  lemma {:induction false} ReadFieldHex(v: int, rest: string)
    ensures ReadField(Field(v) + rest) == Some((v, rest))
  {
    var s := Field(v) + rest;
    Hex04Plain(v);
    assert s[1..] == Hex04(v) + ['>'] + rest;
    SplitAtConcat(Hex04(v), '>', rest);
    Hex04RoundTrip(v);
  }

  lemma {:induction false} ReadLastRuneHex(r: Rune)
    ensures ReadLastRune(" " + Field(r)) == Some(r)
  {
    var s := " " + Field(r);
    assert s[1..] == Field(r) + [];
    ReadFieldHex(r, []);
  }

  /** Each entry line reads back as its entry, in a block of its kind. */
  lemma {:induction false} EntryLineRoundTrip(e: BfEntry)
    ensures ReadEntryLine(EntryLine(e), e.BfChar?) == Some(e)
  {
    match e
    case BfChar(code, dst) => CharLineRoundTrip(code, dst);
    case BfRange(low, high, dst) => RangeLineRoundTrip(low, high, dst);
  }

  lemma {:induction false} CharLineRoundTrip(code: int, dst: Rune)
    ensures ReadEntryLine(Field(code) + " " + Field(dst), true) == Some(BfChar(code, dst))
  {
    var tail := " " + Field(dst);
    assert Field(code) + " " + Field(dst) == Field(code) + tail;
    ReadFieldHex(code, tail);
    ReadLastRuneHex(dst);
  }

  lemma {:induction false} RangeLineRoundTrip(low: int, high: int, dst: Rune)
    ensures ReadEntryLine(Field(low) + Field(high) + " " + Field(dst), false) == Some(BfRange(low, high, dst))
  {
    var tail2 := " " + Field(dst);
    var tail1 := Field(high) + tail2;
    Assoc(Field(low), Field(high), " ", Field(dst));
    ReadFieldHex(low, tail1);
    ReadFieldHex(high, tail2);
    ReadLastRuneHex(dst);
  }

  lemma Assoc(a: string, b: string, c: string, d: string)
    ensures a + b + c + d == a + (b + (c + d))
  {
  }

  /** Every entry of a block is of the block's kind. */
  predicate WellKinded(blocks: seq<BfBlock>)
  {
    forall i, e :: 0 <= i < |blocks| && e in blocks[i].entries ==> (e.BfChar? <==> blocks[i].CharBlock?)
  }

  lemma {:induction false} ReadEntriesRoundTrip(es: seq<BfEntry>, isChar: bool)
    requires forall e :: e in es ==> e.BfChar? == isChar
    ensures ReadEntries(EntryLines(es), isChar) == Some(es)
  {
    if es != [] {
      var tail := es[1..];
      assert forall e :: e in tail ==> e in es;
      ReadEntriesRoundTrip(tail, isChar);
      EntryLineRoundTrip(es[0]);
      EntryLinesCons(es);
      ReadEntriesCons(EntryLines(es), isChar, es[0], tail);
    }
  }

  lemma EntryLinesCons(es: seq<BfEntry>)
    requires es != []
    ensures EntryLines(es) != [] && EntryLines(es)[0] == EntryLine(es[0]) && EntryLines(es)[1..] == EntryLines(es[1..])
    ensures es == [es[0]] + es[1..]
  {
  }

  /** One unfolding of ReadEntries. */
  lemma ReadEntriesCons(lines: seq<string>, isChar: bool, e: BfEntry, es: seq<BfEntry>)
    requires lines != [] && ReadEntryLine(lines[0], isChar) == Some(e)
    requires ReadEntries(lines[1..], isChar) == Some(es)
    ensures ReadEntries(lines, isChar) == Some([e] + es)
  {
  }

  lemma {:induction false} ReadHeaderRoundTrip(n: nat, isChar: bool)
    ensures ReadHeader(HeaderLine(n, isChar)) == Some((n, isChar))
  {
    DigitsOfValue(n, 10);
    DecimalChars(n);
    SplitAtConcat(Decimal(n), ' ', BeginWord(isChar));
    DecimalRoundTrip(n);
  }

  lemma DecimalChars(n: nat)
    ensures ' ' !in Decimal(n) && Decimal(n) != [] && Printable(Decimal(n))
  {
    DigitsOfValue(n, 10);
    var ds := DigitsOf(n, 10);
    forall i | 0 <= i < |ds|
      ensures IsDigitChar(Decimal(n)[i])
    {
      DigitCharInverse(ds[i]);
    }
  }

  /** The lines of well-kinded blocks read back as those blocks. */
  lemma {:induction false} ReadBlocksRoundTrip(blocks: seq<BfBlock>)
    requires WellKinded(blocks)
    ensures ReadBlocks(BodyLines(blocks)) == Some(blocks)
  {
    if blocks != [] {
      WellKindedSplit(blocks);
      ReadBlocksRoundTrip(blocks[1..]);
      ReadBlockStep(blocks[0], BodyLines(blocks[1..]), blocks[1..]);
      assert BodyLines(blocks) == BlockLines(blocks[0]) + BodyLines(blocks[1..]);
      assert blocks == [blocks[0]] + blocks[1..];
    }
  }

  /** The head block's entries are of its kind, and the tail is well kinded. */
  lemma {:induction false} WellKindedSplit(blocks: seq<BfBlock>)
    requires WellKinded(blocks) && blocks != []
    ensures forall e :: e in blocks[0].entries ==> e.BfChar? == blocks[0].CharBlock?
    ensures WellKinded(blocks[1..])
  {
    forall i, e | 0 <= i < |blocks[1..]| && e in blocks[1..][i].entries
      ensures e.BfChar? <==> blocks[1..][i].CharBlock?
    {
      assert blocks[1..][i] == blocks[i + 1];
    }
  }

  /** The lines of a block followed by lines that read back as blocks read back as that block in front. */
  lemma {:induction false} ReadBlockStep(b: BfBlock, rest: seq<string>, bs: seq<BfBlock>)
    requires forall e :: e in b.entries ==> e.BfChar? == b.CharBlock?
    requires ReadBlocks(rest) == Some(bs)
    ensures ReadBlocks(BlockLines(b) + rest) == Some([b] + bs)
  {
    var n := |b.entries|;
    var isChar := b.CharBlock?;
    ReadHeaderRoundTrip(n, isChar);
    ReadEntriesRoundTrip(b.entries, isChar);
    FrameParts(HeaderLine(n, isChar), EntryLines(b.entries), EndWord(isChar), rest);
    ReadBlocksCons(BlockLines(b) + rest, n, isChar, b.entries, bs);
    assert b == if isChar then CharBlock(b.entries) else RangeBlock(b.entries);
  }

  /** One unfolding of ReadBlocks: a well-framed first block in front of lines that read back. */
  lemma ReadBlocksCons(lines: seq<string>, n: nat, isChar: bool, es: seq<BfEntry>, bs: seq<BfBlock>)
    requires lines != [] && ReadHeader(lines[0]) == Some((n, isChar))
    requires n + 2 <= |lines| && lines[n + 1] == EndWord(isChar)
    requires ReadEntries(lines[1..n + 1], isChar) == Some(es)
    requires ReadBlocks(lines[n + 2..]) == Some(bs)
    ensures ReadBlocks(lines) == Some([if isChar then CharBlock(es) else RangeBlock(es)] + bs)
  {
    ReadBlockFrame(lines, n, isChar, es);
    ReadBlocksThen(lines, if isChar then CharBlock(es) else RangeBlock(es), n + 2, bs);
  }

  lemma ReadBlockFrame(lines: seq<string>, n: nat, isChar: bool, es: seq<BfEntry>)
    requires lines != [] && ReadHeader(lines[0]) == Some((n, isChar))
    requires n + 2 <= |lines| && lines[n + 1] == EndWord(isChar)
    requires ReadEntries(lines[1..n + 1], isChar) == Some(es)
    ensures ReadBlock(lines) == Some((if isChar then CharBlock(es) else RangeBlock(es), n + 2))
  {
  }

  lemma ReadBlocksThen(lines: seq<string>, b: BfBlock, k: nat, bs: seq<BfBlock>)
    requires ReadBlock(lines) == Some((b, k)) && k <= |lines|
    requires ReadBlocks(lines[k..]) == Some(bs)
    ensures ReadBlocks(lines) == Some([b] + bs)
  {
  }

  /** The parts of a framed block of lines followed by more lines. */
  lemma {:induction false} FrameParts(head: string, mid: seq<string>, end: string, rest: seq<string>)
    ensures var lines := [head] + mid + [end] + rest;
      && lines[0] == head && lines[|mid| + 1] == end
      && lines[1..|mid| + 1] == mid && lines[|mid| + 2..] == rest
  {
  }

  // ----- Lines joined and split -----

  /** Every character is printable ASCII, from the space to the tilde: in particular no newline. */
  predicate Printable(s: string)
  {
    forall i :: 0 <= i < |s| ==> ' ' <= s[i] <= '~'
  }

  lemma PrintableAppend(a: string, b: string)
    requires Printable(a) && Printable(b)
    ensures Printable(a + b)
  {
    forall i | 0 <= i < |a + b|
      ensures ' ' <= (a + b)[i] <= '~'
    {
      if i >= |a| {
        assert (a + b)[i] == b[i - |a|];
      }
    }
  }

  lemma FieldPrintable(v: int)
    ensures Printable(Field(v))
  {
    Hex04Plain(v);
    PrintableAppend("<", Hex04(v));
    PrintableAppend("<" + Hex04(v), ">");
  }

  lemma EntryLinePrintable(e: BfEntry)
    ensures Printable(EntryLine(e))
  {
    match e
    case BfChar(code, dst) =>
      FieldPrintable(code);
      FieldPrintable(dst);
      PrintableAppend(Field(code), " ");
      PrintableAppend(Field(code) + " ", Field(dst));
    case BfRange(low, high, dst) =>
      FieldPrintable(low);
      FieldPrintable(high);
      FieldPrintable(dst);
      PrintableAppend(Field(low), Field(high));
      PrintableAppend(Field(low) + Field(high), " ");
      PrintableAppend(Field(low) + Field(high) + " ", Field(dst));
  }

  lemma HeaderLinePrintable(n: nat, isChar: bool)
    ensures Printable(HeaderLine(n, isChar)) && HeaderLine(n, isChar) != []
  {
    DecimalChars(n);
    PrintableAppend(Decimal(n), " ");
    PrintableAppend(Decimal(n) + " ", BeginWord(isChar));
  }

  predicate AllPrintable(lines: seq<string>)
  {
    forall i :: 0 <= i < |lines| ==> Printable(lines[i])
  }

  lemma AllPrintableAppend(a: seq<string>, b: seq<string>)
    requires AllPrintable(a) && AllPrintable(b)
    ensures AllPrintable(a + b)
  {
    forall i | 0 <= i < |a + b|
      ensures Printable((a + b)[i])
    {
      if i >= |a| {
        assert (a + b)[i] == b[i - |a|];
      }
    }
  }

  lemma {:induction false} EntryLinesPrintable(es: seq<BfEntry>)
    ensures AllPrintable(EntryLines(es))
  {
    if es != [] {
      EntryLinePrintable(es[0]);
      EntryLinesPrintable(es[1..]);
      AllPrintableAppend([EntryLine(es[0])], EntryLines(es[1..]));
    }
  }

  lemma BlockLinesPrintable(b: BfBlock)
    ensures AllPrintable(BlockLines(b)) && BlockLines(b)[0] != []
  {
    var es := EntryLines(b.entries);
    HeaderLinePrintable(|b.entries|, b.CharBlock?);
    EntryLinesPrintable(b.entries);
    AllPrintableAppend([HeaderLine(|b.entries|, b.CharBlock?)], es);
    AllPrintableAppend([HeaderLine(|b.entries|, b.CharBlock?)] + es, [EndWord(b.CharBlock?)]);
  }

  /** Every line of the body is printable, and the first one is not empty. */
  lemma {:induction false} BodyLinesPrintable(blocks: seq<BfBlock>)
    ensures AllPrintable(BodyLines(blocks))
    ensures blocks != [] ==> BodyLines(blocks) != [] && BodyLines(blocks)[0] != []
  {
    if blocks != [] {
      BodyLinesPrintable(blocks[1..]);
      BlockLinesPrintable(blocks[0]);
      AllPrintableAppend(BlockLines(blocks[0]), BodyLines(blocks[1..]));
    }
  }

  /** A piece without the separator splits into itself. */
  lemma {:induction false} SplitPlain(a: string, sep: char)
    requires sep !in a
    ensures Split(a, sep) == [a]
  {
    if a != [] {
      SplitPlain(a[1..], sep);
      assert [a[0]] + a[1..] == a;
    }
  }

  /** A piece without the separator, the separator, then more: the piece comes off first. */
  lemma {:induction false} SplitConcat(a: string, sep: char, rest: string)
    requires sep !in a
    ensures Split(a + [sep] + rest, sep) == [a] + Split(rest, sep)
  {
    if a == [] {
      assert a + [sep] + rest == [sep] + rest;
    } else {
      assert (a + [sep] + rest)[1..] == a[1..] + [sep] + rest;
      SplitConcat(a[1..], sep, rest);
      assert [a[0]] + a[1..] == a;
    }
  }

  /** Splitting joined lines that hold no separator gives the lines back. */
  lemma {:induction false} SplitJoin(lines: seq<string>, sep: char)
    requires lines != []
    requires forall i :: 0 <= i < |lines| ==> sep !in lines[i]
    ensures Split(Join(lines, sep), sep) == lines
  {
    if |lines| == 1 {
      SplitPlain(lines[0], sep);
    } else {
      SplitJoin(lines[1..], sep);
      SplitConcat(lines[0], sep, Join(lines[1..], sep));
      assert lines == [lines[0]] + lines[1..];
    }
  }

  /** Lines whose first line is not empty join into a text that is not empty. */
  lemma JoinNonEmpty(lines: seq<string>, sep: char)
    requires lines != [] && lines[0] != []
    ensures Join(lines, sep) != []
  {
  }

  lemma PrintableNoNewline(s: string)
    requires Printable(s)
    ensures '\n' !in s
  {
  }

  // ----- Round trip of toBfData -----

  /**
    The body toBfData writes reads back as exactly the blocks of the table:
    counts, begin and end operators, and every entry's numerals.
   */
  lemma {:induction false} ToBfDataRoundTrip(t: map<CharCode, Rune>)
    ensures ReadBfData(ToBfData(t)) == Some(ToBfBlocks(t))
  {
    var blocks := ToBfBlocks(t);
    ToBfBlocksLayout(t);
    assert WellKinded(blocks);
    ReadBlocksRoundTrip(blocks);
    if blocks != [] {
      var lines := BodyLines(blocks);
      BodyLinesPrintable(blocks);
      forall i | 0 <= i < |lines|
        ensures '\n' !in lines[i]
      {
        PrintableNoNewline(lines[i]);
      }
      JoinNonEmpty(lines, '\n');
      SplitJoin(lines, '\n');
    }
  }

  /**
    Reading the body of toBfData back gives an entry for every code of the
    table and for no other code, and the runes it assigns are those of the
    table exactly when neighbouring codes of the table map to neighbouring
    runes.
   */
  lemma {:induction false} ToBfDataReadsBack(t: map<CharCode, Rune>)
    ensures ReadBfData(ToBfData(t)).Some?
    ensures var es := AllEntries(ReadBfData(ToBfData(t)).value);
      && (forall c :: multiset(EntryCodes(es))[c] == if InTable(t, c) then 1 else 0)
      && (Reproduces(es, t) <==> ConsecutiveRunes(t))
  {
    ToBfDataRoundTrip(t);
    forall c
      ensures multiset(EntryCodes(AllEntries(ToBfBlocks(t))))[c] == if InTable(t, c) then 1 else 0
    {
      ToBfBlocksCover(t, c);
    }
    ToBfBlocksRoundTrip(t);
  }

  // ----- The whole ToUnicode CMap -----

  /** The fixed text before the body (cmapHeader); it starts with a newline. */
  const Header: string := "\n/CIDInit /ProcSet findresource begin\n12 dict begin\nbegincmap\n/CIDSystemInfo << /Registry (Adobe) /Ordering (UCS) /Supplement 0 >> def\n/CMapName /Adobe-Identity-UCS def\n/CMapType 2 def\n1 begincodespacerange\n<0000> <FFFF>\nendcodespacerange\n"

  /** The fixed text after the body (cmapTrailer). */
  const Trailer: string := "endcmap\nCMapName currentdict /CMap defineresource pop\nend\nend\n"

  /** The text of Bytes: header, corrected body and trailer joined by newlines. */
  function Text(t: map<CharCode, Rune>): string
  {
    Join([Header, ToBfData(t), Trailer], '\n')
  }

  lemma Join3(a: string, b: string, c: string, sep: char)
    ensures Join([a, b, c], sep) == a + [sep] + b + [sep] + c
  {
    assert [a, b, c][1..] == [b, c];
    assert [b, c][1..] == [c];
    assert Join([c], sep) == c;
    assert Join([b, c], sep) == b + [sep] + c;
  }

  /** Bytes with the corrected body: the ToUnicode CMap text as the bytes of its UTF-8 encoding. */
  function Bytes(t: map<CharCode, Rune>): seq<Byte>
  {
    Encode(Text(t))
  }

  /** Bytes as the code stands: the body comes from the 32-bit run detection. */
  function BytesAsWritten(t: map<CharCode, Rune>): seq<Byte>
  {
    Encode(Join([Header, ToBfDataAsWritten(t), Trailer], '\n'))
  }

  /** Unless the table holds code 0xFFFFFFFF, the code as written writes the same bytes as the corrected one. */
  lemma BytesAsWrittenAgrees(t: map<CharCode, Rune>)
    requires TwoTo32 - 1 !in t
    ensures ToBfDataAsWritten(t) == ToBfData(t)
    ensures BytesAsWritten(t) == Bytes(t)
  {
    BlocksAsWrittenAgree(t);
  }

  /**
    Reads a ToUnicode CMap in the layout Bytes writes: the header and a
    newline, a body, a newline and the trailer; the body is read by ReadBfData.
   */
  function ReadToUnicode(bytes: seq<Byte>): Option<seq<BfBlock>>
  {
    ReadFramed(bytes, Header + "\n", "\n" + Trailer)
  }

  /** Decodes `bytes` and reads the body between the prefix `pre` and the suffix `post`. */
  function ReadFramed(bytes: seq<Byte>, pre: string, post: string): Option<seq<BfBlock>>
  {
    match Decode(bytes)
    case None => None
    case Some(s) =>
      match Unwrap(s, pre, post)
      case Some(body) => ReadBfData(body)
      case None => None
  }

  /** The text between the prefix `pre` and the suffix `post`, if `s` has both. */
  function Unwrap(s: string, pre: string, post: string): Option<string>
  {
    if |s| >= |pre| + |post| && s[..|pre|] == pre && s[|s| - |post|..] == post then
      Some(s[|pre|..|s| - |post|])
    else None
  }

  /** The bytes of a ToUnicode CMap read back as the blocks of its table. */
  lemma {:induction false} BytesRoundTrip(t: map<CharCode, Rune>)
    ensures ReadToUnicode(Bytes(t)) == Some(ToBfBlocks(t))
  {
    Join3(Header, ToBfData(t), Trailer, '\n');
    ReadWrapped(ToBfData(t));
    ToBfDataRoundTrip(t);
  }

  /** Whatever the body, wrapping it in header and trailer and encoding it is undone by ReadToUnicode. */
  lemma ReadWrapped(body: string)
    ensures ReadToUnicode(Encode(Header + "\n" + body + "\n" + Trailer)) == ReadBfData(body)
  {
    Regroup(Header, body, Trailer, '\n');
    FramedRoundTrip(Header + "\n", body, "\n" + Trailer);
  }

  lemma Regroup(a: string, body: string, c: string, sep: char)
    ensures a + [sep] + body + [sep] + c == (a + [sep]) + body + ([sep] + c)
  {
  }

  /** Decoding the bytes of a framed body and taking the frame off gives what the body reads as. */
  lemma FramedRoundTrip(pre: string, body: string, post: string)
    ensures ReadFramed(Encode(pre + body + post), pre, post) == ReadBfData(body)
  {
    DecodeEncode(pre + body + post);
    UnwrapWrap(pre, body, post);
  }

  lemma UnwrapWrap(pre: string, body: string, post: string)
    ensures Unwrap(pre + body + post, pre, post) == Some(body)
  {
    var s := pre + body + post;
    assert s[..|pre|] == pre && s[|s| - |post|..] == post && s[|pre|..|s| - |post|] == body;
  }
}
