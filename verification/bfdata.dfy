/**
  The abstract content of toBfData: the codes of the code-to-Unicode table in
  ascending order, cut into maximal runs of consecutive codes; runs of one code
  become bfchar entries and longer runs bfrange entries, and each kind is
  packed into blocks of at most 100 entries, bfchar blocks first.
 */
module BfData {
  import opened CMapTypes

  predicate Increasing(s: seq<int>)
  {
    forall i, j :: 0 <= i < j < |s| ==> s[i] < s[j]
  }

  /** A set of codes holding `y` has a least element, at most `y`. */
  lemma {:induction false} HasMinimum(s: set<CharCode>, y: CharCode)
    requires y in s
    ensures exists m :: m in s && forall x :: x in s ==> m <= x
    decreases y
  {
    if !forall x :: x in s ==> y <= x {
      var z :| z in s && z < y;
      HasMinimum(s, z);
    }
  }

  function SetMin(s: set<CharCode>): (m: CharCode)
    requires s != {}
    ensures m in s && forall x :: x in s ==> m <= x
  {
    HasMinimum(s, var y :| y in s; y);
    var m :| m in s && forall x :: x in s ==> m <= x;
    m
  }

  /** The codes of a table in ascending order (the key collection and sort.Slice of toBfData). */
  function SortedCodes(s: set<CharCode>): (r: seq<CharCode>)
    ensures Increasing(r)
    ensures forall c :: c in r <==> c in s
    ensures |r| == |s|
    decreases |s|
  {
    if s == {} then []
    else
      var m := SetMin(s);
      var rest := SortedCodes(s - {m});
      assert forall i :: 0 <= i < |rest| ==> m < rest[i];
      [m] + rest
  }

  /** In a strictly increasing sequence every element occurs once. */
  lemma {:induction false} IncreasingOnce(s: seq<int>, c: int)
    requires Increasing(s)
    ensures multiset(s)[c] == if c in s then 1 else 0
  {
    if s != [] {
      assert s == [s[0]] + s[1..];
      IncreasingOnce(s[1..], c);
      if c == s[0] {
        assert c !in s[1..];
      }
    }
  }

  /** Two increasing sequences with the same elements are equal: the sorted order is unique. */
  lemma {:induction false} IncreasingUnique(a: seq<int>, b: seq<int>)
    requires Increasing(a) && Increasing(b)
    requires forall c :: c in a <==> c in b
    ensures a == b
  {
    assert a != [] ==> a[0] in a && a[0] in b;
    assert b != [] ==> b[0] in b && b[0] in a;
    if a != [] && b != [] {
      assert a[0] == b[0];
      forall c
        ensures c in a[1..] <==> c in b[1..]
      {
        if c in a[1..] {
          assert c != a[0] && c in b;
        }
        if c in b[1..] {
          assert c != b[0] && c in a;
        }
      }
      IncreasingUnique(a[1..], b[1..]);
      assert a == [a[0]] + a[1..] && b == [b[0]] + b[1..];
    }
  }

  /** The sorted codes of a set are the one increasing sequence holding exactly its elements. */
  lemma {:induction false} SortedCodesOf(s: set<CharCode>, codes: seq<int>)
    requires Increasing(codes) && forall c :: c in codes <==> c in s
    ensures SortedCodes(s) == codes
  {
    var r := SortedCodes(s);
    forall c
      ensures c in r <==> c in codes
    {
      if c in r {
        var k :| 0 <= k < |r| && r[k] == c;
        assert r[k] in s;
      }
      if c in codes && 0 <= c < TwoTo32 {
        var d: CharCode := c;
        assert d in s;
      }
    }
    IncreasingUnique(r, codes);
  }

  /** The half-open range [code0, code1) of consecutive codes. */
  datatype CharRange = CharRange(code0: int, code1: int)

  /** The codes of a range, in order. */
  function Span(r: CharRange): (s: seq<int>)
    ensures |s| == if r.code0 <= r.code1 then r.code1 - r.code0 else 0
    ensures forall k :: 0 <= k < |s| ==> s[k] == r.code0 + k
  {
    seq(if r.code0 <= r.code1 then r.code1 - r.code0 else 0, k => r.code0 + k)
  }

  /** The codes of a sequence of ranges, in order. */
  function Flatten(runs: seq<CharRange>): seq<int>
  {
    if runs == [] then [] else Span(runs[0]) + Flatten(runs[1..])
  }

  lemma {:induction false} FlattenCons(r: CharRange, runs: seq<CharRange>)
    ensures Flatten([r] + runs) == Span(r) + Flatten(runs)
  {
    assert ([r] + runs)[1..] == runs;
  }

  /** Every range holds at least one code. */
  predicate NonEmptyRuns(runs: seq<CharRange>)
  {
    forall i :: 0 <= i < |runs| ==> runs[i].code0 < runs[i].code1
  }

  /** Later ranges start strictly after earlier ones end: no two ranges touch. */
  predicate Separated(runs: seq<CharRange>)
  {
    forall i, j :: 0 <= i < j < |runs| ==> runs[i].code1 < runs[j].code0
  }

  /** The successor of a code: as a 32-bit unsigned `c + 1` when `wrap` is set, otherwise exactly. */
  function Next(c: int, wrap: bool): int
  {
    if wrap then (c + 1) % TwoTo32 else c + 1
  }

  /**
    The run-detection loop of toBfData, from the current run [c0, c1) over the
    codes not yet visited: a code other than c1 closes the run and starts a new
    one; at the end the current run is kept if it is not empty.
   */
  function CollectRuns(rest: seq<int>, c0: int, c1: int, wrap: bool): seq<CharRange>
    decreases |rest|
  {
    if rest == [] then
      if c1 > c0 then [CharRange(c0, c1)] else []
    else if rest[0] != c1 then
      [CharRange(c0, c1)] + CollectRuns(rest[1..], rest[0], Next(rest[0], wrap), wrap)
    else
      CollectRuns(rest[1..], c0, Next(rest[0], wrap), wrap)
  }

  /** The maximal runs of ascending codes, with exact successors. */
  function Runs(codes: seq<int>): seq<CharRange>
  {
    if codes == [] then [] else CollectRuns(codes[1..], codes[0], codes[0] + 1, false)
  }

  /** The runs as toBfData computes them, with CharCode being a 32-bit unsigned integer. */
  function RunsAsWritten(codes: seq<int>): seq<CharRange>
  {
    if codes == [] then [] else CollectRuns(codes[1..], codes[0], Next(codes[0], true), true)
  }

  /**
    `runs` starts with a run from c0 reaching at least c1, its runs are
    non-empty and separated, and it covers [c0, c1) followed by `rest`.
   */
  predicate PartitionFrom(runs: seq<CharRange>, c0: int, c1: int, rest: seq<int>)
  {
    && |runs| >= 1 && runs[0].code0 == c0 && runs[0].code1 >= c1
    && NonEmptyRuns(runs) && Separated(runs)
    && Flatten(runs) == Span(CharRange(c0, c1)) + rest
  }

  /**
    Run detection from the run [c0, c1) over the increasing codes `rest`, all
    at or above c1, yields separated non-empty runs, starting at c0 and
    covering [c0, c1) followed by `rest`.
   */
  lemma {:induction false} CollectRunsPartition(rest: seq<int>, c0: int, c1: int)
    requires c0 < c1 && Increasing(rest)
    requires rest != [] ==> c1 <= rest[0]
    ensures PartitionFrom(CollectRuns(rest, c0, c1, false), c0, c1, rest)
    decreases |rest|, 1
  {
    if rest == [] {
      FlattenCons(CharRange(c0, c1), []);
    } else if rest[0] != c1 {
      CloseRunStep(rest, c0, c1);
    } else {
      ExtendRunStep(rest, c0, c1);
    }
  }

  /** A code past c1 closes the run [c0, c1) in front of the runs of the remaining codes. */
  lemma {:induction false} CloseRunStep(rest: seq<int>, c0: int, c1: int)
    requires rest != [] && c0 < c1 < rest[0] && Increasing(rest)
    ensures PartitionFrom(CollectRuns(rest, c0, c1, false), c0, c1, rest)
    decreases |rest|, 0
  {
    var x, more := rest[0], rest[1..];
    IncreasingTail(rest);
    CollectRunsPartition(more, x, x + 1);
    var tail := CollectRuns(more, x, x + 1, false);
    assert CollectRuns(rest, c0, c1, false) == [CharRange(c0, c1)] + tail;
    assert rest == [x] + more;
    CloseRunParts(c0, c1, x, more, tail);
  }

  /** The run [c0, c1) in front of a partition starting with x, past c1, partitions from c0 the codes from x. */
  lemma CloseRunParts(c0: int, c1: int, x: int, more: seq<int>, tail: seq<CharRange>)
    requires c0 < c1 < x && PartitionFrom(tail, x, x + 1, more)
    ensures PartitionFrom([CharRange(c0, c1)] + tail, c0, c1, [x] + more)
  {
    SeparatedCons(CharRange(c0, c1), tail);
    FlattenCons(CharRange(c0, c1), tail);
    assert Span(CharRange(x, x + 1)) == [x];
  }

  /** A non-empty run ending before the first of separated non-empty runs keeps them separated. */
  lemma {:induction false} SeparatedCons(r: CharRange, runs: seq<CharRange>)
    requires r.code0 < r.code1 && runs != [] && r.code1 < runs[0].code0
    requires NonEmptyRuns(runs) && Separated(runs)
    ensures NonEmptyRuns([r] + runs) && Separated([r] + runs)
  {
    var all := [r] + runs;
    forall i, j | 0 <= i < j < |all|
      ensures all[i].code1 < all[j].code0
    {
      if i == 0 && j > 1 {
        assert runs[0].code1 < runs[j - 1].code0;
      }
    }
  }

  /** The code c1 extends the run [c0, c1) to [c0, c1 + 1). */
  lemma {:induction false} ExtendRunStep(rest: seq<int>, c0: int, c1: int)
    requires rest != [] && c0 < c1 == rest[0] && Increasing(rest)
    ensures PartitionFrom(CollectRuns(rest, c0, c1, false), c0, c1, rest)
    decreases |rest|, 0
  {
    var more := rest[1..];
    IncreasingTail(rest);
    CollectRunsPartition(more, c0, c1 + 1);
    assert CollectRuns(rest, c0, c1, false) == CollectRuns(more, c0, c1 + 1, false);
    assert rest == [c1] + more;
    ExtendRunParts(c0, c1, more, CollectRuns(more, c0, c1 + 1, false));
  }

  /** A partition from the run [c0, c1 + 1) is one from the run [c0, c1) with c1 in front of the codes. */
  lemma ExtendRunParts(c0: int, c1: int, more: seq<int>, runs: seq<CharRange>)
    requires c0 < c1 && PartitionFrom(runs, c0, c1 + 1, more)
    ensures PartitionFrom(runs, c0, c1, [c1] + more)
  {
    assert Span(CharRange(c0, c1 + 1)) == Span(CharRange(c0, c1)) + [c1];
  }

  /** The codes after the first of an increasing sequence are increasing and all above the first. */
  lemma IncreasingTail(rest: seq<int>)
    requires rest != [] && Increasing(rest)
    ensures Increasing(rest[1..]) && (rest[1..] != [] ==> rest[0] + 1 <= rest[1..][0])
  {
    var more := rest[1..];
    assert forall i :: 0 <= i < |more| ==> more[i] == rest[i + 1];
  }

  /**
    The runs of an increasing code sequence partition it: each is non-empty,
    no two touch, and read in order they give back the codes.
   */
  lemma {:induction false} RunsPartition(codes: seq<int>)
    requires Increasing(codes)
    ensures NonEmptyRuns(Runs(codes)) && Separated(Runs(codes))
    ensures Flatten(Runs(codes)) == codes
  {
    if codes != [] {
      CollectRunsPartition(codes[1..], codes[0], codes[0] + 1);
      assert Span(CharRange(codes[0], codes[0] + 1)) == [codes[0]];
      assert codes == [codes[0]] + codes[1..];
    }
  }

  /** The last code visited: the last of `rest`, or the one before c1 when `rest` is empty. */
  function LastCode(rest: seq<int>, c1: int): int
  {
    if rest == [] then c1 - 1 else rest[|rest| - 1]
  }

  /**
    Run detection with 32-bit successors agrees with exact run detection while
    the codes stay below 0xFFFFFFFF, and loses exactly the last run when the
    last code is 0xFFFFFFFF: its successor wraps to 0, which fails the final
    check `c1 > c0`.
   */
  lemma {:induction false} CollectRunsWrap(rest: seq<int>, c0: int, c1: int)
    requires 0 <= c0 < c1 && Increasing(rest)
    requires rest != [] ==> c1 <= rest[0]
    requires LastCode(rest, c1) < TwoTo32
    ensures WrapAgrees(rest, c0, c1)
    decreases |rest|, 1
  {
    if rest != [] {
      assert rest[0] <= LastCode(rest, c1);
      if rest[0] != c1 {
        CloseRunWrap(rest, c0, c1);
      } else {
        CollectRunsWrap(rest[1..], c0, c1 + 1);
        assert c1 % TwoTo32 == c1;
        assert LastCode(rest[1..], c1 + 1) == LastCode(rest, c1);
      }
    }
  }

  /** What CollectRunsWrap states: the wrapped runs are the exact ones, less the last when the last code is 0xFFFFFFFF. */
  predicate WrapAgrees(rest: seq<int>, c0: int, c1: int)
  {
    var exact := CollectRuns(rest, c0, c1, false);
    var wrapped := CollectRuns(rest, c0, c1 % TwoTo32, true);
    && |exact| >= 1
    && (LastCode(rest, c1) == TwoTo32 - 1 ==> wrapped == exact[..|exact| - 1])
    && (LastCode(rest, c1) < TwoTo32 - 1 ==> wrapped == exact)
  }

  /** The step of CollectRunsWrap where the next code closes the current run. */
  lemma {:induction false} CloseRunWrap(rest: seq<int>, c0: int, c1: int)
    requires 0 <= c0 < c1 && Increasing(rest)
    requires rest != [] && c1 < rest[0] && LastCode(rest, c1) < TwoTo32
    ensures WrapAgrees(rest, c0, c1)
    decreases |rest|, 0
  {
    assert rest[0] <= LastCode(rest, c1);
    assert c1 % TwoTo32 == c1;
    assert LastCode(rest[1..], rest[0] + 1) == LastCode(rest, c1);
    CollectRunsWrap(rest[1..], rest[0], rest[0] + 1);
    var tail := CollectRuns(rest[1..], rest[0], rest[0] + 1, false);
    assert CollectRuns(rest, c0, c1, false) == [CharRange(c0, c1)] + tail;
    DropLastCons(CharRange(c0, c1), tail);
  }

  lemma {:induction false} DropLastCons<T>(x: T, s: seq<T>)
    requires s != []
    ensures ([x] + s)[..|s|] == [x] + s[..|s| - 1]
  {
  }

  /**
    toBfData's run detection as written drops the last run exactly when the
    table holds code 0xFFFFFFFF, and is otherwise the exact one.
   */
  lemma {:induction false} RunsAsWrittenDropsLast(codes: seq<CharCode>)
    requires Increasing(codes) && codes != []
    ensures codes[|codes| - 1] < TwoTo32 - 1 ==> RunsAsWritten(codes) == Runs(codes)
    ensures codes[|codes| - 1] == TwoTo32 - 1 ==>
      |Runs(codes)| >= 1 && RunsAsWritten(codes) == Runs(codes)[..|Runs(codes)| - 1]
  {
    var c0: int := codes[0];
    assert LastCode(codes[1..], c0 + 1) == codes[|codes| - 1];
    CollectRunsWrap(codes[1..], c0, c0 + 1);
  }

  /** A bfchar or bfrange entry: one code, or the codes low..high, and the rune of the first. */
  datatype BfEntry = BfChar(code: int, dst: Rune) | BfRange(low: int, high: int, dst: Rune)

  /** The rune of `c` in `t`; indexing a Go map with a missing key gives the zero rune. */
  function Dst(t: map<CharCode, Rune>, c: int): Rune
  {
    if 0 <= c < TwoTo32 && c in t then t[c] else 0
  }

  predicate IsSingle(r: CharRange)
  {
    r.code0 + 1 == r.code1
  }

  /**
    The entry of a run: bfchar for a single code, otherwise bfrange over its
    codes; either way with the rune of its first code.
   */
  function EntryOf(r: CharRange, t: map<CharCode, Rune>): BfEntry
  {
    if IsSingle(r) then BfChar(r.code0, Dst(t, r.code0)) else BfRange(r.code0, r.code1 - 1, Dst(t, r.code0))
  }

  /** The bfchar entries: one per run of a single code, in order. */
  function CharEntries(runs: seq<CharRange>, t: map<CharCode, Rune>): seq<BfEntry>
  {
    if runs == [] then []
    else if IsSingle(runs[0]) then [EntryOf(runs[0], t)] + CharEntries(runs[1..], t)
    else CharEntries(runs[1..], t)
  }

  /** The bfrange entries: one per longer run, in order. */
  function RangeEntries(runs: seq<CharRange>, t: map<CharCode, Rune>): seq<BfEntry>
  {
    if runs == [] then []
    else if IsSingle(runs[0]) then RangeEntries(runs[1..], t)
    else [EntryOf(runs[0], t)] + RangeEntries(runs[1..], t)
  }

  /** Entries cut into consecutive blocks of MaxBfEntries, the last one possibly shorter. */
  function Chunks(s: seq<BfEntry>): seq<seq<BfEntry>>
    decreases |s|
  {
    if s == [] then []
    else if |s| <= MaxBfEntries then [s]
    else [s[..MaxBfEntries]] + Chunks(s[MaxBfEntries..])
  }

  function Concat<T>(ss: seq<seq<T>>): seq<T>
  {
    if ss == [] then [] else ss[0] + Concat(ss[1..])
  }

  /** There are (n + 99) / 100 blocks, as toBfData's loop counts them. */
  lemma {:induction false} ChunksCount(s: seq<BfEntry>)
    ensures |Chunks(s)| == (|s| + MaxBfEntries - 1) / MaxBfEntries
    decreases |s|
  {
    if |s| > MaxBfEntries {
      ChunksCount(s[MaxBfEntries..]);
    }
  }

  /** Block i holds the entries from i * 100 on, min(n - i * 100, 100) of them, as in toBfData's loop. */
  lemma {:induction false} ChunksContent(s: seq<BfEntry>)
    ensures forall i :: 0 <= i < |Chunks(s)| ==>
      i * MaxBfEntries < |s| &&
      Chunks(s)[i] == s[i * MaxBfEntries .. i * MaxBfEntries + Min(|s| - i * MaxBfEntries, MaxBfEntries)]
    decreases |s|
  {
    if |s| > MaxBfEntries {
      var rest := s[MaxBfEntries..];
      ChunksContent(rest);
      var cs := Chunks(s);
      assert cs == [s[..MaxBfEntries]] + Chunks(rest);
      forall i | 0 < i < |cs|
        ensures i * MaxBfEntries < |s|
        ensures cs[i] == s[i * MaxBfEntries .. i * MaxBfEntries + Min(|s| - i * MaxBfEntries, MaxBfEntries)]
      {
        var j := (i - 1) * MaxBfEntries;
        assert cs[i] == Chunks(rest)[i - 1];
        assert j + MaxBfEntries == i * MaxBfEntries;
        var m := Min(|rest| - j, MaxBfEntries);
        assert m == Min(|s| - i * MaxBfEntries, MaxBfEntries);
        SliceOfDrop(s, MaxBfEntries, j, m);
      }
    }
  }

  lemma SliceOfDrop<T>(s: seq<T>, d: nat, j: nat, m: nat)
    requires d + j + m <= |s|
    ensures s[d..][j..j + m] == s[d + j..d + j + m]
  {
  }

  /** Read in order, the blocks give back the entries. */
  lemma {:induction false} ChunksConcat(s: seq<BfEntry>)
    ensures Concat(Chunks(s)) == s
    decreases |s|
  {
    if |s| > MaxBfEntries {
      var rest := s[MaxBfEntries..];
      ChunksConcat(rest);
      assert Chunks(s) == [s[..MaxBfEntries]] + Chunks(rest);
      assert ([s[..MaxBfEntries]] + Chunks(rest))[1..] == Chunks(rest);
      assert s == s[..MaxBfEntries] + rest;
    }
  }

  /** One block of bfchar or of bfrange entries. */
  datatype BfBlock = CharBlock(entries: seq<BfEntry>) | RangeBlock(entries: seq<BfEntry>)

  /** The blocks of the entries of `runs`: the bfchar blocks, then the bfrange blocks. */
  function BlocksOf(runs: seq<CharRange>, t: map<CharCode, Rune>): seq<BfBlock>
  {
    var chars := Chunks(CharEntries(runs, t));
    var ranges := Chunks(RangeEntries(runs, t));
    seq(|chars|, i requires 0 <= i < |chars| => CharBlock(chars[i]))
      + seq(|ranges|, i requires 0 <= i < |ranges| => RangeBlock(ranges[i]))
  }

  /**
    The blocks toBfData is meant to write for `t`, none for an empty table.
    This is the corrected serializer, with exact run detection.
   */
  function ToBfBlocks(t: map<CharCode, Rune>): seq<BfBlock>
  {
    if |t| == 0 then [] else BlocksOf(Runs(SortedCodes(t.Keys)), t)
  }

  /** The blocks toBfData writes for `t` as written, with 32-bit run detection. */
  function ToBfBlocksAsWritten(t: map<CharCode, Rune>): seq<BfBlock>
  {
    if |t| == 0 then [] else BlocksOf(RunsAsWritten(SortedCodes(t.Keys)), t)
  }
  /** Without code 0xFFFFFFFF in the table, the 32-bit run detection writes the same blocks as the exact one. */
  lemma BlocksAsWrittenAgree(t: map<CharCode, Rune>)
    requires TwoTo32 - 1 !in t
    ensures ToBfBlocksAsWritten(t) == ToBfBlocks(t)
  {
    if |t| != 0 {
      var codes := SortedCodes(t.Keys);
      assert codes[|codes| - 1] in t.Keys;
      RunsAsWrittenDropsLast(codes);
    }
  }


  /** All entries of the blocks, in order. */
  function AllEntries(blocks: seq<BfBlock>): seq<BfEntry>
  {
    if blocks == [] then [] else blocks[0].entries + AllEntries(blocks[1..])
  }

  /** The blocks made from a sequence of chunks, one block per chunk. */
  function CharBlocks(cs: seq<seq<BfEntry>>): (r: seq<BfBlock>)
    ensures |r| == |cs| && forall i :: 0 <= i < |cs| ==> r[i] == CharBlock(cs[i])
  {
    seq(|cs|, i requires 0 <= i < |cs| => CharBlock(cs[i]))
  }

  function RangeBlocks(cs: seq<seq<BfEntry>>): (r: seq<BfBlock>)
    ensures |r| == |cs| && forall i :: 0 <= i < |cs| ==> r[i] == RangeBlock(cs[i])
  {
    seq(|cs|, i requires 0 <= i < |cs| => RangeBlock(cs[i]))
  }

  lemma {:induction false} AllEntriesAppend(a: seq<BfBlock>, b: seq<BfBlock>)
    ensures AllEntries(a + b) == AllEntries(a) + AllEntries(b)
  {
    if a == [] {
      assert a + b == b;
    } else {
      assert (a + b)[0] == a[0] && (a + b)[1..] == a[1..] + b;
      AllEntriesAppend(a[1..], b);
    }
  }

  /** The entries of blocks made one per chunk are the chunks read in order. */
  lemma {:induction false} AllEntriesOfChunks(cs: seq<seq<BfEntry>>, blocks: seq<BfBlock>)
    requires |blocks| == |cs| && forall i :: 0 <= i < |cs| ==> blocks[i].entries == cs[i]
    ensures AllEntries(blocks) == Concat(cs)
  {
    if cs != [] {
      AllEntriesOfChunks(cs[1..], blocks[1..]);
    }
  }

  lemma {:induction false} CharEntriesAreChars(runs: seq<CharRange>, t: map<CharCode, Rune>)
    ensures forall e :: e in CharEntries(runs, t) ==> e.BfChar?
    ensures forall e :: e in RangeEntries(runs, t) ==> e.BfRange?
  {
    if runs != [] {
      CharEntriesAreChars(runs[1..], t);
    }
  }

  /**
    The layout of toBfData's blocks: every bfchar block comes before every
    bfrange block, and each block holds between 1 and 100 entries, all of its
    own kind.
   */
  lemma {:induction false} BlocksLayout(runs: seq<CharRange>, t: map<CharCode, Rune>)
    ensures var blocks := BlocksOf(runs, t);
      && (forall i, j :: 0 <= i < j < |blocks| && blocks[j].CharBlock? ==> blocks[i].CharBlock?)
      && (forall i :: 0 <= i < |blocks| ==> 1 <= |blocks[i].entries| <= MaxBfEntries)
      && (forall i, e :: 0 <= i < |blocks| && e in blocks[i].entries ==> (e.BfChar? <==> blocks[i].CharBlock?))
  {
    var chars := Chunks(CharEntries(runs, t));
    var ranges := Chunks(RangeEntries(runs, t));
    var cb, rb := CharBlocks(chars), RangeBlocks(ranges);
    assert BlocksOf(runs, t) == cb + rb;
    ChunkSizes(CharEntries(runs, t));
    ChunkSizes(RangeEntries(runs, t));
    CharEntriesAreChars(runs, t);
    var blocks := cb + rb;
    forall i, e | 0 <= i < |blocks| && e in blocks[i].entries
      ensures e.BfChar? <==> blocks[i].CharBlock?
    {
      if i < |cb| {
        assert blocks[i] == cb[i];
        ChunkMember(CharEntries(runs, t), i, e);
        assert e in CharEntries(runs, t);
      } else {
        assert blocks[i] == rb[i - |cb|];
        ChunkMember(RangeEntries(runs, t), i - |cb|, e);
        assert e in RangeEntries(runs, t);
      }
    }
  }

  /** Every block holds between 1 and 100 entries. */
  lemma {:induction false} ChunkSizes(s: seq<BfEntry>)
    ensures forall i :: 0 <= i < |Chunks(s)| ==> 1 <= |Chunks(s)[i]| <= MaxBfEntries
  {
    ChunksContent(s);
  }

  /** An entry of a block is one of the entries cut into blocks. */
  lemma {:induction false} ChunkMember(s: seq<BfEntry>, i: nat, e: BfEntry)
    requires i < |Chunks(s)| && e in Chunks(s)[i]
    ensures e in s
  {
    ChunksContent(s);
  }

  /** Read in order, the blocks give the bfchar entries and then the bfrange entries. */
  lemma {:induction false} BlocksEntries(runs: seq<CharRange>, t: map<CharCode, Rune>)
    ensures AllEntries(BlocksOf(runs, t)) == CharEntries(runs, t) + RangeEntries(runs, t)
  {
    var chars := Chunks(CharEntries(runs, t));
    var ranges := Chunks(RangeEntries(runs, t));
    var cb, rb := CharBlocks(chars), RangeBlocks(ranges);
    assert BlocksOf(runs, t) == cb + rb;
    ChunksConcat(CharEntries(runs, t));
    ChunksConcat(RangeEntries(runs, t));
    AllEntriesAppend(cb, rb);
    AllEntriesOfChunks(chars, cb);
    AllEntriesOfChunks(ranges, rb);
  }

  /** `c` is a code of the table. */
  predicate InTable(t: map<CharCode, Rune>, c: int)
  {
    0 <= c < TwoTo32 && c in t
  }

  /** Entry `e` is about code `c`. */
  predicate Covers(e: BfEntry, c: int)
  {
    match e
    case BfChar(code, _) => c == code
    case BfRange(low, high, _) => low <= c <= high
  }

  /** The codes an entry is about, in order. */
  function EntrySpan(e: BfEntry): seq<int>
  {
    match e
    case BfChar(code, _) => [code]
    case BfRange(low, high, _) => Span(CharRange(low, high + 1))
  }

  /** The codes an entry spans are the codes it is about. */
  lemma {:induction false} EntrySpanCovers(e: BfEntry, c: int)
    ensures c in EntrySpan(e) <==> Covers(e, c)
  {
    if e.BfRange? && Covers(e, c) {
      assert EntrySpan(e)[c - e.low] == c;
    }
  }

  /** The codes a sequence of entries is about, in order. */
  function EntryCodes(es: seq<BfEntry>): seq<int>
  {
    if es == [] then [] else EntrySpan(es[0]) + EntryCodes(es[1..])
  }

  lemma {:induction false} EntryCodesAppend(a: seq<BfEntry>, b: seq<BfEntry>)
    ensures EntryCodes(a + b) == EntryCodes(a) + EntryCodes(b)
  {
    if a == [] {
      assert a + b == b;
    } else {
      assert (a + b)[0] == a[0] && (a + b)[1..] == a[1..] + b;
      EntryCodesAppend(a[1..], b);
    }
  }

  /** A code is among those of the entries exactly when some entry is about it. */
  lemma {:induction false} InEntryCodes(es: seq<BfEntry>, c: int)
    ensures c in EntryCodes(es) <==> exists e :: e in es && Covers(e, c)
  {
    if es != [] {
      InEntryCodes(es[1..], c);
      EntrySpanCovers(es[0], c);
      assert forall e :: e in es <==> e == es[0] || e in es[1..];
    }
  }

  /** The entries of the runs are about exactly the codes of the runs, each as often. */
  lemma {:induction false} EntriesCover(runs: seq<CharRange>, t: map<CharCode, Rune>)
    ensures multiset(EntryCodes(CharEntries(runs, t))) + multiset(EntryCodes(RangeEntries(runs, t)))
         == multiset(Flatten(runs))
  {
    if runs != [] {
      EntriesCover(runs[1..], t);
      EntriesCoverStep(runs, t);
    }
  }

  /** The entry of the first run is about the codes of that run. */
  lemma {:induction false} EntriesCoverStep(runs: seq<CharRange>, t: map<CharCode, Rune>)
    requires runs != []
    requires multiset(EntryCodes(CharEntries(runs[1..], t))) + multiset(EntryCodes(RangeEntries(runs[1..], t)))
          == multiset(Flatten(runs[1..]))
    ensures multiset(EntryCodes(CharEntries(runs, t))) + multiset(EntryCodes(RangeEntries(runs, t)))
         == multiset(Flatten(runs))
  {
    var r, rest := runs[0], runs[1..];
    var head := [EntryOf(r, t)];
    HeadEntryCodes(r, t);
    FlattenHead(runs);
    if IsSingle(r) {
      assert CharEntries(runs, t) == head + CharEntries(rest, t);
      CoverHead(head, CharEntries(rest, t), RangeEntries(rest, t), Span(r), Flatten(rest));
    } else {
      assert RangeEntries(runs, t) == head + RangeEntries(rest, t);
      CoverHead(head, RangeEntries(rest, t), CharEntries(rest, t), Span(r), Flatten(rest));
    }
  }

  lemma FlattenHead(runs: seq<CharRange>)
    requires runs != []
    ensures Flatten(runs) == Span(runs[0]) + Flatten(runs[1..])
  {
  }

  lemma HeadEntryCodes(r: CharRange, t: map<CharCode, Rune>)
    ensures EntryCodes([EntryOf(r, t)]) == Span(r)
  {
    assert EntryCodes([EntryOf(r, t)]) == EntrySpan(EntryOf(r, t)) + EntryCodes([]);
  }

  /** Multiset bookkeeping for EntriesCoverStep: entries about `s` added in front of one side add `s`. */
  lemma {:induction false} CoverHead(head: seq<BfEntry>, a: seq<BfEntry>, b: seq<BfEntry>, s: seq<int>, f: seq<int>)
    requires EntryCodes(head) == s
    requires multiset(EntryCodes(a)) + multiset(EntryCodes(b)) == multiset(f)
    ensures multiset(EntryCodes(head + a)) + multiset(EntryCodes(b)) == multiset(s + f)
    ensures multiset(EntryCodes(b)) + multiset(EntryCodes(head + a)) == multiset(s + f)
  {
    EntryCodesAppend(head, a);
  }

  /** `c` is a code of some run exactly when it lies in one of them. */
  lemma {:induction false} InFlatten(runs: seq<CharRange>, c: int)
    ensures c in Flatten(runs) <==> exists i :: 0 <= i < |runs| && runs[i].code0 <= c < runs[i].code1
  {
    if runs != [] {
      InFlatten(runs[1..], c);
      var r := runs[0];
      assert c in Span(r) <==> r.code0 <= c < r.code1 by {
        if r.code0 <= c < r.code1 {
          assert Span(r)[c - r.code0] == c;
        }
      }
      if exists i :: 0 <= i < |runs| && runs[i].code0 <= c < runs[i].code1 {
        var i :| 0 <= i < |runs| && runs[i].code0 <= c < runs[i].code1;
        if i > 0 {
          assert runs[1..][i - 1] == runs[i];
        }
      }
      if exists i :: 0 <= i < |runs[1..]| && runs[1..][i].code0 <= c < runs[1..][i].code1 {
        var i :| 0 <= i < |runs[1..]| && runs[1..][i].code0 <= c < runs[1..][i].code1;
        assert runs[i + 1] == runs[1..][i];
      }
    }
  }

  /**
    The runs are maximal: every code of a run is among the codes, and neither
    the code just before a run nor the code just after it is.
   */
  lemma {:induction false} RunsMaximal(codes: seq<int>, i: nat)
    requires Increasing(codes) && i < |Runs(codes)|
    ensures var r := Runs(codes)[i];
      && r.code0 < r.code1
      && (forall c :: r.code0 <= c < r.code1 ==> c in codes)
      && r.code0 - 1 !in codes && r.code1 !in codes
  {
    var runs := Runs(codes);
    var r := runs[i];
    RunsPartition(codes);
    forall c | r.code0 <= c < r.code1
      ensures c in codes
    {
      InFlatten(runs, c);
    }
    forall j | 0 <= j < |runs|
      ensures !(runs[j].code0 <= r.code1 < runs[j].code1)
      ensures !(runs[j].code0 <= r.code0 - 1 < runs[j].code1)
    {
      if j < i {
        assert runs[j].code1 < r.code0;
      } else if j > i {
        assert r.code1 < runs[j].code0;
      }
    }
    InFlatten(runs, r.code0 - 1);
    InFlatten(runs, r.code1);
  }

  /** Every entry is the entry of one of the runs. */
  lemma {:induction false} EntryFromRun(runs: seq<CharRange>, t: map<CharCode, Rune>, e: BfEntry)
    requires e in CharEntries(runs, t) || e in RangeEntries(runs, t)
    ensures exists i :: 0 <= i < |runs| && e == EntryOf(runs[i], t)
  {
    var rest := runs[1..];
    if e != EntryOf(runs[0], t) {
      assert e in CharEntries(rest, t) || e in RangeEntries(rest, t);
      EntryFromRun(rest, t, e);
      var i :| 0 <= i < |rest| && e == EntryOf(rest[i], t);
      assert runs[i + 1] == rest[i];
    }
  }

  /**
    The layout of toBfData for any table: bfchar blocks before bfrange blocks,
    between 1 and 100 entries per block, every entry of its block's kind.
   */
  lemma {:induction false} ToBfBlocksLayout(t: map<CharCode, Rune>)
    ensures var blocks := ToBfBlocks(t);
      && (|t| == 0 ==> blocks == [])
      && (forall i, j :: 0 <= i < j < |blocks| && blocks[j].CharBlock? ==> blocks[i].CharBlock?)
      && (forall i :: 0 <= i < |blocks| ==> 1 <= |blocks[i].entries| <= MaxBfEntries)
      && (forall i, e :: 0 <= i < |blocks| && e in blocks[i].entries ==> (e.BfChar? <==> blocks[i].CharBlock?))
  {
    if |t| != 0 {
      BlocksLayout(Runs(SortedCodes(t.Keys)), t);
    }
  }

  /** Every code of the table is in exactly one entry, and no other code is in any. */
  lemma {:induction false} ToBfBlocksCover(t: map<CharCode, Rune>, c: int)
    ensures multiset(EntryCodes(AllEntries(ToBfBlocks(t))))[c] == if InTable(t, c) then 1 else 0
  {
    if |t| == 0 {
      assert c !in t.Keys;
    } else {
      var codes := SortedCodes(t.Keys);
      var runs := Runs(codes);
      RunsPartition(codes);
      BlocksEntries(runs, t);
      EntryCodesAppend(CharEntries(runs, t), RangeEntries(runs, t));
      EntriesCover(runs, t);
      IncreasingOnce(codes, c);
    }
  }

  /**
    Entry `e` describes a maximal run of `t`: a bfchar entry is a code whose
    neighbours are both absent, with its rune; a bfrange entry is two or more
    consecutive present codes whose neighbours are absent, with the rune of the
    first.
   */
  predicate FaithfulEntry(t: map<CharCode, Rune>, e: BfEntry)
  {
    match e
    case BfChar(code, dst) =>
      && InTable(t, code) && dst == t[code]
      && !InTable(t, code - 1) && !InTable(t, code + 1)
    case BfRange(low, high, dst) =>
      && low < high
      && (forall c :: low <= c <= high ==> InTable(t, c))
      && InTable(t, low) && dst == t[low]
      && !InTable(t, low - 1) && !InTable(t, high + 1)
  }

  /** Every entry toBfData writes describes a maximal run of the table. */
  lemma {:induction false} ToBfEntryFaithful(t: map<CharCode, Rune>, e: BfEntry)
    requires e in AllEntries(ToBfBlocks(t))
    ensures FaithfulEntry(t, e)
  {
    var codes := SortedCodes(t.Keys);
    var runs := Runs(codes);
    assert |t| != 0;
    BlocksEntries(runs, t);
    EntryFromRun(runs, t, e);
    var i :| 0 <= i < |runs| && e == EntryOf(runs[i], t);
    RunIsMaximal(t, i);
    MaximalRunEntry(t, runs[i]);
  }

  /** `r` is a maximal run of codes of `t`: all its codes are present, the codes on either side are not. */
  predicate MaximalRun(t: map<CharCode, Rune>, r: CharRange)
  {
    && r.code0 < r.code1
    && (forall c :: r.code0 <= c < r.code1 ==> InTable(t, c))
    && !InTable(t, r.code0 - 1) && !InTable(t, r.code1)
  }

  /** Run i of the table's codes is a maximal run of the table. */
  lemma {:induction false} RunIsMaximal(t: map<CharCode, Rune>, i: nat)
    requires i < |Runs(SortedCodes(t.Keys))|
    ensures MaximalRun(t, Runs(SortedCodes(t.Keys))[i])
  {
    var codes := SortedCodes(t.Keys);
    forall c
      ensures c in codes <==> InTable(t, c)
    {
      SortedCodesInTable(t, c);
    }
    RunOfCodesIsMaximal(t, codes, i);
  }

  /** The same for any increasing sequence holding exactly the codes of the table. */
  lemma {:induction false} RunOfCodesIsMaximal(t: map<CharCode, Rune>, codes: seq<int>, i: nat)
    requires Increasing(codes) && i < |Runs(codes)|
    requires forall c :: c in codes <==> InTable(t, c)
    ensures MaximalRun(t, Runs(codes)[i])
  {
    RunsMaximal(codes, i);
  }

  /** The entry of a maximal run describes that run. */
  lemma {:induction false} MaximalRunEntry(t: map<CharCode, Rune>, r: CharRange)
    requires MaximalRun(t, r)
    ensures FaithfulEntry(t, EntryOf(r, t))
  {
  }

  /** A code is among the sorted codes of the table exactly when it is in the table. */
  lemma {:induction false} SortedCodesInTable(t: map<CharCode, Rune>, c: int)
    ensures c in SortedCodes(t.Keys) <==> InTable(t, c)
  {
    var codes := SortedCodes(t.Keys);
    if c in codes {
      var k :| 0 <= k < |codes| && codes[k] == c;
      assert codes[k] in t.Keys;
    }
    if InTable(t, c) {
      var d: CharCode := c;
      assert d in codes;
    }
  }

  /**
    The rune a CMap reader assigns to code `c` from entry `e`: the entry's rune
    for a bfchar entry, and that rune advanced by the offset of `c` from the
    first code for a bfrange entry.
   */
  function DecodeAt(e: BfEntry, c: int): int
  {
    match e
    case BfChar(_, dst) => dst
    case BfRange(low, _, dst) => dst + (c - low)
  }

  /** Reading the entries back gives every code they are about the rune `t` has for it. */
  ghost predicate Reproduces(es: seq<BfEntry>, t: map<CharCode, Rune>)
  {
    forall e, c :: e in es && Covers(e, c) ==> InTable(t, c) && DecodeAt(e, c) == t[c]
  }

  /** Neighbouring codes of `t` map to neighbouring runes. */
  ghost predicate ConsecutiveRunes(t: map<CharCode, Rune>)
  {
    forall c, d :: InTable(t, c) && InTable(t, d) && d == c + 1 ==> t[d] as int == t[c] as int + 1
  }

  /** Along present consecutive codes with consecutive runes, the rune advances with the code. */
  lemma {:induction false} ConsecutiveFrom(t: map<CharCode, Rune>, low: int, c: int)
    requires ConsecutiveRunes(t)
    requires low <= c && forall x :: low <= x <= c ==> InTable(t, x)
    ensures InTable(t, low) && InTable(t, c) && t[c] as int == t[low] as int + (c - low)
    decreases c - low
  {
    if c > low {
      ConsecutiveFrom(t, low, c - 1);
      assert InTable(t, c - 1) && InTable(t, c);
    }
  }

  /**
    The bfchar and bfrange entries of toBfData read back as the table exactly
    when neighbouring codes of the table map to neighbouring runes: a bfrange
    entry records only the rune of its first code.
   */
  lemma {:induction false} ToBfBlocksRoundTrip(t: map<CharCode, Rune>)
    ensures Reproduces(AllEntries(ToBfBlocks(t)), t) <==> ConsecutiveRunes(t)
  {
    if ConsecutiveRunes(t) {
      ConsecutiveReproduces(t);
    }
    if Reproduces(AllEntries(ToBfBlocks(t)), t) {
      ReproducesConsecutive(t);
    }
  }

  /** When neighbouring codes map to neighbouring runes, every entry reads back as the table. */
  lemma {:induction false} ConsecutiveReproduces(t: map<CharCode, Rune>)
    requires ConsecutiveRunes(t)
    ensures Reproduces(AllEntries(ToBfBlocks(t)), t)
  {
    forall e, c | e in AllEntries(ToBfBlocks(t)) && Covers(e, c)
      ensures InTable(t, c) && DecodeAt(e, c) == t[c]
    {
      ToBfEntryFaithful(t, e);
      FaithfulDecodes(t, e, c);
    }
  }

  /** A faithful entry of a table whose neighbouring codes have neighbouring runes decodes each of its codes right. */
  lemma FaithfulDecodes(t: map<CharCode, Rune>, e: BfEntry, c: int)
    requires ConsecutiveRunes(t) && FaithfulEntry(t, e) && Covers(e, c)
    ensures InTable(t, c) && DecodeAt(e, c) == t[c]
  {
    if e.BfRange? {
      ConsecutiveFrom(t, e.low, c);
    }
  }

  /** When the entries read back as the table, neighbouring codes map to neighbouring runes. */
  lemma {:induction false} ReproducesConsecutive(t: map<CharCode, Rune>)
    requires Reproduces(AllEntries(ToBfBlocks(t)), t)
    ensures ConsecutiveRunes(t)
  {
    forall c, d | InTable(t, c) && InTable(t, d) && d == c + 1
      ensures t[d] as int == t[c] as int + 1
    {
      NeighboursShareEntry(t, c);
    }
  }

  /** Two neighbouring codes of the table are about the same entry of toBfData, a bfrange entry. */
  lemma {:induction false} NeighboursShareEntry(t: map<CharCode, Rune>, c: int)
    requires InTable(t, c) && InTable(t, c + 1)
    ensures exists e :: e in AllEntries(ToBfBlocks(t)) && e.BfRange? && Covers(e, c) && Covers(e, c + 1)
  {
    CoveredByEntry(t, c);
    var e :| e in AllEntries(ToBfBlocks(t)) && Covers(e, c);
    ToBfEntryFaithful(t, e);
    FaithfulEntryNeighbour(t, e, c);
  }

  /** Every code of the table is about some entry of toBfData. */
  lemma {:induction false} CoveredByEntry(t: map<CharCode, Rune>, c: int)
    requires InTable(t, c)
    ensures exists e :: e in AllEntries(ToBfBlocks(t)) && Covers(e, c)
  {
    var es := AllEntries(ToBfBlocks(t));
    ToBfBlocksCover(t, c);
    assert c in EntryCodes(es) by {
      assert multiset(EntryCodes(es))[c] > 0;
    }
    InEntryCodes(es, c);
  }

  /** An entry describing a maximal run that is about `c` is also about the next code, when that is present. */
  lemma {:induction false} FaithfulEntryNeighbour(t: map<CharCode, Rune>, e: BfEntry, c: int)
    requires FaithfulEntry(t, e) && Covers(e, c) && InTable(t, c + 1)
    ensures e.BfRange? && Covers(e, c + 1)
  {
  }
}
