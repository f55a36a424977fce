/**
  The codespace matcher: turns a byte string into variable-length (1 to 4 byte)
  big-endian character codes by testing each candidate length against the
  codespace ranges (section 9.7.6.2 of ISO 32000-1).
 */
module Codespaces {
  import opened CMapTypes

  /** 256 to the power n. */
  function Pow256(n: nat): nat
  {
    if n == 0 then 1 else 256 * Pow256(n - 1)
  }

  /** The big-endian value of a byte string. */
  function BigEndian(bs: seq<Byte>): nat
  {
    if bs == [] then 0 else BigEndian(bs[..|bs| - 1]) * 256 + bs[|bs| - 1]
  }

  lemma {:induction false} BigEndianBound(bs: seq<Byte>)
    ensures BigEndian(bs) < Pow256(|bs|)
  {
    if bs != [] {
      BigEndianBound(bs[..|bs| - 1]);
    }
  }

  /** `code<<8 | b` on a uint32. */
  function ShiftIn(code: CharCode, b: Byte): CharCode
  {
    (code * 256 + b) % TwoTo32
  }

  /** Whether codespace `cs` admits `code` as a code of `numBytes` bytes. */
  predicate Admits(cs: Codespace, code: CharCode, numBytes: int)
  {
    cs.low <= code <= cs.high && numBytes == cs.numBytes
  }

  /** inCodespace: whether some codespace of `css` admits `code` at length `numBytes`. */
  function InCodespace(css: seq<Codespace>, code: CharCode, numBytes: int): (r: bool)
    ensures r <==> exists cs :: cs in css && Admits(cs, code, numBytes)
  {
    if css == [] then false
    else if Admits(css[0], code, numBytes) then true
    else
      var rest := InCodespace(css[1..], code, numBytes);
      assert forall cs :: cs in css <==> cs == css[0] || cs in css[1..];
      rest
  }

  /** The order of the codespaces, and repeated codespaces, do not affect membership. */
  lemma InCodespaceOrderFree(a: seq<Codespace>, b: seq<Codespace>, code: CharCode, numBytes: int)
    requires forall cs :: cs in a <==> cs in b
    ensures InCodespace(a, code, numBytes) == InCodespace(b, code, numBytes)
  {
  }

  /** The first min(len, |data|) bytes of `data`. */
  function Prefix(data: seq<Byte>, len: nat): seq<Byte>
  {
    data[..Min(len, |data|)]
  }

  /** The candidate code of length `len`: the big-endian value of Prefix(data, len). */
  function Candidate(data: seq<Byte>, len: nat): (c: CharCode)
    requires len <= MaxCodeLen
    ensures c == BigEndian(Prefix(data, len))
  {
    BigEndianBound(Prefix(data, len));
    assert Pow256(Min(len, |data|)) <= Pow256(4) by { Pow256Monotone(Min(len, |data|), 4); }
    BigEndian(Prefix(data, len))
  }

  lemma Pow256Monotone(m: nat, n: nat)
    requires m <= n
    ensures Pow256(m) <= Pow256(n)
  {
  }

  /** Whether length `len` matches: its candidate code lies in a codespace of `len` bytes. */
  predicate MatchesAt(css: seq<Codespace>, data: seq<Byte>, len: nat)
    requires len <= MaxCodeLen
  {
    InCodespace(css, Candidate(data, len), len)
  }

  /**
    The shortest length `len` in [from, MaxCodeLen] that matches, if any. This is
    the reference the byte-by-byte accumulation of MatchCode is proved against.
   */
  function ShortestMatchFrom(css: seq<Codespace>, data: seq<Byte>, from: nat): (r: Option<nat>)
    requires 1 <= from
    ensures r.Some? ==> from <= r.value <= MaxCodeLen && MatchesAt(css, data, r.value)
    ensures r.Some? ==> forall len :: from <= len < r.value ==> !MatchesAt(css, data, len)
    ensures r.None? ==> forall len :: from <= len <= MaxCodeLen ==> !MatchesAt(css, data, len)
    decreases MaxCodeLen + 1 - from
  {
    if from > MaxCodeLen then None
    else if MatchesAt(css, data, from) then Some(from)
    else ShortestMatchFrom(css, data, from + 1)
  }

  function ShortestMatch(css: seq<Codespace>, data: seq<Byte>): Option<nat>
  {
    ShortestMatchFrom(css, data, 1)
  }

  /** The triple returned by matchCode: the code, the bytes read, and whether it matched. */
  datatype Match = Match(code: CharCode, n: nat, matched: bool)

  /** Appending the next byte to the candidate of length j gives the candidate of length j + 1. */
  lemma CandidateStep(data: seq<Byte>, j: nat)
    requires j < MaxCodeLen
    ensures j < |data| ==> Candidate(data, j + 1) == ShiftIn(Candidate(data, j), data[j])
    ensures j >= |data| ==> Candidate(data, j + 1) == Candidate(data, j)
  {
    if j < |data| {
      var p := Prefix(data, j + 1);
      assert p[..|p| - 1] == Prefix(data, j);
      assert BigEndian(p) == BigEndian(Prefix(data, j)) * 256 + data[j];
      BigEndianBound(p);
      Pow256Monotone(j + 1, 4);
    } else {
      assert Prefix(data, j + 1) == Prefix(data, j);
    }
  }

  /**
    One iteration of matchCode's loop and the iterations after it. When fewer
    than j + 1 bytes remain, the code is not extended but length j + 1 is still tested.
   */
  function MatchStep(css: seq<Codespace>, data: seq<Byte>, j: nat, code: CharCode, n: nat): (m: Match)
    requires j <= MaxCodeLen
    requires n == Min(j, |data|) && code == Candidate(data, j)
    ensures ShortestMatchFrom(css, data, j + 1).None? ==> m == Match(0, 0, false)
    ensures ShortestMatchFrom(css, data, j + 1).Some? ==>
      var len := ShortestMatchFrom(css, data, j + 1).value;
      m == Match(Candidate(data, len), Min(len, |data|), true)
    decreases MaxCodeLen - j
  {
    if j == MaxCodeLen then Match(0, 0, false)
    else
      CandidateStep(data, j);
      var code' := if j < |data| then ShiftIn(code, data[j]) else code;
      var n' := if j < |data| then n + 1 else n;
      if InCodespace(css, code', j + 1) then Match(code', n', true)
      else MatchStep(css, data, j + 1, code', n')
  }

  /**
    What matchCode must return: for the shortest matching length L, the candidate
    code of length L and min(L, |data|) bytes read; (0, 0, false) when nothing matches.
   */
  function ShortestMatchResult(css: seq<Codespace>, data: seq<Byte>): Match
  {
    match ShortestMatch(css, data)
    case None => Match(0, 0, false)
    case Some(len) => Match(Candidate(data, len), Min(len, |data|), true)
  }

  /**
    matchCode: accumulates the code one byte at a time and stops at the first
    length whose code lies in a codespace of that length.
   */
  function MatchCode(css: seq<Codespace>, data: seq<Byte>): (m: Match)
    ensures m == ShortestMatchResult(css, data)
    ensures m.n <= MaxCodeLen && m.n <= |data|
    ensures m.matched && data != [] ==> 1 <= m.n
  {
    assert Prefix(data, 0) == [];
    MatchStep(css, data, 0, 0, 0)
  }

  /** What a caller of matchCode needs: whether something matched, and the code read. */
  lemma MatchCodeFacts(css: seq<Codespace>, data: seq<Byte>)
    ensures MatchCode(css, data).matched <==> ShortestMatch(css, data).Some?
    ensures MatchCode(css, data).matched ==>
      MatchCode(css, data).code == BigEndian(data[..MatchCode(css, data).n])
  {
  }

  /**
    On a match, matchCode read n = min(L, |data|) bytes for the shortest matching
    length L, and the code is the big-endian value of those n bytes.
   */
  lemma MatchCodeShortest(css: seq<Codespace>, data: seq<Byte>)
    ensures MatchCode(css, data).matched <==> exists len :: 1 <= len <= MaxCodeLen && MatchesAt(css, data, len)
    ensures !MatchCode(css, data).matched ==> MatchCode(css, data) == Match(0, 0, false)
    ensures MatchCode(css, data).matched ==>
      var m := MatchCode(css, data);
      exists len :: 1 <= len <= MaxCodeLen && MatchesAt(css, data, len)
        && (forall shorter :: 1 <= shorter < len ==> !MatchesAt(css, data, shorter))
        && m.n == Min(len, |data|) && m.code == BigEndian(data[..m.n])
  {
    var s := ShortestMatch(css, data);
    if s.Some? {
      assert MatchesAt(css, data, s.value);
    }
  }

  /**
    The loop of BytesToCharcodes for CID fonts: repeatedly take the shortest
    matching code; on the first position that does not match, stop and report
    the codes decoded so far together with false.
   */
  function Scan(css: seq<Codespace>, data: seq<Byte>): (r: (seq<CharCode>, bool))
    ensures |r.0| <= |data|
    ensures data != [] && r.1 ==> 1 <= |r.0|
    decreases |data|
  {
    if data == [] then ([], true)
    else
      var m := MatchCode(css, data);
      if !m.matched then ([], false)
      else
        var rest := Scan(css, data[m.n..]);
        ([m.code] + rest.0, rest.1)
  }

  /** The start offsets of the codes Scan decodes, followed by the offset where it stopped. */
  ghost function ScanOffsets(css: seq<Codespace>, data: seq<Byte>): (offs: seq<nat>)
    ensures |offs| == |Scan(css, data).0| + 1
    decreases |data|
  {
    if data == [] then [0]
    else
      var m := MatchCode(css, data);
      if !m.matched then [0]
      else [0] + Shifted(ScanOffsets(css, data[m.n..]), m.n)
  }

  ghost function Shifted(s: seq<nat>, k: nat): (r: seq<nat>)
    ensures |r| == |s| && forall i :: 0 <= i < |s| ==> r[i] == s[i] + k
  {
    seq(|s|, i requires 0 <= i < |s| => s[i] + k)
  }

  /**
    Code i occupies bytes [offs[i], offs[i+1]): some length matches at offs[i],
    the segment is the shortest such length or what is left of the data, and
    the code is the big-endian value of the segment.
   */
  ghost predicate SegmentAt(css: seq<Codespace>, data: seq<Byte>, codes: seq<CharCode>, offs: seq<nat>, i: nat)
    requires i < |codes| && |offs| == |codes| + 1
  {
    && offs[i] < offs[i + 1] <= offs[i] + MaxCodeLen
    && offs[i + 1] <= |data|
    && ShortestMatch(css, data[offs[i]..]).Some?
    && offs[i + 1] - offs[i] == Min(ShortestMatch(css, data[offs[i]..]).value, |data| - offs[i])
    && codes[i] == BigEndian(data[offs[i]..offs[i + 1]])
  }

  /** The segments a scan decodes: contiguous, each the shortest match at its offset. */
  ghost predicate Segmentation(css: seq<Codespace>, data: seq<Byte>, codes: seq<CharCode>, ok: bool, offs: seq<nat>)
  {
    && |offs| == |codes| + 1
    && offs[0] == 0
    && (forall i: nat :: i < |codes| ==> SegmentAt(css, data, codes, offs, i))
    && offs[|codes|] <= |data|
    && (ok <==> offs[|codes|] == |data|)
    && (!ok ==> ShortestMatch(css, data[offs[|codes|]..]).None?)
  }

  /** A segment of the scan of `data[k..]` is, shifted by k, a segment of the scan of `data`. */
  lemma SegmentShift(css: seq<Codespace>, data: seq<Byte>, k: nat, codes: seq<CharCode>, offs: seq<nat>,
                     c: CharCode, i: nat)
    requires k <= |data| && i < |codes| && |offs| == |codes| + 1
    requires SegmentAt(css, data[k..], codes, offs, i)
    ensures SegmentAt(css, data, [c] + codes, [0] + Shifted(offs, k), i + 1)
  {
    var offs' := [0] + Shifted(offs, k);
    assert offs'[i + 1] == offs[i] + k && offs'[i + 2] == offs[i + 1] + k;
    assert data[offs'[i + 1]..] == data[k..][offs[i]..];
    assert data[offs'[i + 1]..offs'[i + 2]] == data[k..][offs[i]..offs[i + 1]];
  }

  /**
    Scan cuts `data` into consecutive segments, one per code, each the shortest
    match at its position; it succeeds exactly when the segments cover all of
    `data`, and on failure nothing matches where the segments end.
   */
  lemma {:induction false} ScanSegments(css: seq<Codespace>, data: seq<Byte>)
    ensures Segmentation(css, data, Scan(css, data).0, Scan(css, data).1, ScanOffsets(css, data))
    decreases |data|
  {
    assert data[0..] == data;
    if data != [] {
      var m := MatchCode(css, data);
      ScanStep(css, data, m);
      if m.matched {
        var tail := data[m.n..];
        ScanSegments(css, tail);
        MatchCodeFacts(css, data);
        SegmentationCons(css, data, m.code, m.n, Scan(css, tail).0, Scan(css, tail).1, ScanOffsets(css, tail));
      }
    }
  }

  /** A code read from the first n bytes, a shortest match there, is segment 0. */
  lemma SegmentFirst(css: seq<Codespace>, data: seq<Byte>, n: nat, codes: seq<CharCode>, offs: seq<nat>)
    requires 1 <= n <= MaxCodeLen && n <= |data| && ShortestMatch(css, data).Some?
    requires n == Min(ShortestMatch(css, data).value, |data|)
    requires |codes| >= 1 && codes[0] == BigEndian(data[..n]) && |offs| == |codes| + 1 && offs[0] == 0 && offs[1] == n
    ensures SegmentAt(css, data, codes, offs, 0)
  {
    assert data[offs[0]..offs[1]] == data[..n];
    assert data[offs[0]..] == data;
  }

  /**
    A first code read from the first n bytes, a shortest match there, in front
    of a segmentation of the rest segments the whole.
   */
  lemma SegmentationCons(css: seq<Codespace>, data: seq<Byte>, c: CharCode, n: nat,
                         codes: seq<CharCode>, ok: bool, offs: seq<nat>)
    requires 1 <= n <= MaxCodeLen && n <= |data| && ShortestMatch(css, data).Some?
    requires n == Min(ShortestMatch(css, data).value, |data|)
    requires c == BigEndian(data[..n])
    requires Segmentation(css, data[n..], codes, ok, offs)
    ensures Segmentation(css, data, [c] + codes, ok, [0] + Shifted(offs, n))
  {
    SegmentsCons(css, data, c, n, codes, offs);
    var offs' := [0] + Shifted(offs, n);
    assert data[offs'[|codes| + 1]..] == data[n..][offs[|codes|]..];
  }

  /** The segment part of SegmentationCons: every code of the whole is a segment. */
  lemma SegmentsCons(css: seq<Codespace>, data: seq<Byte>, c: CharCode, n: nat,
                     codes: seq<CharCode>, offs: seq<nat>)
    requires 1 <= n <= MaxCodeLen && n <= |data| && ShortestMatch(css, data).Some?
    requires n == Min(ShortestMatch(css, data).value, |data|)
    requires c == BigEndian(data[..n])
    requires |offs| == |codes| + 1 && offs[0] == 0
    requires forall i: nat :: i < |codes| ==> SegmentAt(css, data[n..], codes, offs, i)
    ensures forall i: nat :: i < |codes| + 1 ==> SegmentAt(css, data, [c] + codes, [0] + Shifted(offs, n), i)
  {
    forall i: nat | i < |codes| + 1
      ensures SegmentAt(css, data, [c] + codes, [0] + Shifted(offs, n), i)
    {
      SegmentAtCons(css, data, c, n, codes, offs, i);
    }
  }

  /** One segment of SegmentsCons: the first code, or a shifted segment of the rest. */
  lemma SegmentAtCons(css: seq<Codespace>, data: seq<Byte>, c: CharCode, n: nat,
                      codes: seq<CharCode>, offs: seq<nat>, i: nat)
    requires 1 <= n <= MaxCodeLen && n <= |data| && ShortestMatch(css, data).Some?
    requires n == Min(ShortestMatch(css, data).value, |data|)
    requires c == BigEndian(data[..n])
    requires |offs| == |codes| + 1 && offs[0] == 0 && i < |codes| + 1
    requires 0 < i ==> SegmentAt(css, data[n..], codes, offs, i - 1)
    ensures SegmentAt(css, data, [c] + codes, [0] + Shifted(offs, n), i)
  {
    if i == 0 {
      SegmentFirst(css, data, n, [c] + codes, [0] + Shifted(offs, n));
    } else {
      SegmentShift(css, data, n, codes, offs, c, i - 1);
    }
  }

  /** One step of Scan on non-empty input. */
  lemma ScanStep(css: seq<Codespace>, data: seq<Byte>, m: Match)
    requires data != [] && m == MatchCode(css, data)
    ensures !m.matched ==> Scan(css, data) == ([], false)
    ensures m.matched ==> (1 <= m.n <= |data|
      && Scan(css, data).0 == [m.code] + Scan(css, data[m.n..]).0
      && Scan(css, data).1 == Scan(css, data[m.n..]).1)
  {
  }

  /** A byte string read as one-byte codes. */
  function ByteCodes(data: seq<Byte>): (codes: seq<CharCode>)
    ensures |codes| == |data|
    ensures forall i :: 0 <= i < |data| ==> codes[i] == data[i]
  {
    seq(|data|, i requires 0 <= i < |data| => data[i] as CharCode)
  }

  /** The codes BytesToCharcodes produces for `cm`, and whether all of `data` matched. */
  function Decoded(cm: CMap, data: seq<Byte>): (seq<CharCode>, bool)
  {
    if cm.nbits == 8 then (ByteCodes(data), true) else Scan(cm.codespaces, data)
  }

  /**
    BytesToCharcodes: simple fonts (nbits 8) take every byte as its own code,
    whatever the codespaces say; otherwise codes are matched against the codespaces.
   */
  method BytesToCharcodes(cm: CMap, data: seq<Byte>) returns (codes: seq<CharCode>, matched: bool)
    ensures cm.nbits == 8 ==>
      (matched && |codes| == |data| && forall i :: 0 <= i < |data| ==> codes[i] == data[i])
    ensures cm.nbits != 8 ==> codes == Scan(cm.codespaces, data).0 && matched == Scan(cm.codespaces, data).1
  {
    if cm.nbits == 8 {
      return ByteCodes(data), true;
    }
    codes, matched := MatchAll(cm.codespaces, data);
  }

  /**
    The codespace loop of BytesToCharcodes. `rest` is the unread suffix
    data[i:]; each matched code advances it by the number of bytes the code read.
   */
  method MatchAll(css: seq<Codespace>, data: seq<Byte>) returns (codes: seq<CharCode>, matched: bool)
    ensures codes == Scan(css, data).0 && matched == Scan(css, data).1
  {
    codes := [];
    var rest := data;
    while rest != []
      invariant Scan(css, data).0 == codes + Scan(css, rest).0
      invariant Scan(css, data).1 == Scan(css, rest).1
      decreases |rest|
    {
      var m := MatchCode(css, rest);
      ScanAdvance(css, rest, codes, m);
      if !m.matched {
        return codes, false;
      }
      codes := codes + [m.code];
      rest := rest[m.n..];
    }
    return codes, true;
  }

  /** One iteration of the loop of MatchAll: what the invariant says after reading one code. */
  lemma ScanAdvance(css: seq<Codespace>, rest: seq<Byte>, codes: seq<CharCode>, m: Match)
    requires rest != [] && m == MatchCode(css, rest)
    ensures !m.matched ==> codes + Scan(css, rest).0 == codes && !Scan(css, rest).1
    ensures m.matched ==> (1 <= m.n <= |rest|
      && codes + Scan(css, rest).0 == (codes + [m.code]) + Scan(css, rest[m.n..]).0
      && Scan(css, rest).1 == Scan(css, rest[m.n..]).1)
  {
    ScanStep(css, rest, m);
    if m.matched {
      var later := Scan(css, rest[m.n..]).0;
      assert codes + ([m.code] + later) == (codes + [m.code]) + later;
    } else {
      assert codes + [] == codes;
    }
  }

  /** The example of a one-byte and a two-byte codespace: 0x41 and 0x80 0x41 decode as expected. */
  lemma MixedWidthExample()
    ensures var css := [Codespace(1, 0x00, 0x7F), Codespace(2, 0x8000, 0xFFFF)];
      && Scan(css, [0x41]).0 == [0x41] && Scan(css, [0x41]).1
      && Scan(css, [0x80, 0x41]).0 == [0x8041] && Scan(css, [0x80, 0x41]).1
  {
    var css := [Codespace(1, 0x00, 0x7F), Codespace(2, 0x8000, 0xFFFF)];
    var d1: seq<Byte> := [0x41];
    assert Prefix(d1, 1) == d1;
    assert BigEndian(d1) == 0x41 by { assert d1[..0] == []; }
    assert MatchesAt(css, d1, 1) by { assert Admits(css[0], 0x41, 1); }
    assert ShortestMatchFrom(css, d1, 1) == Some(1);
    assert ShortestMatch(css, d1) == Some(1);
    var m1 := MatchCode(css, d1);
    assert m1 == Match(0x41, 1, true);
    ScanStep(css, d1, m1);
    assert d1[1..] == [];
    var empty: seq<Byte> := [];
    assert Scan(css, empty) == ([], true);
    assert Scan(css, d1).0 == [0x41] + [];

    var d2: seq<Byte> := [0x80, 0x41];
    assert Prefix(d2, 1) == [0x80];
    assert BigEndian([0x80]) == 0x80 by { assert [0x80][..0] == []; }
    assert !MatchesAt(css, d2, 1);
    assert Prefix(d2, 2) == d2;
    assert d2[..1] == [0x80];
    assert BigEndian(d2) == 0x8041;
    assert MatchesAt(css, d2, 2) by { assert Admits(css[1], 0x8041, 2); }
    assert ShortestMatchFrom(css, d2, 2) == Some(2);
    assert ShortestMatch(css, d2) == Some(2);
    var m2 := MatchCode(css, d2);
    assert m2 == Match(0x8041, 2, true);
    ScanStep(css, d2, m2);
    assert d2[2..] == [];
    assert Scan(css, d2).0 == [0x8041] + [];
  }
}
