/**
  The lookups of a CMap: code to CID, CID to code, code to Unicode, Unicode to
  code, and the conversion of a whole byte string to Unicode text.
 */
module Lookup {
  import opened CMapTypes
  import opened Inverse
  import opened Codespaces

  /** A Go map lookup `v, ok := m[k]`: the zero value and false when `k` is absent. */
  function Get<V>(m: map<CharCode, V>, k: CharCode, zero: V): (r: (V, bool))
    ensures r.1 <==> k in m
    ensures r.1 ==> r.0 == m[k]
    ensures !r.1 ==> r.0 == zero
  {
    if k in m then (m[k], true) else (zero, false)
  }

  /** CharcodeToUnicode: the rune of `code`, or U+FFFD and false when the code is unmapped. */
  function CharcodeToUnicode(cm: CMap, code: CharCode): (r: (Rune, bool))
    ensures r.1 <==> code in cm.codeToUnicode
    ensures r.1 ==> r.0 == cm.codeToUnicode[code]
    ensures !r.1 ==> r.0 == MissingCodeRune
  {
    Get(cm.codeToUnicode, code, MissingCodeRune)
  }

  /** CharcodeToCID: the CID of `code`, or 0 and false. */
  function CharcodeToCID(cm: CMap, code: CharCode): (r: (CharCode, bool))
    ensures r.1 <==> code in cm.codeToCID
    ensures r.1 ==> r.0 == cm.codeToCID[code]
    ensures !r.1 ==> r.0 == 0
  {
    Get(cm.codeToCID, code, 0)
  }

  /** CIDToCharcode: the code recorded for `cid` in the CID-to-code table, or 0 and false. */
  function CIDToCharcode(cm: CMap, cid: CharCode): (r: (CharCode, bool))
    ensures r.1 <==> cid in cm.cidToCode
    ensures r.1 ==> r.0 == cm.cidToCode[cid]
    ensures !r.1 ==> r.0 == 0
  {
    if cid in cm.cidToCode then (cm.cidToCode[cid], true) else (0, false)
  }

  /** RuneToCID: the code recorded for rune `u` in the Unicode-to-code table, or 0 and false. */
  function RuneToCID(cm: CMap, u: Rune): (r: (CharCode, bool))
    ensures r.1 <==> u in cm.unicodeToCode
    ensures r.1 ==> r.0 == cm.unicodeToCode[u]
    ensures !r.1 ==> r.0 == 0
  {
    if u in cm.unicodeToCode then (cm.unicodeToCode[u], true) else (0, false)
  }

  /**
    On a finalised CMap, a CID can be looked up backwards exactly when some code
    maps to it, and the code found is the smallest such code.
   */
  lemma CIDToCharcodeInverts(cm: CMap, cid: CharCode)
    requires Finalized(cm)
    ensures CIDToCharcode(cm, cid).1 <==> exists code :: CharcodeToCID(cm, code) == (cid, true)
    ensures CIDToCharcode(cm, cid).1 ==>
      var code := CIDToCharcode(cm, cid).0;
      && CharcodeToCID(cm, code) == (cid, true)
      && forall other :: CharcodeToCID(cm, other) == (cid, true) ==> code <= other
  {
    if cid in cm.cidToCode {
      assert IsMinPreimage(cm.codeToCID, cid, cm.cidToCode[cid]);
      assert CharcodeToCID(cm, cm.cidToCode[cid]) == (cid, true);
    }
    if exists code :: CharcodeToCID(cm, code) == (cid, true) {
      var code :| CharcodeToCID(cm, code) == (cid, true);
      assert cid in cm.codeToCID.Values;
    }
  }

  /** Looking a code up forwards and then its CID backwards gives a code no larger, with the same CID. */
  lemma CIDRoundTrip(cm: CMap, code: CharCode)
    requires Finalized(cm)
    requires CharcodeToCID(cm, code).1
    ensures var cid := CharcodeToCID(cm, code).0;
      && CIDToCharcode(cm, cid).1
      && CIDToCharcode(cm, cid).0 <= code
      && CharcodeToCID(cm, CIDToCharcode(cm, cid).0) == (cid, true)
  {
    CIDToCharcodeInverts(cm, CharcodeToCID(cm, code).0);
  }

  /**
    On a finalised CMap, a rune can be looked up backwards exactly when some
    code maps to it, and the code found is the smallest such code.
   */
  lemma RuneToCIDInverts(cm: CMap, u: Rune)
    requires Finalized(cm)
    ensures RuneToCID(cm, u).1 <==> exists code :: CharcodeToUnicode(cm, code) == (u, true)
    ensures RuneToCID(cm, u).1 ==>
      var code := RuneToCID(cm, u).0;
      && CharcodeToUnicode(cm, code) == (u, true)
      && forall other :: CharcodeToUnicode(cm, other) == (u, true) ==> code <= other
  {
    if u in cm.unicodeToCode {
      assert IsMinPreimage(cm.codeToUnicode, u, cm.unicodeToCode[u]);
      assert CharcodeToUnicode(cm, cm.unicodeToCode[u]) == (u, true);
    }
    if exists code :: CharcodeToUnicode(cm, code) == (u, true) {
      var code :| CharcodeToUnicode(cm, code) == (u, true);
      assert u in cm.codeToUnicode.Values;
    }
  }

  /**
    Go's conversion string([]rune): a rune that is not a Unicode scalar value
    (negative, a surrogate, or above U+10FFFF) becomes U+FFFD.
   */
  function StringRune(u: Rune): (s: Rune)
    ensures 0 <= s <= 0x10FFFF && !(0xD800 <= s < 0xE000)
    ensures s == u || s == 0xFFFD
    ensures 0 <= u < 0xD800 || 0xE000 <= u <= 0x10FFFF ==> s == u
  {
    if 0 <= u < 0xD800 || 0xE000 <= u <= 0x10FFFF then u else 0xFFFD
  }

  /** The number of codes in `codes` that `t` does not map. */
  function CountAbsent<V>(codes: seq<CharCode>, t: map<CharCode, V>): (k: nat)
    ensures k <= |codes|
  {
    if codes == [] then 0
    else CountAbsent(codes[..|codes| - 1], t) + if codes[|codes| - 1] in t then 0 else 1
  }

  /** No code is counted exactly when all are mapped; every code is counted exactly when none is. */
  lemma {:induction false} CountAbsentExtremes<V>(codes: seq<CharCode>, t: map<CharCode, V>)
    ensures CountAbsent(codes, t) == 0 <==> forall i :: 0 <= i < |codes| ==> codes[i] in t
    ensures CountAbsent(codes, t) == |codes| <==> forall i :: 0 <= i < |codes| ==> codes[i] !in t
  {
    if codes != [] {
      var init := codes[..|codes| - 1];
      CountAbsentExtremes(init, t);
      assert forall i :: 0 <= i < |init| ==> init[i] == codes[i];
    }
  }

  /** Extending a prefix by one code adds one to the count exactly when that code is unmapped. */
  lemma CountAbsentSnoc<V>(codes: seq<CharCode>, k: nat, t: map<CharCode, V>)
    requires k < |codes|
    ensures CountAbsent(codes[..k + 1], t) == CountAbsent(codes[..k], t) + if codes[k] in t then 0 else 1
  {
    assert codes[..k + 1][..k] == codes[..k];
  }

  /**
    CharcodeBytesToUnicode: ("", 0) unless the bytes decode completely; otherwise
    one character per decoded code, U+FFFD for each code with no Unicode mapping,
    and the number of such codes.
   */
  method CharcodeBytesToUnicode(cm: CMap, data: seq<Byte>) returns (text: seq<Rune>, missing: nat)
    ensures !Decoded(cm, data).1 ==> text == [] && missing == 0
    ensures Decoded(cm, data).1 ==>
      var codes := Decoded(cm, data).0;
      && |text| == |codes|
      && (forall i :: 0 <= i < |codes| ==> text[i] == StringRune(CharcodeToUnicode(cm, codes[i]).0))
      && missing == CountAbsent(codes, cm.codeToUnicode)
  {
    var codes, matched := BytesToCharcodes(cm, data);
    if cm.nbits == 8 {
      assert codes == ByteCodes(data);
    }
    if !matched {
      return [], 0;
    }
    var parts;
    parts, missing := RunesOf(cm, codes);
    text := seq(|parts|, i requires 0 <= i < |parts| => StringRune(parts[i]));
  }

  /** The loop of CharcodeBytesToUnicode: one rune per code, and the count of unmapped codes. */
  method RunesOf(cm: CMap, codes: seq<CharCode>) returns (parts: seq<Rune>, missing: nat)
    ensures |parts| == |codes|
    ensures forall i :: 0 <= i < |codes| ==> parts[i] == CharcodeToUnicode(cm, codes[i]).0
    ensures missing == CountAbsent(codes, cm.codeToUnicode)
  {
    parts := [];
    missing := 0;
    for k := 0 to |codes|
      invariant |parts| == k
      invariant forall i :: 0 <= i < k ==> parts[i] == CharcodeToUnicode(cm, codes[i]).0
      invariant missing == CountAbsent(codes[..k], cm.codeToUnicode)
    {
      CountAbsentSnoc(codes, k, cm.codeToUnicode);
      var (r, ok) := CharcodeToUnicode(cm, codes[k]);
      if !ok {
        missing := missing + 1;
      }
      parts := parts + [r];
    }
    assert codes[..|codes|] == codes;
  }
}
