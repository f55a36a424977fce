/**
  Building CMaps: newCMap, NewToUnicodeCMap, the check that follows parsing in
  LoadCmapFromData, and the usecmap merge of LoadPredefinedCMap. The CMap
  grammar interpreter and the bundled asset store are parameters.
 */
module Loader {
  import opened CMapTypes
  import opened Inverse
  import opened Codespaces

  /** The CMap grammar interpreter: the fields it writes, or its error message. */
  type Parser = seq<Byte> -> Result<ParsedCMap, string>

  /** The bundled CMap files, by name. */
  type AssetStore = string -> Option<seq<Byte>>

  /** Code width of a fresh CMap: 8 bits for simple fonts, 16 for CID fonts. */
  function NBits(isSimple: bool): int
  {
    if isSimple then 8 else 16
  }

  /** newCMap, then the parser's writes into it. The inverse tables stay empty. */
  function Populate(isSimple: bool, p: ParsedCMap): (r: CMap)
    ensures Carries(r, isSimple, p) && r.codespaces == p.codespaces
    ensures r.cidToCode == map[] && r.unicodeToCode == map[]
  {
    CMap(p.name, NBits(isSimple), p.ctype, p.version, p.usecmap, p.systemInfo,
         p.codespaces, p.codeToCID, map[], p.codeToUnicode, map[])
  }

  /** The descriptive fields of `cm` are those the parser read, and its width is the one asked for. */
  predicate SameHeader(cm: CMap, isSimple: bool, p: ParsedCMap)
  {
    && cm.name == p.name
    && cm.nbits == NBits(isSimple)
    && cm.ctype == p.ctype
    && cm.version == p.version
    && cm.usecmap == p.usecmap
    && cm.systemInfo == p.systemInfo
  }

  /** `cm` holds what the parser read: the same fields, tables and codespaces, the latter in any order. */
  predicate Carries(cm: CMap, isSimple: bool, p: ParsedCMap)
  {
    && SameHeader(cm, isSimple, p)
    && multiset(cm.codespaces) == multiset(p.codespaces)
    && cm.codeToCID == p.codeToCID
    && cm.codeToUnicode == p.codeToUnicode
  }

  /** Each inverse table is either still empty or already the inverse of its forward table. */
  predicate InversesSound(cm: CMap)
  {
    && (cm.cidToCode == map[] || IsInverse(cm.codeToCID, cm.cidToCode))
    && (cm.unicodeToCode == map[] || IsInverse(cm.codeToUnicode, cm.unicodeToCode))
  }

  /**
    The outcome of parsing data into a CMap: a parse error, ErrBadCMap when
    there are neither codespaces nor a base CMap, or the parsed fields.
   */
  function Outcome(parsed: Result<ParsedCMap, string>): Result<ParsedCMap, CMapError>
  {
    match parsed
    case Failure(msg) => Failure(ParseError(msg))
    case Success(p) =>
      if p.codespaces == [] && p.usecmap == "" then Failure(ErrBadCMap) else Success(p)
  }

  /**
    LoadCmapFromData: fails as Outcome says; a CMap without codespaces that
    names a base CMap is returned as parsed, with empty inverse tables; any
    other CMap is returned finalised.
   */
  method LoadCmapFromData(data: seq<Byte>, isSimple: bool, parse: Parser) returns (r: Result<CMap, CMapError>)
    ensures Outcome(parse(data)).Failure? ==> r == Failure(Outcome(parse(data)).error)
    ensures Outcome(parse(data)).Success? ==>
      var p := Outcome(parse(data)).value;
      && r.Success?
      && Carries(r.value, isSimple, p)
      && (p.codespaces == [] ==> r.value.cidToCode == map[] && r.value.unicodeToCode == map[])
      && (p.codespaces != [] ==> Finalized(r.value))
  {
    var parsed := parse(data);
    if parsed.Failure? {
      return Failure(ParseError(parsed.error));
    }
    var cm := Populate(isSimple, parsed.value);
    if cm.codespaces == [] {
      if cm.usecmap != "" {
        return Success(cm);
      }
      return Failure(ErrBadCMap);
    }
    cm := ComputeInverseMappings(cm);
    InverseFromEmpty(cm.codeToCID, cm.cidToCode);
    InverseFromEmpty(cm.codeToUnicode, cm.unicodeToCode);
    return Success(cm);
  }

  /** loadPredefinedCMap's outcome: the asset is missing, or the outcome of parsing it. */
  function Predefined(assets: AssetStore, parse: Parser, name: string): Result<ParsedCMap, CMapError>
  {
    match assets(name)
    case None => Failure(AssetNotFound(name))
    case Some(data) => Outcome(parse(data))
  }

  /** loadPredefinedCMap: the named asset parsed as a CID CMap. */
  method LoadAsset(name: string, assets: AssetStore, parse: Parser) returns (r: Result<CMap, CMapError>)
    ensures Predefined(assets, parse, name).Failure? ==> r == Failure(Predefined(assets, parse, name).error)
    ensures Predefined(assets, parse, name).Success? ==>
      && r.Success?
      && Carries(r.value, false, Predefined(assets, parse, name).value)
      && InversesSound(r.value)
  {
    var data := assets(name);
    if data.None? {
      return Failure(AssetNotFound(name));
    }
    r := LoadCmapFromData(data.value, false, parse);
  }

  /**
    The CID merge of LoadPredefinedCMap: every entry of `child` is kept, and an
    entry of `base` is added exactly when its code is not in `child`. Go visits
    `base` in no fixed order; each step here picks any entry not yet visited.
   */
  method MergeBaseCIDs(child: map<CharCode, CharCode>, base: map<CharCode, CharCode>) returns (merged: map<CharCode, CharCode>)
    ensures merged.Keys == child.Keys + base.Keys
    ensures forall c :: c in child ==> merged[c] == child[c]
    ensures forall c :: c in base && c !in child ==> merged[c] == base[c]
    ensures merged == base + child
  {
    merged := child;
    var todo := base.Keys;
    while todo != {}
      invariant todo <= base.Keys
      invariant merged.Keys == child.Keys + (base.Keys - todo)
      invariant forall c :: c in child ==> merged[c] == child[c]
      invariant forall c :: c in base - todo && c !in child ==> merged[c] == base[c]
      decreases todo
    {
      var code :| code in todo;
      if code !in merged {
        merged := merged[code := base[code]];
      }
      todo := todo - {code};
    }
  }

  /**
    LoadPredefinedCMap: loads the named CMap; without a base it is finalised
    as loaded. With a base, the base is loaded too, its CIDs are merged under
    the child's and its codespaces appended to the child's, and the result is
    finalised. A failure of either load is passed on.
   */
  method LoadPredefinedCMap(name: string, assets: AssetStore, parse: Parser) returns (r: Result<CMap, CMapError>)
    ensures Predefined(assets, parse, name).Failure? ==> r == Failure(Predefined(assets, parse, name).error)
    ensures Predefined(assets, parse, name).Success? && Predefined(assets, parse, name).value.usecmap == "" ==>
      && r.Success?
      && Finalized(r.value)
      && Carries(r.value, false, Predefined(assets, parse, name).value)
    ensures Predefined(assets, parse, name).Success? && Predefined(assets, parse, name).value.usecmap != "" ==>
      var child := Predefined(assets, parse, name).value;
      var base := Predefined(assets, parse, child.usecmap);
      && (base.Failure? ==> r == Failure(base.error))
      && (base.Success? ==>
        && r.Success?
        && Finalized(r.value)
        && SameHeader(r.value, false, child)
        && multiset(r.value.codespaces) == multiset(child.codespaces + base.value.codespaces)
        && r.value.codeToCID == base.value.codeToCID + child.codeToCID
        && r.value.codeToUnicode == child.codeToUnicode)
  {
    var loaded := LoadAsset(name, assets, parse);
    if loaded.Failure? {
      return loaded;
    }
    var cm := loaded.value;
    if cm.usecmap == "" {
      var fin := ComputeInverseMappings(cm);
      ReinvertSound(cm.codeToCID, cm.codeToCID, cm.cidToCode, fin.cidToCode);
      ReinvertSound(cm.codeToUnicode, cm.codeToUnicode, cm.unicodeToCode, fin.unicodeToCode);
      return Success(fin);
    }
    var base := LoadAsset(cm.usecmap, assets, parse);
    if base.Failure? {
      return Failure(base.error);
    }
    var cids := MergeBaseCIDs(cm.codeToCID, base.value.codeToCID);
    var grown := cm.(codeToCID := cids, codespaces := cm.codespaces + base.value.codespaces);
    var fin := ComputeInverseMappings(grown);
    ReinvertSound(cm.codeToCID, grown.codeToCID, cm.cidToCode, fin.cidToCode);
    ReinvertSound(cm.codeToUnicode, grown.codeToUnicode, cm.unicodeToCode, fin.unicodeToCode);
    return Success(fin);
  }

  /**
    NewToUnicodeCMap: the identity ToUnicode CMap "Adobe-Identity-UCS" over
    the given table, finalised. Its one codespace leaves the byte count at 0.
   */
  method NewToUnicodeCMap(codeToUnicode: map<CharCode, Rune>) returns (cm: CMap)
    ensures cm.name == "Adobe-Identity-UCS" && cm.ctype == 2 && cm.nbits == 16
    ensures cm.systemInfo == CIDSystemInfo("Adobe", "UCS", 0)
    ensures cm.version == "" && cm.usecmap == ""
    ensures cm.codespaces == [Codespace(0, 0, 0xFFFF)]
    ensures cm.codeToCID == map[] && cm.cidToCode == map[]
    ensures cm.codeToUnicode == codeToUnicode
    ensures Finalized(cm)
  {
    cm := CMap("Adobe-Identity-UCS", 16, 2, "", "", CIDSystemInfo("Adobe", "UCS", 0),
               [Codespace(0, 0, 0xFFFF)], map[], map[], codeToUnicode, map[]);
    cm := ComputeInverseMappings(cm);
    InverseFromEmpty(cm.codeToCID, cm.cidToCode);
    InverseFromEmpty(cm.codeToUnicode, cm.unicodeToCode);
    assert cm.codespaces == [Codespace(0, 0, 0xFFFF)] by {
      assert |cm.codespaces| == 1 && cm.codespaces[0] in multiset(cm.codespaces);
    }
  }

  /**
    A codespace that admits no code length, like the one NewToUnicodeCMap
    builds, makes every non-empty byte string undecodable on the 16-bit path.
   */
  lemma ToUnicodeCMapMatchesNothing(cm: CMap, data: seq<Byte>)
    requires cm.nbits == 16 && cm.codespaces == [Codespace(0, 0, 0xFFFF)]
    requires data != []
    ensures Decoded(cm, data).0 == [] && !Decoded(cm, data).1
  {
    var m := MatchCode(cm.codespaces, data);
    MatchCodeFacts(cm.codespaces, data);
    ScanStep(cm.codespaces, data, m);
  }
}
