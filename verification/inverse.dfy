/**
  Finalisation of a CMap (computeInverseMappings): the CID-to-code and
  Unicode-to-code tables are derived from the forward tables, keeping for every
  value the smallest code that maps to it, and the codespaces are sorted by
  their low bound.
 */
module Inverse {
  import opened CMapTypes

  /** `c` is the smallest code that `t` maps to `v`. */
  predicate IsMinPreimage<V(==)>(t: map<CharCode, V>, v: V, c: CharCode)
  {
    c in t && t[c] == v && forall c' :: c' in t && t[c'] == v ==> c <= c'
  }

  /** `inv` maps every value of `t`, and nothing else, to its smallest preimage. */
  predicate IsInverse<V(==)>(t: map<CharCode, V>, inv: map<V, CharCode>)
  {
    inv.Keys == t.Values && forall v :: v in inv ==> IsMinPreimage(t, v, inv[v])
  }

  /**
    What the inversion loop leaves when it starts from the table `inv0` rather
    than from an empty one: every value keeps the smaller of its old entry and
    its smallest preimage in `t`.
   */
  predicate InverseFrom<V(==)>(t: map<CharCode, V>, inv0: map<V, CharCode>, inv: map<V, CharCode>)
  {
    && inv.Keys == inv0.Keys + t.Values
    && (forall v :: v in inv && v in inv0 ==> inv[v] <= inv0[v])
    && (forall v, c :: v in inv && c in t && t[c] == v ==> inv[v] <= c)
    && (forall v :: v in inv ==> (v in inv0 && inv[v] == inv0[v]) || (inv[v] in t && t[inv[v]] == v))
  }

  /**
    One inversion loop of computeInverseMappings. Go visits the entries of a map
    in no fixed order; here each step picks any entry not yet visited, so the
    contract holds whatever order the entries are visited in.
   */
  method ComputeInverse<V(==)>(t: map<CharCode, V>, inv0: map<V, CharCode>) returns (inv: map<V, CharCode>)
    ensures InverseFrom(t, inv0, inv)
  {
    inv := inv0;
    var todo := t.Keys;
    ghost var done: map<CharCode, V> := map[];
    while todo != {}
      invariant todo <= t.Keys
      invariant done.Keys == t.Keys - todo
      invariant forall c :: c in done ==> done[c] == t[c]
      invariant InverseFrom(done, inv0, inv)
      decreases todo
    {
      var code :| code in todo;
      var v := t[code];
      InverseStep(done, inv0, inv, code, v);
      if v !in inv || inv[v] > code {
        inv := inv[v := code];
      }
      done := done[code := v];
      todo := todo - {code};
    }
    assert done == t;
  }

  /** Visiting one more entry (code, v) keeps the smaller of the old entry for v and code. */
  lemma InverseStep<V>(done: map<CharCode, V>, inv0: map<V, CharCode>, inv: map<V, CharCode>, code: CharCode, v: V)
    requires InverseFrom(done, inv0, inv) && code !in done
    ensures InverseFrom(done[code := v], inv0, if v !in inv || inv[v] > code then inv[v := code] else inv)
  {
    ValuesOfUpdate(done, code, v);
  }

  /** Adding a fresh key adds its value to the values of a map. */
  lemma ValuesOfUpdate<V>(done: map<CharCode, V>, code: CharCode, v: V)
    requires code !in done
    ensures done[code := v].Values == done.Values + {v}
  {
    var done' := done[code := v];
    forall w | w in done'.Values
      ensures w in done.Values + {v}
    {
      var c :| c in done' && done'[c] == w;
      if c != code {
        assert done[c] == w;
      }
    }
    forall w | w in done.Values
      ensures w in done'.Values
    {
      var c :| c in done && done[c] == w;
      assert done'[c] == w;
    }
    assert done'[code] == v;
  }

  /** Starting from empty tables, the loop produces exactly the minimum-preimage inverse. */
  lemma InverseFromEmpty<V>(t: map<CharCode, V>, inv: map<V, CharCode>)
    requires InverseFrom(t, map[], inv)
    ensures IsInverse(t, inv)
  {
    forall v | v in inv
      ensures IsMinPreimage(t, v, inv[v])
    {
    }
  }

  /** The minimum-preimage inverse of a table is unique: the result does not depend on the visiting order. */
  lemma InverseUnique<V>(t: map<CharCode, V>, a: map<V, CharCode>, b: map<V, CharCode>)
    requires IsInverse(t, a) && IsInverse(t, b)
    ensures a == b
  {
    forall v | v in a
      ensures a[v] == b[v]
    {
      assert IsMinPreimage(t, v, a[v]) && IsMinPreimage(t, v, b[v]);
    }
  }

  /**
    Running the loop again, after the table grew from `sub` to `t`, starting
    from the inverse of `sub`, gives the inverse of `t`. This is why finalising a
    CMap twice (before and after the usecmap merge) is harmless.
   */
  lemma ReinvertAfterGrowth<V>(sub: map<CharCode, V>, t: map<CharCode, V>, inv0: map<V, CharCode>, inv: map<V, CharCode>)
    requires forall c :: c in sub ==> c in t && t[c] == sub[c]
    requires IsInverse(sub, inv0)
    requires InverseFrom(t, inv0, inv)
    ensures IsInverse(t, inv)
  {
    assert inv0.Keys <= t.Values by {
      forall v | v in inv0
        ensures v in t.Values
      {
        assert IsMinPreimage(sub, v, inv0[v]);
        assert t[inv0[v]] == v;
      }
    }
    forall v | v in inv
      ensures IsMinPreimage(t, v, inv[v])
    {
      if v in inv0 && inv[v] == inv0[v] {
        assert IsMinPreimage(sub, v, inv0[v]);
      }
    }
  }

  /**
    The same, where the starting table may also be empty: the inverse of the
    grown table results either way.
   */
  lemma ReinvertSound<V>(sub: map<CharCode, V>, t: map<CharCode, V>, inv0: map<V, CharCode>, inv: map<V, CharCode>)
    requires forall c :: c in sub ==> c in t && t[c] == sub[c]
    requires inv0 == map[] || IsInverse(sub, inv0)
    requires InverseFrom(t, inv0, inv)
    ensures IsInverse(t, inv)
  {
    if inv0 == map[] {
      InverseFromEmpty(t, inv);
    } else {
      ReinvertAfterGrowth(sub, t, inv0, inv);
    }
  }

  /** The codespaces are in ascending order of their low bound. */
  predicate SortedByLow(s: seq<Codespace>)
  {
    forall i, j :: 0 <= i < j < |s| ==> s[i].low <= s[j].low
  }

  /** Inserts `c` into a sorted sequence of codespaces. */
  function InsertByLow(c: Codespace, s: seq<Codespace>): (r: seq<Codespace>)
    requires SortedByLow(s)
    ensures SortedByLow(r)
    ensures multiset(r) == multiset(s) + multiset{c}
  {
    if s == [] || c.low <= s[0].low then [c] + s
    else
      var tail := InsertByLow(c, s[1..]);
      InsertBehindHead(s, c, tail);
      [s[0]] + tail
  }

  /** Putting the head of `s` in front of the insertion into its tail keeps the order. */
  lemma InsertBehindHead(s: seq<Codespace>, c: Codespace, tail: seq<Codespace>)
    requires s != [] && SortedByLow(s) && s[0].low < c.low
    requires SortedByLow(tail) && multiset(tail) == multiset(s[1..]) + multiset{c}
    ensures SortedByLow([s[0]] + tail)
    ensures multiset([s[0]] + tail) == multiset(s) + multiset{c}
  {
    assert s == [s[0]] + s[1..];
    forall i | 0 <= i < |tail|
      ensures s[0].low <= tail[i].low
    {
      assert tail[i] in multiset(tail);
      if tail[i] != c {
        assert tail[i] in multiset(s[1..]);
      }
    }
  }

  /**
    The codespace sort of computeInverseMappings. Go's sort.Slice is not stable,
    so what is promised is only a permutation in ascending order of `low`.
   */
  function SortByLow(s: seq<Codespace>): (r: seq<Codespace>)
    ensures SortedByLow(r)
    ensures multiset(r) == multiset(s)
  {
    if s == [] then []
    else
      assert s == [s[0]] + s[1..];
      InsertByLow(s[0], SortByLow(s[1..]))
  }

  /** The CMap has been finalised: both inverse tables derived and the codespaces sorted. */
  predicate Finalized(cm: CMap)
  {
    && IsInverse(cm.codeToCID, cm.cidToCode)
    && IsInverse(cm.codeToUnicode, cm.unicodeToCode)
    && SortedByLow(cm.codespaces)
  }

  /**
    computeInverseMappings: derives the two inverse tables on top of what they
    already hold, and sorts the codespaces; every other field is left as it was.
   */
  method ComputeInverseMappings(cm: CMap) returns (r: CMap)
    ensures r == cm.(cidToCode := r.cidToCode, unicodeToCode := r.unicodeToCode, codespaces := r.codespaces)
    ensures InverseFrom(cm.codeToCID, cm.cidToCode, r.cidToCode)
    ensures InverseFrom(cm.codeToUnicode, cm.unicodeToCode, r.unicodeToCode)
    ensures multiset(r.codespaces) == multiset(cm.codespaces) && SortedByLow(r.codespaces)
  {
    var cidToCode := ComputeInverse(cm.codeToCID, cm.cidToCode);
    var unicodeToCode := ComputeInverse(cm.codeToUnicode, cm.unicodeToCode);
    r := cm.(cidToCode := cidToCode, unicodeToCode := unicodeToCode, codespaces := SortByLow(cm.codespaces));
  }
}
