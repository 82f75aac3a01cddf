/** `make_coefficient_breakdown`: split the engine's flat `code -> coefficient`
    table into labelled interaction, condition (HCC) and demographic groups.

    The interaction and condition groups are chosen by the interaction flags
    and the condition list. Their codes are then deleted, in place, from the
    caller's coefficient dict, and whatever is left there becomes the
    demographic group. */
module CoefficientBreakdown {
  import opened Json
  import opened Labels
  import opened Seqs

  /** One labelled coefficient of the interaction or the demographic group. */
  datatype Entry = Entry(code: string, labelText: string, coefficient: Value)

  /** One labelled condition coefficient, with the diagnosis source behind it. */
  datatype HccEntry = HccEntry(code: string, dx: Value, labelText: string, coefficient: Value)

  datatype Breakdown = Breakdown(interactions: seq<Entry>, hcc: seq<HccEntry>, demographics: seq<Entry>)

  function Codes(es: seq<Entry>): seq<string> {
    if es == [] then [] else Codes(es[..|es| - 1]) + [es[|es| - 1].code]
  }

  function HccCodes(es: seq<HccEntry>): seq<string> {
    if es == [] then [] else HccCodes(es[..|es| - 1]) + [es[|es| - 1].code]
  }

  lemma CodesSnoc(es: seq<Entry>, e: Entry)
    ensures Codes(es + [e]) == Codes(es) + [e.code]
  {
    assert (es + [e])[..|es|] == es;
  }

  lemma HccCodesSnoc(es: seq<HccEntry>, e: HccEntry)
    ensures HccCodes(es + [e]) == HccCodes(es) + [e.code]
  {
    assert (es + [e])[..|es|] == es;
  }

  /** A dict with string keys: its keys in insertion order, and the value
      stored under each. */
  predicate ValidTable(keys: seq<string>, values: map<string, Value>) {
    Distinct(keys) && values.Keys == Elems(keys)
  }

  // ---------------------------------------------------------------------
  // The three groups, as functions of the inputs

  /** Interaction entries: each flag equal to 1 whose code has a
      coefficient, in the order of the flags. */
  function InteractionEntries(flags: seq<(string, Value)>, c: map<string, Value>): seq<Entry>
    decreases |flags|
  {
    if flags == [] then []
    else
      var rest := InteractionEntries(flags[..|flags| - 1], c);
      var key := flags[|flags| - 1].0;
      if EqualsOne(flags[|flags| - 1].1) && key in c
      then rest + [Entry(key, Label(Interaction, key), c[key])]
      else rest
  }

  /** `cc_to_dx.get(code, "Unidentified Diagnosis Code")` */
  function DxSource(ccToDx: map<string, Value>, code: string): Value {
    if code in ccToDx then ccToDx[code] else Str(UNKNOWN_DX)
  }

  /** Condition entries: each element of the condition list that has a
      coefficient, in list order, repeats included. */
  function HccEntries(hccs: seq<string>, c: map<string, Value>, ccToDx: map<string, Value>): seq<HccEntry>
    decreases |hccs|
  {
    if hccs == [] then []
    else
      var rest := HccEntries(hccs[..|hccs| - 1], c, ccToDx);
      var hcc := hccs[|hccs| - 1];
      if hcc in c
      then rest + [HccEntry(hcc, DxSource(ccToDx, hcc), Label(Hcc, hcc), c[hcc])]
      else rest
  }

  /** Demographic entries: one per key, in the given order. */
  function DemographicEntries(keys: seq<string>, c: map<string, Value>): seq<Entry>
    requires Elems(keys) <= c.Keys
    decreases |keys|
  {
    if keys == [] then []
    else
      var key := keys[|keys| - 1];
      DemographicEntries(keys[..|keys| - 1], c) + [Entry(key, Label(Demographic, key), c[key])]
  }

  /** `key_list`: the interaction codes, then the condition codes, emitted. */
  function KeyList(flags: seq<(string, Value)>, c: map<string, Value>, hccs: seq<string>): seq<string> {
    Codes(InteractionEntries(flags, c)) + HccCodes(HccEntries(hccs, c, map[]))
  }

  /** The whole breakdown, for a coefficient dict with keys `keys` (in
      insertion order) and values `c`, before any deletion. */
  function Classify(flags: seq<(string, Value)>, keys: seq<string>, c: map<string, Value>,
                    hccs: seq<string>, ccToDx: map<string, Value>): Breakdown
    requires ValidTable(keys, c)
  {
    var gone := Elems(KeyList(flags, c, hccs));
    Breakdown(InteractionEntries(flags, c), HccEntries(hccs, c, ccToDx),
              DemographicEntries(Without(keys, gone), c - gone))
  }

  // ---------------------------------------------------------------------
  // The caller's coefficient dict, updated in place

  class CoefficientTable {
    var keys: seq<string>
    var values: map<string, Value>

    ghost predicate Valid()
      reads this
    {
      ValidTable(keys, values)
    }

    /** A dict built from its entries, in order. */
    constructor FromEntries(es: seq<(string, Value)>)
      requires DistinctKeys(es)
      ensures Valid() && keys == Keys(es) && values == ToMap(es)
    {
      keys := Keys(es);
      values := ToMap(es);
    }

    /** `del d[k]`: the key leaves the dict and the order of the others is kept. */
    method Delete(k: string)
      requires Valid() && k in values
      modifies this
      ensures Valid()
      ensures keys == Without(old(keys), {k}) && values == old(values) - {k}
    {
      WithoutKeepsDistinct(keys, {k});
      keys := Without(keys, {k});
      values := values - {k};
    }
  }

  /** The first loop of `make_coefficient_breakdown`: the interactions
      flagged as present (exactly 1) that have a coefficient, and the codes
      it records in `key_list`. */
  method CollectInteractions(interactions: seq<(string, Value)>, coefficients: CoefficientTable)
    returns (entries: seq<Entry>, recorded: seq<string>)
    ensures entries == InteractionEntries(interactions, coefficients.values)
    ensures recorded == Codes(entries)
  {
    entries, recorded := [], [];
    var i := 0;
    while i < |interactions|
      invariant 0 <= i <= |interactions|
      invariant entries == InteractionEntries(interactions[..i], coefficients.values)
      invariant recorded == Codes(entries)
    {
      assert interactions[..i + 1][..i] == interactions[..i];
      var key := interactions[i].0;
      if EqualsOne(interactions[i].1) {
        if key in coefficients.values {
          var e := Entry(key, Label(Interaction, key), coefficients.values[key]);
          CodesSnoc(entries, e);
          entries := entries + [e];
          recorded := recorded + [key];
        }
      }
      i := i + 1;
    }
    assert interactions[..i] == interactions;
  }

  /** The second loop: the conditions of the condition list that have a
      coefficient, and the codes it records in `key_list`. */
  method CollectHccs(hccList: seq<string>, coefficients: CoefficientTable, ccToDx: map<string, Value>)
    returns (entries: seq<HccEntry>, recorded: seq<string>)
    ensures entries == HccEntries(hccList, coefficients.values, ccToDx)
    ensures recorded == HccCodes(entries)
  {
    entries, recorded := [], [];
    var h := 0;
    while h < |hccList|
      invariant 0 <= h <= |hccList|
      invariant entries == HccEntries(hccList[..h], coefficients.values, ccToDx)
      invariant recorded == HccCodes(entries)
    {
      assert hccList[..h + 1][..h] == hccList[..h];
      var hcc := hccList[h];
      if hcc in coefficients.values {
        var e := HccEntry(hcc, DxSource(ccToDx, hcc), Label(Hcc, hcc), coefficients.values[hcc]);
        HccCodesSnoc(entries, e);
        entries := entries + [e];
        recorded := recorded + [hcc];
      }
      h := h + 1;
    }
    assert hccList[..h] == hccList;
  }

  /** The third loop: delete every recorded key that is still present. A
      key recorded twice is deleted once; the guard keeps the second
      deletion from failing. */
  method DeleteRecorded(coefficients: CoefficientTable, keyList: seq<string>)
    requires coefficients.Valid()
    requires Elems(keyList) <= coefficients.values.Keys
    modifies coefficients
    ensures coefficients.Valid()
    ensures coefficients.keys == Without(old(coefficients.keys), Elems(keyList))
    ensures coefficients.values == old(coefficients.values) - Elems(keyList)
  {
    ghost var k0, c0 := coefficients.keys, coefficients.values;
    WithoutNothing(k0);
    var j := 0;
    assert Elems(keyList[..j]) == {};
    while j < |keyList|
      invariant 0 <= j <= |keyList|
      invariant coefficients.Valid()
      invariant coefficients.keys == Without(k0, Elems(keyList[..j]))
      invariant coefficients.values == c0 - Elems(keyList[..j])
    {
      var key := keyList[j];
      assert Elems(keyList[..j + 1]) == Elems(keyList[..j]) + {key} by {
        assert keyList[..j + 1] == keyList[..j] + [key];
      }
      if key in coefficients.values {
        WithoutWithout(k0, Elems(keyList[..j]), {key});
        coefficients.Delete(key);
      } else {
        assert key in Elems(keyList) && key in c0;
        assert key in Elems(keyList[..j]);
        assert Elems(keyList[..j + 1]) == Elems(keyList[..j]);
      }
      j := j + 1;
    }
    assert keyList[..j] == keyList;
  }

  /** The fourth loop: one demographic entry per key left, in dict order. */
  method CollectDemographics(coefficients: CoefficientTable) returns (entries: seq<Entry>)
    requires coefficients.Valid()
    ensures entries == DemographicEntries(coefficients.keys, coefficients.values)
  {
    entries := [];
    var remaining := coefficients.keys;
    var t := 0;
    while t < |remaining|
      invariant 0 <= t <= |remaining|
      invariant entries == DemographicEntries(remaining[..t], coefficients.values)
    {
      assert remaining[..t + 1][..t] == remaining[..t];
      var key := remaining[t];
      entries := entries + [Entry(key, Label(Demographic, key), coefficients.values[key])];
      t := t + 1;
    }
    assert remaining[..t] == remaining;
  }

  /** `make_coefficient_breakdown`. The groups are those `Classify` gives for
      the dict as it was on entry; on exit the dict has lost exactly the keys
      emitted as interaction or condition entries, and the others keep their
      values and their order. */
  method MakeCoefficientBreakdown(interactions: seq<(string, Value)>, coefficients: CoefficientTable,
                                  hccList: seq<string>, ccToDx: map<string, Value>)
    returns (b: Breakdown)
    requires coefficients.Valid()
    modifies coefficients
    ensures coefficients.Valid()
    ensures b == Classify(interactions, old(coefficients.keys), old(coefficients.values), hccList, ccToDx)
    ensures var gone := Elems(KeyList(interactions, old(coefficients.values), hccList));
            coefficients.keys == Without(old(coefficients.keys), gone)
            && coefficients.values == old(coefficients.values) - gone
  {
    var interactionEntries, interactionKeys := CollectInteractions(interactions, coefficients);
    var hccEntries, hccKeys := CollectHccs(hccList, coefficients, ccToDx);
    var keyList := interactionKeys + hccKeys;
    HccCodesIgnoreDx(hccList, coefficients.values, ccToDx, map[]);
    KeyListPresent(interactions, coefficients.values, hccList);
    DeleteRecorded(coefficients, keyList);
    var demographicEntries := CollectDemographics(coefficients);
    b := Breakdown(interactionEntries, hccEntries, demographicEntries);
  }

  // ---------------------------------------------------------------------
  // What the groups contain

  /** The diagnosis sources do not influence which conditions are emitted. */
  lemma {:induction false} HccCodesIgnoreDx(hccs: seq<string>, c: map<string, Value>,
                                            dx1: map<string, Value>, dx2: map<string, Value>)
    ensures HccCodes(HccEntries(hccs, c, dx1)) == HccCodes(HccEntries(hccs, c, dx2))
  {
    if hccs != [] {
      var init := hccs[..|hccs| - 1];
      var hcc := hccs[|hccs| - 1];
      HccCodesIgnoreDx(init, c, dx1, dx2);
      if hcc in c {
        HccCodesSnoc(HccEntries(init, c, dx1), HccEntry(hcc, DxSource(dx1, hcc), Label(Hcc, hcc), c[hcc]));
        HccCodesSnoc(HccEntries(init, c, dx2), HccEntry(hcc, DxSource(dx2, hcc), Label(Hcc, hcc), c[hcc]));
      }
    }
  }

  /** Every interaction entry copies the coefficient of its code unchanged
      and carries the interaction label, or its fallback. */
  lemma {:induction false} InteractionEntryContent(flags: seq<(string, Value)>, c: map<string, Value>, k: nat)
    requires k < |InteractionEntries(flags, c)|
    ensures var e := InteractionEntries(flags, c)[k];
            e.code in c && e.coefficient == c[e.code] && e.labelText == Label(Interaction, e.code)
    decreases |flags|
  {
    var init := flags[..|flags| - 1];
    if k < |InteractionEntries(init, c)| {
      InteractionEntryContent(init, c, k);
    }
  }

  /** A code has an interaction entry exactly when some flag for it equals 1
      and the code has a coefficient. */
  lemma {:induction false} InteractionSelection(flags: seq<(string, Value)>, c: map<string, Value>, code: string)
    ensures code in Codes(InteractionEntries(flags, c))
            <==> code in c && exists i :: 0 <= i < |flags| && flags[i].0 == code && EqualsOne(flags[i].1)
    decreases |flags|
  {
    if flags != [] {
      var init := flags[..|flags| - 1];
      var last := flags[|flags| - 1];
      InteractionSelection(init, c, code);
      var rest := InteractionEntries(init, c);
      if EqualsOne(last.1) && last.0 in c {
        CodesSnoc(rest, Entry(last.0, Label(Interaction, last.0), c[last.0]));
      }
      if code in c && exists i :: 0 <= i < |flags| && flags[i].0 == code && EqualsOne(flags[i].1) {
        var i :| 0 <= i < |flags| && flags[i].0 == code && EqualsOne(flags[i].1);
        if i < |flags| - 1 {
          assert init[i] == flags[i];
        }
      }
    }
  }

  /** Interaction entries follow the order of the flags. */
  lemma {:induction false} InteractionOrder(flags: seq<(string, Value)>, c: map<string, Value>)
    ensures IsSubsequence(Codes(InteractionEntries(flags, c)), Keys(flags))
    decreases |flags|
  {
    if flags != [] {
      var init := flags[..|flags| - 1];
      var last := flags[|flags| - 1];
      var rest := InteractionEntries(init, c);
      InteractionOrder(init, c);
      assert Keys(flags) == Keys(init) + [last.0];
      if EqualsOne(last.1) && last.0 in c {
        CodesSnoc(rest, Entry(last.0, Label(Interaction, last.0), c[last.0]));
        SubsequenceAppend(Codes(rest), Keys(init), last.0);
      } else {
        SubsequenceExtend(Codes(rest), Keys(init), last.0);
      }
    }
  }

  /** Since the flags come from a dict, no code has two interaction entries. */
  lemma InteractionCodesDistinct(flags: seq<(string, Value)>, c: map<string, Value>)
    requires DistinctKeys(flags)
    ensures Distinct(Codes(InteractionEntries(flags, c)))
  {
    InteractionOrder(flags, c);
    SubsequenceKeepsDistinct(Codes(InteractionEntries(flags, c)), Keys(flags));
  }

  /** Every condition entry copies the coefficient of its code unchanged and
      carries the diagnosis source and the condition label, or their
      fallbacks. */
  lemma {:induction false} HccEntryContent(hccs: seq<string>, c: map<string, Value>, ccToDx: map<string, Value>, k: nat)
    requires k < |HccEntries(hccs, c, ccToDx)|
    ensures var e := HccEntries(hccs, c, ccToDx)[k];
            && e.code in c && e.coefficient == c[e.code]
            && e.dx == DxSource(ccToDx, e.code) && e.labelText == Label(Hcc, e.code)
    decreases |hccs|
  {
    var init := hccs[..|hccs| - 1];
    if k < |HccEntries(init, c, ccToDx)| {
      HccEntryContent(init, c, ccToDx, k);
    }
  }

  /** A condition is emitted once for each time it occurs in the condition
      list when it has a coefficient, and never when it has none. */
  lemma {:induction false} HccMultiplicity(hccs: seq<string>, c: map<string, Value>, ccToDx: map<string, Value>, code: string)
    ensures multiset(HccCodes(HccEntries(hccs, c, ccToDx)))[code]
            == if code in c then multiset(hccs)[code] else 0
    decreases |hccs|
  {
    if hccs != [] {
      var init := hccs[..|hccs| - 1];
      var hcc := hccs[|hccs| - 1];
      assert hccs == init + [hcc];
      HccMultiplicity(init, c, ccToDx, code);
      if hcc in c {
        HccCodesSnoc(HccEntries(init, c, ccToDx), HccEntry(hcc, DxSource(ccToDx, hcc), Label(Hcc, hcc), c[hcc]));
      }
    }
  }

  /** Condition entries follow the order of the condition list. */
  lemma {:induction false} HccOrder(hccs: seq<string>, c: map<string, Value>, ccToDx: map<string, Value>)
    ensures IsSubsequence(HccCodes(HccEntries(hccs, c, ccToDx)), hccs)
    decreases |hccs|
  {
    if hccs != [] {
      var init := hccs[..|hccs| - 1];
      var hcc := hccs[|hccs| - 1];
      var rest := HccEntries(init, c, ccToDx);
      assert hccs == init + [hcc];
      HccOrder(init, c, ccToDx);
      if hcc in c {
        HccCodesSnoc(rest, HccEntry(hcc, DxSource(ccToDx, hcc), Label(Hcc, hcc), c[hcc]));
        SubsequenceAppend(HccCodes(rest), init, hcc);
      } else {
        SubsequenceExtend(HccCodes(rest), init, hcc);
      }
    }
  }

  /** Every code in `key_list` is a key of the coefficient dict, so the only
      reason for a key to be missing when it is deleted is that it was
      already deleted: it occurs twice in `key_list`. */
  lemma KeyListPresent(flags: seq<(string, Value)>, c: map<string, Value>, hccs: seq<string>)
    ensures Elems(KeyList(flags, c, hccs)) <= c.Keys
  {
    forall code | code in KeyList(flags, c, hccs) ensures code in c {
      if code in Codes(InteractionEntries(flags, c)) {
        InteractionSelection(flags, c, code);
      } else {
        HccMultiplicity(hccs, c, map[], code);
      }
    }
  }

  lemma {:induction false} DemographicCodes(keys: seq<string>, c: map<string, Value>)
    requires Elems(keys) <= c.Keys
    ensures Codes(DemographicEntries(keys, c)) == keys
    decreases |keys|
  {
    if keys != [] {
      var init := keys[..|keys| - 1];
      var key := keys[|keys| - 1];
      DemographicCodes(init, c);
      CodesSnoc(DemographicEntries(init, c), Entry(key, Label(Demographic, key), c[key]));
    }
  }

  lemma {:induction false} DemographicEntryContent(keys: seq<string>, c: map<string, Value>, k: nat)
    requires Elems(keys) <= c.Keys
    requires k < |DemographicEntries(keys, c)|
    ensures var e := DemographicEntries(keys, c)[k];
            e.code in c && e.coefficient == c[e.code] && e.labelText == Label(Demographic, e.code)
    decreases |keys|
  {
    var init := keys[..|keys| - 1];
    assert Elems(init) <= Elems(keys);
    if k < |DemographicEntries(init, c)| {
      DemographicEntryContent(init, c, k);
    }
  }

  /** The codes removed from the dict are the interaction and condition codes. */
  lemma GoneIsEmitted(flags: seq<(string, Value)>, c: map<string, Value>,
                      hccs: seq<string>, ccToDx: map<string, Value>)
    ensures Elems(KeyList(flags, c, hccs))
            == Elems(Codes(InteractionEntries(flags, c))) + Elems(HccCodes(HccEntries(hccs, c, ccToDx)))
  {
    HccCodesIgnoreDx(hccs, c, ccToDx, map[]);
  }

  /** The groups cover the coefficient dict: every key is emitted as an
      interaction, a condition or a demographic, and a demographic code is
      never also an interaction or a condition. */
  lemma ClassifyPartition(flags: seq<(string, Value)>, keys: seq<string>, c: map<string, Value>,
                          hccs: seq<string>, ccToDx: map<string, Value>)
    requires ValidTable(keys, c)
    ensures var b := Classify(flags, keys, c, hccs, ccToDx);
            var emitted := Elems(Codes(b.interactions)) + Elems(HccCodes(b.hcc));
            var demo := Elems(Codes(b.demographics));
            emitted + demo == c.Keys && demo !! emitted
  {
    var gone := Elems(KeyList(flags, c, hccs));
    var left := Without(keys, gone);
    KeyListPresent(flags, c, hccs);
    GoneIsEmitted(flags, c, hccs, ccToDx);
    DemographicCodes(left, c - gone);
    assert Elems(left) == c.Keys - gone;
  }

  /** Demographic entries follow the dict's insertion order, each key once,
      and carry the original coefficient with the demographic label or its
      fallback. */
  lemma ClassifyDemographics(flags: seq<(string, Value)>, keys: seq<string>, c: map<string, Value>,
                             hccs: seq<string>, ccToDx: map<string, Value>)
    requires ValidTable(keys, c)
    ensures var demo := Classify(flags, keys, c, hccs, ccToDx).demographics;
            && Distinct(Codes(demo))
            && IsSubsequence(Codes(demo), keys)
            && forall k :: 0 <= k < |demo| ==>
                 demo[k].code in c && demo[k].coefficient == c[demo[k].code]
                 && demo[k].labelText == Label(Demographic, demo[k].code)
  {
    var gone := Elems(KeyList(flags, c, hccs));
    var left := Without(keys, gone);
    var demo := DemographicEntries(left, c - gone);
    DemographicCodes(left, c - gone);
    WithoutKeepsDistinct(keys, gone);
    WithoutIsSubsequence(keys, gone);
    forall k | 0 <= k < |demo|
      ensures demo[k].code in c && demo[k].coefficient == c[demo[k].code]
              && demo[k].labelText == Label(Demographic, demo[k].code)
    {
      DemographicEntryContent(left, c - gone, k);
    }
  }

  /** Every entry of every group carries the coefficient its code has in the
      dict, unchanged. */
  lemma ClassifyCopiesCoefficients(flags: seq<(string, Value)>, keys: seq<string>, c: map<string, Value>,
                                   hccs: seq<string>, ccToDx: map<string, Value>)
    requires ValidTable(keys, c)
    ensures var b := Classify(flags, keys, c, hccs, ccToDx);
            && (forall k :: 0 <= k < |b.interactions| ==>
                  b.interactions[k].code in c && b.interactions[k].coefficient == c[b.interactions[k].code])
            && (forall k :: 0 <= k < |b.hcc| ==>
                  b.hcc[k].code in c && b.hcc[k].coefficient == c[b.hcc[k].code])
            && (forall k :: 0 <= k < |b.demographics| ==>
                  b.demographics[k].code in c && b.demographics[k].coefficient == c[b.demographics[k].code])
  {
    var b := Classify(flags, keys, c, hccs, ccToDx);
    forall k | 0 <= k < |b.interactions|
      ensures b.interactions[k].code in c && b.interactions[k].coefficient == c[b.interactions[k].code]
    {
      InteractionEntryContent(flags, c, k);
    }
    forall k | 0 <= k < |b.hcc|
      ensures b.hcc[k].code in c && b.hcc[k].coefficient == c[b.hcc[k].code]
    {
      HccEntryContent(hccs, c, ccToDx, k);
    }
    ClassifyDemographics(flags, keys, c, hccs, ccToDx);
  }

  /** The interaction and condition groups are not checked against each
      other: a code flagged as an interaction and also listed as a condition
      appears in both groups and is recorded at least twice in `key_list`. */
  lemma InteractionAndHccMayShareCode(flags: seq<(string, Value)>, c: map<string, Value>,
                                      hccs: seq<string>, code: string, i: nat)
    requires i < |flags| && flags[i].0 == code && EqualsOne(flags[i].1)
    requires code in c && code in hccs
    ensures code in Codes(InteractionEntries(flags, c))
    ensures code in HccCodes(HccEntries(hccs, c, map[]))
    ensures multiset(KeyList(flags, c, hccs))[code] >= 2
  {
    InteractionSelection(flags, c, code);
    HccMultiplicity(hccs, c, map[], code);
    assert multiset(KeyList(flags, c, hccs)) ==
           multiset(Codes(InteractionEntries(flags, c))) + multiset(HccCodes(HccEntries(hccs, c, map[])));
  }
}
