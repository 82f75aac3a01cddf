/** `format_response`: sanitise the engine's result, then assemble the score
    and the three labelled coefficient groups into a new response. */
module Response {
  import opened Wrappers
  import opened Json
  import opened Seqs
  import opened CoefficientBreakdown

  /** Why a result cannot be formatted; each stands for the Python exception
      the same input raises. */
  datatype FormatError =
    | NotADict                  // the sanitised result cannot be indexed by key
    | MissingKey(key: string)   // KeyError
    | NotANumber(key: string)   // round() of something that is not a number
    | BadShape(key: string)     // a field of another container type than the breakdown uses

  /** The formatted response. `score` is the engine's total score; the two
      score fields of the response are computed from it by rounding and by
      dividing by the normalisation factor, in floating point. */
  datatype Response = Response(score: Value, breakdown: Breakdown)

  /** The fields `format_response` reads from the sanitised result. */
  datatype Fields = Fields(score: Value, interactions: seq<(string, Value)>,
                           coefficients: seq<(string, Value)>, hccList: seq<string>,
                           ccToDx: map<string, Value>)

  /** What Python's `round` accepts: an int, a float or a bool. */
  predicate IsNumber(v: Value) {
    v.Int? || v.Num? || v.Bool?
  }

  /** The strings of a list whose every element is a string. */
  function AsStrings(items: seq<Value>): (r: Option<seq<string>>)
    ensures r.Some? <==> forall i :: 0 <= i < |items| ==> items[i].Str?
    ensures r.Some? ==> |r.value| == |items| && forall i :: 0 <= i < |items| ==> items[i] == Str(r.value[i])
    decreases |items|
  {
    if items == [] then Some([])
    else match (AsStrings(items[..|items| - 1]), items[|items| - 1])
      case (Some(init), Str(s)) => Some(init + [s])
      case _ => None
  }

  lemma {:induction false} WellFormedLookup(es: seq<(string, Value)>, k: string)
    requires WellFormed(Dict(es)) && k in ToMap(es)
    ensures WellFormed(ToMap(es)[k])
  {
    var i :| 0 <= i < |es| && es[i].0 == k;
    ToMapAt(es, i);
  }

  /** Read the fields out of the sanitised result, in the order Python
      evaluates `raf_response[...]`: the score first, then the four
      arguments of the breakdown. */
  function ReadFields(s: Value): (r: Result<Fields, FormatError>)
    requires WellFormed(s)
    ensures r.Ok? ==> DistinctKeys(r.value.coefficients) && DistinctKeys(r.value.interactions)
  {
    if !s.Dict? then Err(NotADict)
    else
      var d := ToMap(s.entries);
      if "risk_score" !in d then Err(MissingKey("risk_score"))
      else if !IsNumber(d["risk_score"]) then Err(NotANumber("risk_score"))
      else if "interactions" !in d then Err(MissingKey("interactions"))
      else if "coefficients" !in d then Err(MissingKey("coefficients"))
      else if "hcc_list" !in d then Err(MissingKey("hcc_list"))
      else if "cc_to_dx" !in d then Err(MissingKey("cc_to_dx"))
      else if !d["interactions"].Dict? then Err(BadShape("interactions"))
      else if !d["coefficients"].Dict? then Err(BadShape("coefficients"))
      else if !d["hcc_list"].List? || AsStrings(d["hcc_list"].items).None? then Err(BadShape("hcc_list"))
      else if !d["cc_to_dx"].Dict? then Err(BadShape("cc_to_dx"))
      else
        WellFormedLookup(s.entries, "interactions");
        WellFormedLookup(s.entries, "coefficients");
        Ok(Fields(d["risk_score"], d["interactions"].entries, d["coefficients"].entries,
                  AsStrings(d["hcc_list"].items).value, ToMap(d["cc_to_dx"].entries)))
  }

  lemma TableOfEntries(es: seq<(string, Value)>)
    requires DistinctKeys(es)
    ensures ValidTable(Keys(es), ToMap(es))
  {
    assert Elems(Keys(es)) == ToMap(es).Keys by {
      forall k ensures k in Elems(Keys(es)) <==> k in ToMap(es) {
        if k in Keys(es) {
          var i :| 0 <= i < |es| && Keys(es)[i] == k;
        }
      }
    }
  }

  /** The response `format_response` builds, or the error it raises. */
  function Format(raw: Value): Result<Response, FormatError>
    requires WellFormed(raw)
  {
    match ReadFields(Sanitize(raw))
    case Err(e) => Err(e)
    case Ok(f) =>
      TableOfEntries(f.coefficients);
      Ok(Response(f.score, Classify(f.interactions, Keys(f.coefficients), ToMap(f.coefficients),
                                    f.hccList, f.ccToDx)))
  }

  /** `format_response`. The breakdown deletes from a coefficient dict
      built here from the sanitised result. */
  method FormatResponse(raw: Value) returns (r: Result<Response, FormatError>)
    requires WellFormed(raw)
    ensures r == Format(raw)
  {
    var sanitized := Sanitize(raw);
    var fields := ReadFields(sanitized);
    if fields.Err? {
      return Err(fields.error);
    }
    var f := fields.value;
    var table := new CoefficientTable.FromEntries(f.coefficients);
    var b := MakeCoefficientBreakdown(f.interactions, table, f.hccList, f.ccToDx);
    r := Ok(Response(f.score, b));
  }

  /** In a formatted response every coefficient key of the result is in at
      least one group, a demographic code is in no other group, and every
      entry carries its coefficient unchanged. A key can still be in both the
      interaction and the condition group, and a condition repeated in
      `hcc_list` is emitted once per occurrence. */
  lemma FormatAccountsForCoefficients(raw: Value)
    requires WellFormed(raw)
    ensures match Format(raw)
            case Err(_) => true
            case Ok(resp) =>
              var b := resp.breakdown;
              var c := ToMap(ReadFields(Sanitize(raw)).value.coefficients);
              && Elems(Codes(b.interactions)) + Elems(HccCodes(b.hcc)) + Elems(Codes(b.demographics)) == c.Keys
              && Elems(Codes(b.demographics)) !! Elems(Codes(b.interactions)) + Elems(HccCodes(b.hcc))
              && (forall k :: 0 <= k < |b.interactions| ==>
                    b.interactions[k].code in c && b.interactions[k].coefficient == c[b.interactions[k].code])
              && (forall k :: 0 <= k < |b.hcc| ==>
                    b.hcc[k].code in c && b.hcc[k].coefficient == c[b.hcc[k].code])
              && (forall k :: 0 <= k < |b.demographics| ==>
                    b.demographics[k].code in c && b.demographics[k].coefficient == c[b.demographics[k].code])
  {
    match ReadFields(Sanitize(raw))
    case Err(_) =>
    case Ok(f) =>
      TableOfEntries(f.coefficients);
      var keys, c := Keys(f.coefficients), ToMap(f.coefficients);
      ClassifyPartition(f.interactions, keys, c, f.hccList, f.ccToDx);
      ClassifyCopiesCoefficients(f.interactions, keys, c, f.hccList, f.ccToDx);
  }
}
