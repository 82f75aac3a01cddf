/** The values that flow through the formatting layer: the engine's result and
    the pieces of it that are turned into a serialisable tree.

    A Python dict is kept as its list of entries in insertion order, because
    the order in which a dict is iterated decides the order of the groups
    built from it. A set is kept as its elements in iteration order. A
    structured record (a Pydantic model) is kept as the list of fields its
    dump produces. */
module Json {
  import opened Wrappers

  datatype Value =
    | Null
    | Bool(b: bool)
    | Int(i: int)
    | Num(r: real)
    | Str(s: string)
    | List(items: seq<Value>)
    | Set(elems: seq<Value>)
    | Dict(entries: seq<(string, Value)>)
    | Model(fields: seq<(string, Value)>)

  /** The keys of a list of dict entries, in order. */
  function Keys(es: seq<(string, Value)>): (ks: seq<string>)
    ensures |ks| == |es|
    ensures forall i :: 0 <= i < |es| ==> ks[i] == es[i].0
  {
    seq(|es|, i requires 0 <= i < |es| => es[i].0)
  }

  predicate DistinctKeys(es: seq<(string, Value)>) {
    forall i, j :: 0 <= i < j < |es| ==> es[i].0 != es[j].0
  }

  /** Every dict and every record in the tree has distinct keys, as every
      Python dict does. */
  predicate WellFormed(v: Value)
    decreases v
  {
    match v
    case List(items) => forall i :: 0 <= i < |items| ==> WellFormed(items[i])
    case Set(elems) => forall i :: 0 <= i < |elems| ==> WellFormed(elems[i])
    case Dict(es) => DistinctKeys(es) && forall i :: 0 <= i < |es| ==> WellFormed(es[i].1)
    case Model(fs) => DistinctKeys(fs) && forall i :: 0 <= i < |fs| ==> WellFormed(fs[i].1)
    case _ => true
  }

  /** The dict a list of entries denotes: `d[k]` is the value stored under `k`. */
  function ToMap(es: seq<(string, Value)>): (m: map<string, Value>)
    ensures m.Keys == set i | 0 <= i < |es| :: es[i].0
  {
    if es == [] then map[]
    else ToMap(es[..|es| - 1])[es[|es| - 1].0 := es[|es| - 1].1]
  }

  lemma {:induction false} ToMapAt(es: seq<(string, Value)>, i: nat)
    requires DistinctKeys(es) && i < |es|
    ensures es[i].0 in ToMap(es) && ToMap(es)[es[i].0] == es[i].1
  {
    if i < |es| - 1 {
      ToMapAt(es[..|es| - 1], i);
    }
  }

  /** Python's `value == 1`: true for the integer 1, the float 1.0 and True
      (a bool is an int in Python), false for anything else. */
  predicate EqualsOne(v: Value) {
    match v
    case Int(i) => i == 1
    case Num(r) => r == 1.0
    case Bool(b) => b
    case _ => false
  }

  /** A value in the shape the sanitiser produces: no set and no record
      anywhere along the chain of nested dicts. Lists are not looked into,
      since the sanitiser does not look into them either. */
  predicate Sanitized(v: Value)
    decreases v
  {
    match v
    case Set(_) => false
    case Model(_) => false
    case Dict(es) => forall i :: 0 <= i < |es| ==> Sanitized(es[i].1)
    case _ => true
  }

  /** `sanitize_for_JSON`: a dict is rebuilt key by key with every value
      sanitised, a record becomes a dict of its sanitised fields, a set
      becomes a list of its elements, and anything else (a list included) is
      returned as it is. */
  function Sanitize(v: Value): (r: Value)
    decreases v
    ensures Sanitized(r)
    ensures WellFormed(v) ==> WellFormed(r)
    ensures v.Dict? ==> r.Dict? && Keys(r.entries) == Keys(v.entries)
    ensures v.Model? ==> r.Dict? && Keys(r.entries) == Keys(v.fields)
    ensures v.Set? ==> r == List(v.elems)
    ensures !v.Dict? && !v.Model? && !v.Set? ==> r == v
  {
    match v
    case Dict(es) => Dict(seq(|es|, i requires 0 <= i < |es| => (es[i].0, Sanitize(es[i].1))))
    case Model(fs) => Dict(seq(|fs|, i requires 0 <= i < |fs| => (fs[i].0, Sanitize(fs[i].1))))
    case Set(xs) => List(xs)
    case _ => v
  }

  /** A value already in sanitised shape is left exactly as it is. */
  lemma {:induction false} SanitizeKeepsSanitized(v: Value)
    requires Sanitized(v)
    ensures Sanitize(v) == v
    decreases v
  {
    match v
    case Dict(es) =>
      forall i | 0 <= i < |es|
        ensures Sanitize(es[i].1) == es[i].1
      {
        SanitizeKeepsSanitized(es[i].1);
      }
      assert Sanitize(v).entries == es;
    case _ =>
  }

  /** Sanitising twice is the same as sanitising once. */
  lemma SanitizeIdempotent(v: Value)
    ensures Sanitize(Sanitize(v)) == Sanitize(v)
  {
    SanitizeKeepsSanitized(Sanitize(v));
  }

  /** Looking a key up in a sanitised dict gives the sanitised value stored
      under that key in the original, and only the original's keys are
      present. (A record's fields are rebuilt by the same code.) */
  lemma SanitizeLookup(es: seq<(string, Value)>, k: string)
    requires DistinctKeys(es)
    ensures k in ToMap(Sanitize(Dict(es)).entries) <==> k in ToMap(es)
    ensures k in ToMap(es) ==> ToMap(Sanitize(Dict(es)).entries)[k] == Sanitize(ToMap(es)[k])
  {
    var r := Sanitize(Dict(es)).entries;
    assert Keys(r) == Keys(es);
    assert DistinctKeys(r) by {
      forall i, j | 0 <= i < j < |r| ensures r[i].0 != r[j].0 {
        assert r[i].0 == Keys(r)[i] && r[j].0 == Keys(r)[j];
      }
    }
    if k in ToMap(es) {
      var i :| 0 <= i < |es| && es[i].0 == k;
      ToMapAt(es, i);
      ToMapAt(r, i);
    }
    if k in ToMap(r) {
      var i :| 0 <= i < |r| && r[i].0 == k;
      assert Keys(r)[i] == Keys(es)[i];
    }
  }
}
