/** A .NET `Dictionary<string, string>` that is only ever added to or
    overwritten, never shrunk: such a dictionary enumerates its keys in the
    order they were first added, so the model keeps that order beside the
    mapping. */
module OrderedDict {

  datatype Dict = Dict(keys: seq<string>, values: map<string, string>)

  const EmptyDict: Dict := Dict([], map[])

  /** No element occurs twice. */
  predicate Distinct<T(==)>(xs: seq<T>)
  {
    forall i, j :: 0 <= i < j < |xs| ==> xs[i] != xs[j]
  }

  /** A sequence with one more element has no repeats exactly when the
      shorter one has none and does not hold the new element. */
  lemma DistinctSnoc<T>(xs: seq<T>, x: T)
    ensures Distinct(xs + [x]) <==> Distinct(xs) && x !in xs
  {
    var ys := xs + [x];
    if Distinct(ys) {
      forall i, j | 0 <= i < j < |xs|
        ensures xs[i] != xs[j]
      {
        assert ys[i] == xs[i] && ys[j] == xs[j];
      }
      forall i | 0 <= i < |xs|
        ensures xs[i] != x
      {
        assert ys[i] == xs[i] && ys[|xs|] == x;
      }
    }
  }

  /** The key order lists every key once, and nothing else. */
  predicate WellFormedDict(d: Dict)
  {
    && Distinct(d.keys)
    && (forall k :: k in d.values ==> k in d.keys)
    && (forall k :: k in d.keys ==> k in d.values)
  }

  /** Dictionary.Add for a key that is not present: the key goes last. */
  function Insert(d: Dict, k: string, v: string): (r: Dict)
    requires WellFormedDict(d) && k !in d.values
    ensures WellFormedDict(r)
    ensures r.keys == d.keys + [k] && r.values == d.values[k := v]
  {
    Dict(d.keys + [k], d.values[k := v])
  }

  /** `d[k] = v` for a key that is present: the order is kept. */
  function Overwrite(d: Dict, k: string, v: string): (r: Dict)
    requires WellFormedDict(d) && k in d.values
    ensures WellFormedDict(r)
    ensures r.keys == d.keys && r.values == d.values[k := v]
  {
    Dict(d.keys, d.values[k := v])
  }

  /** The elements of `xs` in the order of their first occurrence. */
  function Dedup(xs: seq<string>): seq<string>
  {
    if xs == [] then []
    else
      var p := Dedup(xs[..|xs| - 1]);
      if xs[|xs| - 1] in p then p else p + [xs[|xs| - 1]]
  }

  /** Dedup keeps every element, once. */
  lemma {:induction false} DedupSpec(xs: seq<string>)
    ensures Distinct(Dedup(xs))
    ensures forall x :: x in Dedup(xs) <==> x in xs
  {
    if xs != [] {
      var init := xs[..|xs| - 1];
      DedupSpec(init);
      forall x
        ensures x in xs <==> x in init || x == xs[|xs| - 1]
      {
        if x in xs {
          var i :| 0 <= i < |xs| && xs[i] == x;
          if i < |xs| - 1 {
            assert init[i] == x;
          }
        }
      }
    }
  }
}
