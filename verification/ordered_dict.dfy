/** Python's `dict` as the readers use it: insertion-ordered entries with
    distinct keys; assigning to a key that is already present replaces its
    value and keeps its position, assigning a new key appends it. */
module OrderedDict {
  import opened Wrappers

  /** Keys are Python ints: camera and image ids. */
  datatype Dict<V> = Dict(entries: seq<(int, V)>)

  function Empty<V>(): Dict<V> {
    Dict([])
  }

  /** The keys in iteration order. */
  function KeysOf<V>(ps: seq<(int, V)>): (ks: seq<int>)
    ensures |ks| == |ps| && forall i :: 0 <= i < |ps| ==> ks[i] == ps[i].0
  {
    if ps == [] then [] else [ps[0].0] + KeysOf(ps[1..])
  }

  function Keys<V>(d: Dict<V>): seq<int> {
    KeysOf(d.entries)
  }

  predicate Distinct(ks: seq<int>) {
    forall i, j :: 0 <= i < j < |ks| ==> ks[i] != ks[j]
  }

  /** No key occurs twice. */
  predicate Valid<V>(d: Dict<V>) {
    Distinct(Keys(d))
  }

  /** `len(d)`. */
  function Size<V>(d: Dict<V>): nat {
    |d.entries|
  }

  /** Position of the first occurrence of `k`. */
  function IndexOf(ks: seq<int>, k: int): (i: nat)
    requires k in ks
    ensures i < |ks| && ks[i] == k
    ensures forall j :: 0 <= j < i ==> ks[j] != k
  {
    if ks[0] == k then 0 else 1 + IndexOf(ks[1..], k)
  }

  lemma IndexOfUnique(ks: seq<int>, k: int, i: nat)
    requires i < |ks| && ks[i] == k
    requires forall j :: 0 <= j < i ==> ks[j] != k
    ensures IndexOf(ks, k) == i
  {
    var f := IndexOf(ks, k);
    assert !(f < i) && !(i < f);
  }

  /** `d.get(k)`. */
  function Get<V>(d: Dict<V>, k: int): (r: Option<V>)
    ensures r.None? <==> k !in Keys(d)
  {
    if k in Keys(d) then Some(d.entries[IndexOf(Keys(d), k)].1) else None
  }

  /** `d[k] = v`. */
  function Put<V>(d: Dict<V>, k: int, v: V): (r: Dict<V>)
    ensures Valid(d) ==> Valid(r)
    ensures Get(r, k) == Some(v)
    ensures forall j :: j != k ==> Get(r, j) == Get(d, j)
    ensures k in Keys(d) ==> Keys(r) == Keys(d)
    ensures k !in Keys(d) ==> Keys(r) == Keys(d) + [k]
  {
    var r := if k in Keys(d) then Dict(d.entries[IndexOf(Keys(d), k) := (k, v)])
             else Dict(d.entries + [(k, v)]);
    PutFacts(d, k, v, r);
    r
  }

  lemma PutFacts<V>(d: Dict<V>, k: int, v: V, r: Dict<V>)
    requires r == if k in Keys(d) then Dict(d.entries[IndexOf(Keys(d), k) := (k, v)])
                  else Dict(d.entries + [(k, v)])
    ensures Valid(d) ==> Valid(r)
    ensures Get(r, k) == Some(v)
    ensures forall j :: j != k ==> Get(r, j) == Get(d, j)
    ensures k in Keys(d) ==> Keys(r) == Keys(d)
    ensures k !in Keys(d) ==> Keys(r) == Keys(d) + [k]
  {
    var kd := Keys(d);
    var kr := Keys(r);
    if k in kd {
      var i := IndexOf(kd, k);
      assert kr == kd;
      IndexOfUnique(kr, k, i);
    } else {
      assert kr == kd + [k];
      IndexOfUnique(kr, k, |kd|);
      forall j | j != k && j in kd
        ensures IndexOf(kr, j) == IndexOf(kd, j)
      {
        IndexOfUnique(kr, j, IndexOf(kd, j));
      }
    }
  }

  /** Assigning the pairs one after another, starting from `d`. */
  function PutAll<V>(d: Dict<V>, ps: seq<(int, V)>): Dict<V>
    decreases |ps|
  {
    if ps == [] then d else PutAll(Put(d, ps[0].0, ps[0].1), ps[1..])
  }

  /** The dict a reader builds by assigning the pairs in order. */
  function FromPairs<V>(ps: seq<(int, V)>): Dict<V> {
    PutAll(Empty(), ps)
  }

  lemma {:induction false} PutAllSnoc<V>(d: Dict<V>, ps: seq<(int, V)>, p: (int, V))
    ensures PutAll(d, ps + [p]) == Put(PutAll(d, ps), p.0, p.1)
    decreases |ps|
  {
    if ps != [] {
      assert (ps + [p])[1..] == ps[1..] + [p];
      PutAllSnoc(Put(d, ps[0].0, ps[0].1), ps[1..], p);
    }
  }

  lemma {:induction false} PutAllAppend<V>(d: Dict<V>, ps: seq<(int, V)>, qs: seq<(int, V)>)
    ensures PutAll(d, ps + qs) == PutAll(PutAll(d, ps), qs)
    decreases |ps|
  {
    if ps != [] {
      assert (ps + qs)[1..] == ps[1..] + qs;
      PutAllAppend(Put(d, ps[0].0, ps[0].1), ps[1..], qs);
    } else {
      assert ps + qs == qs;
    }
  }

  /** The value of the last pair with key `k`, if any: a reference meaning
      for "later duplicates overwrite earlier ones". */
  function LastValue<V>(ps: seq<(int, V)>, k: int): Option<V>
    decreases |ps|
  {
    if ps == [] then None
    else if ps[|ps| - 1].0 == k then Some(ps[|ps| - 1].1)
    else LastValue(ps[..|ps| - 1], k)
  }

  /** The keys in order of first occurrence: a reference meaning for "a
      re-assigned key keeps its place". */
  function FirstOccurrences(ks: seq<int>): seq<int>
  {
    if ks == [] then []
    else
      var n := |ks| - 1;
      FirstOccurrences(ks[..n]) + (if ks[n] in ks[..n] then [] else [ks[n]])
  }

  lemma KeysOfAppend<V>(ps: seq<(int, V)>, qs: seq<(int, V)>)
    ensures KeysOf(ps + qs) == KeysOf(ps) + KeysOf(qs)
  {
  }

  /** Building a dict from pairs: keys are distinct and they are exactly the
      keys that occur. */
  lemma {:induction false} FromPairsKeys<V>(ps: seq<(int, V)>)
    ensures Valid(FromPairs(ps))
    ensures forall k :: k in Keys(FromPairs(ps)) <==> k in KeysOf(ps)
    decreases |ps|
  {
    if ps != [] {
      var n := |ps| - 1;
      assert ps == ps[..n] + [ps[n]];
      PutAllSnoc(Empty(), ps[..n], ps[n]);
      FromPairsKeys(ps[..n]);
      KeysOfAppend(ps[..n], [ps[n]]);
    }
  }

  /** Building a dict from pairs: each key holds the value of its last pair. */
  lemma {:induction false} FromPairsValues<V>(ps: seq<(int, V)>)
    ensures forall k :: Get(FromPairs(ps), k) == LastValue(ps, k)
    decreases |ps|
  {
    if ps != [] {
      var n := |ps| - 1;
      assert ps == ps[..n] + [ps[n]];
      PutAllSnoc(Empty(), ps[..n], ps[n]);
      FromPairsValues(ps[..n]);
    }
  }

  /** Building a dict from pairs: keys come in order of first occurrence. */
  lemma {:induction false} FromPairsOrder<V>(ps: seq<(int, V)>)
    ensures Keys(FromPairs(ps)) == FirstOccurrences(KeysOf(ps))
    decreases |ps|
  {
    if ps != [] {
      var n := |ps| - 1;
      var init := ps[..n];
      assert ps == init + [ps[n]];
      PutAllSnoc(Empty(), init, ps[n]);
      FromPairsOrder(init);
      FromPairsKeys(init);
      KeysOfAppend(init, [ps[n]]);
      assert KeysOf(ps)[..n] == KeysOf(init);
    }
  }

  /** Pairs with pairwise distinct keys are kept exactly, in order. */
  lemma {:induction false} FromDistinctPairs<V>(ps: seq<(int, V)>)
    requires Distinct(KeysOf(ps))
    ensures FromPairs(ps).entries == ps
    decreases |ps|
  {
    if ps != [] {
      var n := |ps| - 1;
      var init := ps[..n];
      assert ps == init + [ps[n]];
      assert KeysOf(init) == KeysOf(ps)[..n];
      DistinctSnoc(KeysOf(ps));
      FromDistinctPairs(init);
      PutAllSnoc(Empty(), init, ps[n]);
      PutAbsent(FromPairs(init), ps[n].0, ps[n].1);
    }
  }

  lemma DistinctSnoc(ks: seq<int>)
    requires ks != [] && Distinct(ks)
    ensures Distinct(ks[..|ks| - 1]) && ks[|ks| - 1] !in ks[..|ks| - 1]
  {
  }

  lemma {:induction false} PutAbsent<V>(d: Dict<V>, k: int, v: V)
    requires k !in Keys(d)
    ensures Put(d, k, v).entries == d.entries + [(k, v)]
    decreases |d.entries|
  {
    if d.entries != [] {
      assert Keys(d) == [d.entries[0].0] + Keys(Dict(d.entries[1..]));
      PutAbsent(Dict(d.entries[1..]), k, v);
      assert d.entries == [d.entries[0]] + d.entries[1..];
    }
  }

  // ------------------------------------------- assignments that may be skipped

  /** The pairs of a run of lines, each of which assigns a pair or is
      skipped (`None`). */
  function Present<V>(es: seq<Option<(int, V)>>): (ps: seq<(int, V)>)
    ensures |ps| <= |es|
  {
    if es == [] then []
    else
      var n := |es| - 1;
      Present(es[..n]) + (if es[n].Some? then [es[n].value] else [])
  }

  /** Line `i` assigns key `k`. */
  predicate Assigns<V>(es: seq<Option<(int, V)>>, i: int, k: int) {
    0 <= i < |es| && es[i].Some? && es[i].value.0 == k
  }

  /** A key is assigned exactly when some line assigns it. */
  lemma {:induction false} PresentKeys<V>(es: seq<Option<(int, V)>>, k: int)
    ensures k in KeysOf(Present(es)) <==> exists i :: Assigns(es, i, k)
    decreases |es|
  {
    if es != [] {
      var n := |es| - 1;
      var init := es[..n];
      var last := if es[n].Some? then [es[n].value] else [];
      KeysOfAppend(Present(init), last);
      assert k in KeysOf(last) <==> Assigns(es, n, k);
      PresentKeys(init, k);
      if exists i :: Assigns(init, i, k) {
        var i :| Assigns(init, i, k);
        assert init[i] == es[i];
        assert Assigns(es, i, k);
      }
      if exists i :: Assigns(es, i, k) {
        var i :| Assigns(es, i, k);
        if i < n {
          assert init[i] == es[i];
          assert Assigns(init, i, k);
        }
      }
    }
  }

  /** The last line assigning a key decides its value. */
  lemma {:induction false} PresentLast<V>(es: seq<Option<(int, V)>>, i: int)
    requires 0 <= i < |es| && es[i].Some?
    requires forall j :: i < j < |es| ==> !Assigns(es, j, es[i].value.0)
    ensures LastValue(Present(es), es[i].value.0) == Some(es[i].value.1)
    decreases |es|
  {
    var n := |es| - 1;
    var init := es[..n];
    var k := es[i].value.0;
    var last := if es[n].Some? then [es[n].value] else [];
    var ps := Present(init) + last;
    if i < n {
      assert init[i] == es[i];
      forall j | i < j < |init| ensures !Assigns(init, j, k) {
        assert init[j] == es[j];
        assert !Assigns(es, j, k);
      }
      PresentLast(init, i);
      assert !Assigns(es, n, k);
      if es[n].Some? {
        assert ps[..|ps| - 1] == Present(init);
      } else {
        assert ps == Present(init);
      }
    } else {
      assert ps[|ps| - 1] == es[n].value;
    }
  }

  /** One more line: a skipped one changes nothing, an assigning one is a
      `Put`. */
  lemma PresentSnoc<V>(es: seq<Option<(int, V)>>, e: Option<(int, V)>)
    ensures FromPairs(Present(es + [e]))
         == if e.Some? then Put(FromPairs(Present(es)), e.value.0, e.value.1) else FromPairs(Present(es))
  {
    assert (es + [e])[..|es|] == es;
    if e.Some? {
      PutAllSnoc(Empty(), Present(es), e.value);
    } else {
      assert Present(es + [e]) == Present(es);
    }
  }
}
