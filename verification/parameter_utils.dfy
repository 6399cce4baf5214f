/** ParameterUtils: merging two parameter lists and turning a map of
    parameter values into a parameter list. */
module ParameterUtils {
  import opened Wrappers
  import JavaMaps

  /** A CloudFormation stack parameter as this plugin fills it in. */
  datatype Parameter = Parameter(key: string, value: string)

  predicate Mentions(ps: seq<Parameter>, k: string)
  {
    exists i :: 0 <= i < |ps| && ps[i].key == k
  }

  predicate UniqueKeys(ps: seq<Parameter>)
  {
    forall i, j :: 0 <= i < j < |ps| ==> ps[i].key != ps[j].key
  }

  /** Position of the first parameter with key `k`; |ps| when there is none. */
  function FirstIndex(ps: seq<Parameter>, k: string): (i: nat)
    ensures i <= |ps|
    ensures i < |ps| ==> ps[i].key == k
    ensures forall j :: 0 <= j < i ==> ps[j].key != k
    ensures i == |ps| <==> !Mentions(ps, k)
  {
    if |ps| == 0 then 0
    else if ps[0].key == k then 0
    else
      var i := 1 + FirstIndex(ps[1..], k);
      assert forall j :: 1 <= j < |ps| ==> ps[j] == ps[1..][j - 1];
      i
  }

  /** The last parameter with key `k`. */
  function LastWith(ps: seq<Parameter>, k: string): (p: Parameter)
    requires Mentions(ps, k)
    ensures p.key == k && p in ps
    decreases |ps|
  {
    if ps[|ps| - 1].key == k then ps[|ps| - 1]
    else
      assert Mentions(ps[..|ps| - 1], k) by {
        var i :| 0 <= i < |ps| && ps[i].key == k;
        assert ps[..|ps| - 1][i] == ps[i];
      }
      var p := LastWith(ps[..|ps| - 1], k);
      assert p in ps[..|ps| - 1];
      p
  }

  /** LinkedHashMap.put on the values of a map kept in insertion order:
      a key already present keeps its place and takes the new parameter, a
      new key goes to the end. */
  function Put(m: seq<Parameter>, p: Parameter): seq<Parameter>
  {
    var i := FirstIndex(m, p.key);
    if i < |m| then m[i := p] else m + [p]
  }

  /** `r` is the value list of a LinkedHashMap into which every parameter of
      `ps` was put in turn. */
  ghost predicate Summarises(r: seq<Parameter>, ps: seq<Parameter>)
  {
    && UniqueKeys(r)
    && |r| <= |ps|
    && (forall k :: Mentions(r, k) <==> Mentions(ps, k))
    && (forall i :: 0 <= i < |r| ==> Mentions(ps, r[i].key) && r[i] == LastWith(ps, r[i].key))
    && (forall i, j :: 0 <= i < j < |r| ==> FirstIndex(ps, r[i].key) < FirstIndex(ps, r[j].key))
  }

  lemma {:induction false} SnocFacts(init: seq<Parameter>, p: Parameter, k: string)
    ensures Mentions(init + [p], k) <==> Mentions(init, k) || k == p.key
    ensures Mentions(init, k) ==> FirstIndex(init + [p], k) == FirstIndex(init, k)
    ensures !Mentions(init, k) && k == p.key ==> FirstIndex(init + [p], k) == |init|
    ensures k == p.key ==> LastWith(init + [p], k) == p
    ensures k != p.key && Mentions(init, k) ==> LastWith(init + [p], k) == LastWith(init, k)
  {
    var ps := init + [p];
    assert ps[..|ps| - 1] == init;
    if Mentions(init, k) {
      var i :| 0 <= i < |init| && init[i].key == k;
      assert ps[i] == init[i];
      var f := FirstIndex(init, k);
      assert ps[f] == init[f];
      assert forall j :: 0 <= j < f ==> ps[j] == init[j];
    }
    if Mentions(ps, k) && k != p.key {
      var i :| 0 <= i < |ps| && ps[i].key == k;
      assert init[i] == ps[i];
    }
    if !Mentions(init, k) && k == p.key {
      assert ps[|init|].key == k;
      assert forall j :: 0 <= j < |init| ==> ps[j] == init[j];
    }
  }

  /** One put keeps the LinkedHashMap summary of the parameters put so far. */
  lemma PutStep(prev: seq<Parameter>, init: seq<Parameter>, p: Parameter)
    requires Summarises(prev, init)
    ensures Summarises(Put(prev, p), init + [p])
  {
    var r := Put(prev, p);
    var ps := init + [p];
    if FirstIndex(prev, p.key) < |prev| {
      ReplaceKeys(prev, init, p);
      ReplaceLast(prev, init, p);
      ReplaceOrder(prev, init, p);
    } else {
      AppendKeys(prev, init, p);
      AppendLast(prev, init, p);
      AppendOrder(prev, init, p);
    }
  }

  /** A key already present: the parameter takes the old one's place, so
      the keys of the list do not change. */
  lemma ReplaceKeys(prev: seq<Parameter>, init: seq<Parameter>, p: Parameter)
    requires Summarises(prev, init)
    requires FirstIndex(prev, p.key) < |prev|
    ensures UniqueKeys(Put(prev, p))
    ensures |Put(prev, p)| <= |init + [p]|
    ensures forall k :: Mentions(Put(prev, p), k) <==> Mentions(init + [p], k)
  {
    var ps := init + [p];
    var r := Put(prev, p);
    assert forall j :: 0 <= j < |r| ==> r[j].key == prev[j].key;
    assert Mentions(prev, p.key);
    forall k ensures Mentions(r, k) <==> Mentions(ps, k) {
      SnocFacts(init, p, k);
      if Mentions(r, k) {
        var j :| 0 <= j < |r| && r[j].key == k;
        assert prev[j].key == k;
      }
      if Mentions(prev, k) {
        var j :| 0 <= j < |prev| && prev[j].key == k;
        assert r[j].key == k;
      }
    }
  }

  lemma ReplaceLast(prev: seq<Parameter>, init: seq<Parameter>, p: Parameter)
    requires Summarises(prev, init)
    requires FirstIndex(prev, p.key) < |prev|
    ensures forall j :: 0 <= j < |Put(prev, p)| ==>
      Mentions(init + [p], Put(prev, p)[j].key) && Put(prev, p)[j] == LastWith(init + [p], Put(prev, p)[j].key)
  {
    var ps := init + [p];
    var r := Put(prev, p);
    var i := FirstIndex(prev, p.key);
    forall j | 0 <= j < |r|
      ensures Mentions(ps, r[j].key) && r[j] == LastWith(ps, r[j].key)
    {
      SnocFacts(init, p, r[j].key);
      if j != i {
        assert prev[j].key != p.key;
      }
    }
  }

  lemma ReplaceOrder(prev: seq<Parameter>, init: seq<Parameter>, p: Parameter)
    requires Summarises(prev, init)
    requires FirstIndex(prev, p.key) < |prev|
    ensures forall a, b :: 0 <= a < b < |Put(prev, p)| ==>
      FirstIndex(init + [p], Put(prev, p)[a].key) < FirstIndex(init + [p], Put(prev, p)[b].key)
  {
    var ps := init + [p];
    var r := Put(prev, p);
    forall a, b | 0 <= a < b < |r|
      ensures FirstIndex(ps, r[a].key) < FirstIndex(ps, r[b].key)
    {
      assert r[a].key == prev[a].key && r[b].key == prev[b].key;
      SnocFacts(init, p, prev[a].key);
      SnocFacts(init, p, prev[b].key);
    }
  }

  /** A new key: the parameter goes to the end. */
  lemma AppendKeys(prev: seq<Parameter>, init: seq<Parameter>, p: Parameter)
    requires Summarises(prev, init)
    requires FirstIndex(prev, p.key) == |prev|
    ensures UniqueKeys(Put(prev, p))
    ensures |Put(prev, p)| <= |init + [p]|
    ensures forall k :: Mentions(Put(prev, p), k) <==> Mentions(init + [p], k)
  {
    var ps := init + [p];
    var r := Put(prev, p);
    assert r == prev + [p];
    forall a, b | 0 <= a < b < |r| ensures r[a].key != r[b].key {
      if b == |prev| {
        assert Mentions(prev, prev[a].key);
      }
    }
    forall k ensures Mentions(r, k) <==> Mentions(ps, k) {
      SnocFacts(prev, p, k);
      SnocFacts(init, p, k);
    }
  }

  lemma AppendLast(prev: seq<Parameter>, init: seq<Parameter>, p: Parameter)
    requires Summarises(prev, init)
    requires FirstIndex(prev, p.key) == |prev|
    ensures forall j :: 0 <= j < |Put(prev, p)| ==>
      Mentions(init + [p], Put(prev, p)[j].key) && Put(prev, p)[j] == LastWith(init + [p], Put(prev, p)[j].key)
  {
    var ps := init + [p];
    var r := Put(prev, p);
    assert r == prev + [p];
    forall j | 0 <= j < |r|
      ensures Mentions(ps, r[j].key) && r[j] == LastWith(ps, r[j].key)
    {
      SnocFacts(init, p, r[j].key);
      if j < |prev| {
        assert r[j] == prev[j];
        assert prev[j].key != p.key by { assert Mentions(prev, prev[j].key); }
      }
    }
  }

  lemma AppendOrder(prev: seq<Parameter>, init: seq<Parameter>, p: Parameter)
    requires Summarises(prev, init)
    requires FirstIndex(prev, p.key) == |prev|
    ensures forall a, b :: 0 <= a < b < |Put(prev, p)| ==>
      FirstIndex(init + [p], Put(prev, p)[a].key) < FirstIndex(init + [p], Put(prev, p)[b].key)
  {
    var ps := init + [p];
    var r := Put(prev, p);
    assert r == prev + [p];
    assert !Mentions(init, p.key);
    forall a, b | 0 <= a < b < |r|
      ensures FirstIndex(ps, r[a].key) < FirstIndex(ps, r[b].key)
    {
      SnocFacts(init, p, r[a].key);
      SnocFacts(init, p, r[b].key);
      assert r[a] == prev[a];
      assert Mentions(init, r[a].key) by { assert Mentions(prev, prev[a].key); }
      if b < |prev| {
        assert r[b] == prev[b];
        assert Mentions(init, r[b].key) by { assert Mentions(prev, prev[b].key); }
      }
    }
  }

  /** The values of a LinkedHashMap after putting every parameter of `ps`,
      keyed by parameter key, in turn. */
  function PutEach(ps: seq<Parameter>): seq<Parameter>
    decreases |ps|
  {
    if |ps| == 0 then []
    else Put(PutEach(ps[..|ps| - 1]), ps[|ps| - 1])
  }

  /** Putting a list of parameters keeps one parameter per key, the last
      one put for it, in the order in which the keys were first put. */
  lemma {:induction false} PutEachSummarises(ps: seq<Parameter>)
    ensures Summarises(PutEach(ps), ps)
    decreases |ps|
  {
    if |ps| > 0 {
      PutEachSummarises(ps[..|ps| - 1]);
      PutLast(PutEach(ps[..|ps| - 1]), ps);
    }
  }

  /** Putting the last parameter of `ps` into the summary of the others
      gives the summary of `ps`. */
  lemma PutLast(prev: seq<Parameter>, ps: seq<Parameter>)
    requires |ps| > 0 && Summarises(prev, ps[..|ps| - 1])
    ensures Summarises(Put(prev, ps[|ps| - 1]), ps)
  {
    var init := ps[..|ps| - 1];
    PutStep(prev, init, ps[|ps| - 1]);
    assert init + [ps[|ps| - 1]] == ps;
  }

  /** ParameterUtils.merge: one parameter per key of `first` and `second`;
      the last parameter given for a key wins, and keys appear in the order
      in which they were first given. */
  function Merge(first: seq<Parameter>, second: seq<Parameter>): (r: seq<Parameter>)
    ensures UniqueKeys(r)
    ensures |r| <= |first| + |second|
    ensures forall k :: Mentions(r, k) <==> Mentions(first, k) || Mentions(second, k)
    ensures forall i :: 0 <= i < |r| && Mentions(second, r[i].key) ==> r[i] == LastWith(second, r[i].key)
    ensures forall i :: 0 <= i < |r| && !Mentions(second, r[i].key) ==>
      Mentions(first, r[i].key) && r[i] == LastWith(first, r[i].key)
    ensures forall i, j :: 0 <= i < j < |r| ==>
      FirstIndex(first + second, r[i].key) < FirstIndex(first + second, r[j].key)
  {
    var r := PutEach(first + second);
    PutEachSummarises(first + second);
    forall k ensures Mentions(first + second, k) <==> Mentions(first, k) || Mentions(second, k) {
      MentionsAppend(first, second, k);
    }
    forall i | 0 <= i < |r|
      ensures Mentions(second, r[i].key) ==> r[i] == LastWith(second, r[i].key)
      ensures !Mentions(second, r[i].key) ==> Mentions(first, r[i].key) && r[i] == LastWith(first, r[i].key)
    {
      LastWithAppend(first, second, r[i].key);
    }
    r
  }

  lemma MentionsAppend(a: seq<Parameter>, b: seq<Parameter>, k: string)
    ensures Mentions(a + b, k) <==> Mentions(a, k) || Mentions(b, k)
  {
    if Mentions(a + b, k) {
      var i :| 0 <= i < |a + b| && (a + b)[i].key == k;
      if i >= |a| { assert b[i - |a|] == (a + b)[i]; }
    }
    if Mentions(a, k) {
      var i :| 0 <= i < |a| && a[i].key == k;
      assert (a + b)[i] == a[i];
    }
    if Mentions(b, k) {
      var i :| 0 <= i < |b| && b[i].key == k;
      assert (a + b)[|a| + i] == b[i];
    }
  }

  /** The last parameter for a key in `a + b` comes from `b` when `b` has one. */
  lemma {:induction false} LastWithAppend(a: seq<Parameter>, b: seq<Parameter>, k: string)
    requires Mentions(a + b, k)
    ensures Mentions(b, k) ==> LastWith(a + b, k) == LastWith(b, k)
    ensures !Mentions(b, k) ==> Mentions(a, k) && LastWith(a + b, k) == LastWith(a, k)
    decreases |b|
  {
    MentionsAppend(a, b, k);
    if |b| == 0 {
      assert a + b == a;
    } else {
      var b' := b[..|b| - 1];
      assert (a + b)[..|a + b| - 1] == a + b';
      assert (a + b)[|a + b| - 1] == b[|b| - 1];
      assert b[..|b| - 1] == b';
      if b[|b| - 1].key != k {
        MentionsAppend(a, b', k);
        assert Mentions(b, k) <==> Mentions(b', k) by {
          if Mentions(b, k) {
            var i :| 0 <= i < |b| && b[i].key == k;
            assert b'[i] == b[i];
          }
          if Mentions(b', k) {
            var i :| 0 <= i < |b'| && b'[i].key == k;
            assert b[i] == b'[i];
          }
        }
        LastWithAppend(a, b', k);
      }
    }
  }

  /** A list whose keys are already distinct is a fixed point of merging:
      every put appends. */
  lemma {:induction false} PutEachDistinct(ps: seq<Parameter>)
    requires UniqueKeys(ps)
    ensures PutEach(ps) == ps
    decreases |ps|
  {
    if |ps| > 0 {
      var init := ps[..|ps| - 1];
      var p := ps[|ps| - 1];
      assert init + [p] == ps;
      LastKeyIsNew(ps);
      PutEachDistinct(init);
      assert PutEach(ps) == Put(PutEach(init), p);
      assert Put(init, p) == init + [p];
    }
  }

  lemma LastKeyIsNew(ps: seq<Parameter>)
    requires UniqueKeys(ps) && |ps| > 0
    ensures UniqueKeys(ps[..|ps| - 1])
    ensures FirstIndex(ps[..|ps| - 1], ps[|ps| - 1].key) == |ps| - 1
  {
    var init := ps[..|ps| - 1];
    assert forall i :: 0 <= i < |init| ==> init[i] == ps[i];
  }

  lemma MergeDistinctWithNothing(xs: seq<Parameter>)
    requires UniqueKeys(xs)
    ensures Merge(xs, []) == xs
  {
    assert xs + [] == xs;
    PutEachDistinct(xs);
  }

  /** PutEach puts the last parameter after all the others. */
  lemma PutEachSnoc(init: seq<Parameter>, p: Parameter)
    ensures PutEach(init + [p]) == Put(PutEach(init), p)
  {
    assert (init + [p])[..|init + [p]| - 1] == init;
  }

  /** The worked example of merging two lists that share key2. */
  lemma MergeExample()
    ensures Merge([Parameter("key1", "value1"), Parameter("key2", "value2")],
                  [Parameter("key2", "value2b"), Parameter("key3", "value3")])
         == [Parameter("key1", "value1"), Parameter("key2", "value2b"), Parameter("key3", "value3")]
  {
    var p1, p2 := Parameter("key1", "value1"), Parameter("key2", "value2");
    var p3, p4 := Parameter("key2", "value2b"), Parameter("key3", "value3");
    assert "key1" != "key2" by { assert "key1"[3] != "key2"[3]; }
    assert "key1" != "key3" by { assert "key1"[3] != "key3"[3]; }
    assert "key2" != "key3" by { assert "key2"[3] != "key3"[3]; }
    PutEachSnoc([], p1);
    assert PutEach([p1]) == [p1];
    PutEachSnoc([p1], p2);
    assert FirstIndex([p1], p2.key) == 1;
    assert PutEach([p1, p2]) == [p1, p2];
    PutEachSnoc([p1, p2], p3);
    assert [p1, p2] + [p3] == [p1, p2, p3];
    assert FirstIndex([p1, p2], p3.key) == 1 by {
      assert [p1, p2][1..] == [p2];
    }
    assert [p1, p2][1 := p3] == [p1, p3];
    assert PutEach([p1, p2, p3]) == [p1, p3];
    PutEachSnoc([p1, p2, p3], p4);
    assert [p1, p2, p3] + [p4] == [p1, p2, p3, p4];
    assert FirstIndex([p1, p3], p4.key) == 2 by {
      assert [p1, p3][1..] == [p3];
      assert [p3][1..] == [];
    }
    assert PutEach([p1, p2, p3, p4]) == [p1, p3, p4];
    assert [p1, p2] + [p3, p4] == [p1, p2, p3, p4];
  }

  /** ParameterUtils.convert: one parameter per key of the map, in the
      map's iteration order, carrying map.get(key); a null map gives null.
      The map is given by its entries in iteration order. */
  function Convert(parameters: Option<seq<JavaMaps.Entry>>): (r: Option<seq<Parameter>>)
    ensures r.None? <==> parameters.None?
    ensures r.Some? ==> |r.value| == |parameters.value|
    ensures r.Some? ==> forall i :: 0 <= i < |r.value| ==>
      r.value[i].key == parameters.value[i].0
      && JavaMaps.HasKey(parameters.value, r.value[i].key)
      && r.value[i].value == JavaMaps.LastValue(parameters.value, r.value[i].key)
  {
    match parameters
    case None => None
    case Some(es) =>
      Some(seq(|es|, i requires 0 <= i < |es| =>
        assert JavaMaps.HasKey(es, es[i].0) by { assert es[i].0 == es[i].0; }
        Parameter(es[i].0, JavaMaps.LastValue(es, es[i].0))))
  }

  /** Converting a map gives its entries back, one parameter per key:
      the list has distinct keys and, put into a map again, is the same map. */
  lemma ConvertRoundTrip(es: seq<JavaMaps.Entry>)
    requires JavaMaps.DistinctKeys(es)
    ensures Convert(Some(es)).Some?
    ensures UniqueKeys(Convert(Some(es)).value)
    ensures forall i :: 0 <= i < |es| ==> Convert(Some(es)).value[i] == Parameter(es[i].0, es[i].1)
    ensures JavaMaps.PutAll(map[], AsEntries(Convert(Some(es)).value)) == JavaMaps.PutAll(map[], es)
  {
    var ps := Convert(Some(es)).value;
    forall i | 0 <= i < |es| ensures ps[i] == Parameter(es[i].0, es[i].1) {
      JavaMaps.LastValueOfDistinct(es, i);
    }
    assert AsEntries(ps) == es;
  }

  /** A parameter list read back as (key, value) entries. */
  function AsEntries(ps: seq<Parameter>): (es: seq<JavaMaps.Entry>)
    ensures |es| == |ps|
    ensures forall i :: 0 <= i < |ps| ==> es[i] == (ps[i].key, ps[i].value)
  {
    seq(|ps|, i requires 0 <= i < |ps| => (ps[i].key, ps[i].value))
  }
}
