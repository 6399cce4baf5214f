/** Map.put / Map.putAll over a string-to-string map, with the source of the
    puts given as an ordered sequence of entries (a Java map's iteration
    order, or the order of a loop's put calls). */
module JavaMaps {

  /** One key/value pair. */
  type Entry = (string, string)

  predicate HasKey(es: seq<Entry>, k: string)
  {
    exists i :: 0 <= i < |es| && es[i].0 == k
  }

  function KeysOf(es: seq<Entry>): set<string>
  {
    set i | 0 <= i < |es| :: es[i].0
  }

  /** The keys of a list are those of all but its last entry, plus the
      last entry's key. */
  lemma KeysOfSnoc(es: seq<Entry>)
    requires |es| > 0
    ensures KeysOf(es) == KeysOf(es[..|es| - 1]) + {es[|es| - 1].0}
  {
    var init := es[..|es| - 1];
    forall k | k in KeysOf(es) ensures k in KeysOf(init) + {es[|es| - 1].0} {
      var i :| 0 <= i < |es| && es[i].0 == k;
      if i < |es| - 1 { assert init[i] == es[i]; }
    }
    forall k | k in KeysOf(init) ensures k in KeysOf(es) {
      var i :| 0 <= i < |init| && init[i].0 == k;
      assert es[i] == init[i];
    }
  }

  /** The value of the last entry with key `k`. */
  function LastValue(es: seq<Entry>, k: string): string
    requires HasKey(es, k)
    decreases |es|
  {
    if es[|es| - 1].0 == k then es[|es| - 1].1
    else
      assert HasKey(es[..|es| - 1], k) by {
        var i :| 0 <= i < |es| && es[i].0 == k;
        assert es[..|es| - 1][i] == es[i];
      }
      LastValue(es[..|es| - 1], k)
  }

  /** Puts every entry into `m`, one after the other: a later put of the
      same key replaces the earlier value. */
  function PutAll(m: map<string, string>, es: seq<Entry>): (r: map<string, string>)
    ensures r.Keys == m.Keys + KeysOf(es)
    ensures forall k :: k in r ==> r[k] == (if HasKey(es, k) then LastValue(es, k) else m[k])
    decreases |es|
  {
    if |es| == 0 then m
    else
      var init := es[..|es| - 1];
      var last := es[|es| - 1];
      var prev := PutAll(m, init);
      KeysOfSnoc(es);
      assert forall k :: k != last.0 ==> (HasKey(es, k) <==> HasKey(init, k)) by {
        forall k | k != last.0 ensures HasKey(es, k) <==> HasKey(init, k) {
          if HasKey(es, k) {
            var i :| 0 <= i < |es| && es[i].0 == k;
            assert init[i] == es[i];
          }
          if HasKey(init, k) {
            var i :| 0 <= i < |init| && init[i].0 == k;
            assert es[i] == init[i];
          }
        }
      }
      prev[last.0 := last.1]
  }

  /** Two putAll calls in a row are one putAll over both sources. */
  lemma {:induction false} PutAllAppend(m: map<string, string>, a: seq<Entry>, b: seq<Entry>)
    ensures PutAll(PutAll(m, a), b) == PutAll(m, a + b)
    decreases |b|
  {
    if |b| == 0 {
      assert a + b == a;
    } else {
      var b' := b[..|b| - 1];
      PutAllAppend(m, a, b');
      assert (a + b)[..|a + b| - 1] == a + b';
      assert (a + b)[|a + b| - 1] == b[|b| - 1];
    }
  }

  /** The entries of a Java map: no key occurs twice. */
  predicate DistinctKeys(es: seq<Entry>)
  {
    forall i, j :: 0 <= i < j < |es| ==> es[i].0 != es[j].0
  }

  /** In a map's own entry list, get(key) is the value stored with that key. */
  lemma {:induction false} LastValueOfDistinct(es: seq<Entry>, i: nat)
    requires DistinctKeys(es)
    requires i < |es|
    ensures HasKey(es, es[i].0) && LastValue(es, es[i].0) == es[i].1
    decreases |es|
  {
    if i < |es| - 1 {
      var init := es[..|es| - 1];
      assert init[i] == es[i];
      LastValueOfDistinct(init, i);
    }
  }

  /** No entry after position `i` has key `k`. */
  predicate NotAfter(es: seq<Entry>, i: nat, k: string)
  {
    forall j :: i < j < |es| ==> es[j].0 != k
  }

  /** An entry whose key does not occur again after it holds LastValue:
      the last put of a key wins. */
  lemma {:induction false} LastValueOfLast(es: seq<Entry>, i: nat)
    requires i < |es| && NotAfter(es, i, es[i].0)
    ensures HasKey(es, es[i].0) && LastValue(es, es[i].0) == es[i].1
    decreases |es|
  {
    var n := |es| - 1;
    if i < n {
      var init := es[..n];
      assert init[i] == es[i];
      assert NotAfter(init, i, es[i].0) by {
        forall j | i < j < |init| ensures init[j].0 != es[i].0 {
          assert init[j] == es[j];
        }
      }
      LastValueOfLast(init, i);
    }
  }

  /** LastValue is the value of an entry with that key after which no
      entry has the key again. */
  lemma {:induction false} LastValueAt(es: seq<Entry>, k: string)
    requires HasKey(es, k)
    ensures exists i :: 0 <= i < |es| && es[i] == (k, LastValue(es, k)) && NotAfter(es, i, k)
    decreases |es|
  {
    var n := |es| - 1;
    if es[n].0 == k {
      assert es[n] == (k, LastValue(es, k)) && NotAfter(es, n, k);
    } else {
      var init := es[..n];
      assert HasKey(init, k) by {
        var i :| 0 <= i < |es| && es[i].0 == k;
        assert init[i] == es[i];
      }
      LastValueAt(init, k);
      var i :| 0 <= i < |init| && init[i] == (k, LastValue(init, k)) && NotAfter(init, i, k);
      assert es[i] == init[i];
      assert NotAfter(es, i, k) by {
        forall j | i < j < |es| ensures es[j].0 != k {
          if j < n { assert es[j] == init[j]; }
        }
      }
    }
  }

  /** Every key of a map filled by putAll got its value from the last
      entry with that key. */
  lemma PutAllLastEntry(es: seq<Entry>)
    ensures forall k :: k in PutAll(map[], es) ==>
      exists i :: 0 <= i < |es| && es[i] == (k, PutAll(map[], es)[k]) && NotAfter(es, i, k)
  {
    forall k | k in PutAll(map[], es)
      ensures exists i :: 0 <= i < |es| && es[i] == (k, PutAll(map[], es)[k]) && NotAfter(es, i, k)
    {
      LastValueAt(es, k);
    }
  }
}
