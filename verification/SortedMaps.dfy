/**
A map with string keys and its one listing in ascending key order.
*/
module SortedMaps {
  import opened ByteCodec
  import opened Utf8

  type Entries<V> = seq<(string, V)>

  ghost predicate Ascending<V>(es: Entries<V>) {
    forall i, j :: 0 <= i < j < |es| ==> Before(es[i].0, es[j].0)
  }

  // Inserting the entries one after another.
  function ToMap<V>(es: Entries<V>): map<string, V> {
    if es == [] then map[] else ToMap(es[..|es| - 1])[es[|es| - 1].0 := es[|es| - 1].1]
  }

  ghost predicate Greatest(k: string, keys: set<string>) {
    k in keys && forall j <- keys :: j == k || Before(j, k)
  }

  lemma {:induction false} GreatestExists(keys: set<string>)
    requires keys != {}
    ensures exists k :: Greatest(k, keys)
    decreases |keys|
  {
    hide Before;
    var x :| x in keys;
    var others := keys - {x};
    if others == {} {
      assert keys == {x};
      assert Greatest(x, keys);
    } else {
      GreatestExists(others);
      var k :| Greatest(k, others);
      StringOrder(x, k);
      if Before(x, k) {
        assert Greatest(k, keys);
      } else {
        forall j <- keys ensures j == x || Before(j, x) {
          if j != x && j != k {
            BeforeTransitive(j, k, x);
          }
        }
        assert Greatest(x, keys);
      }
    }
  }

  ghost function GreatestKey(keys: set<string>): (k: string)
    requires keys != {}
    ensures Greatest(k, keys)
  {
    GreatestExists(keys);
    var k :| Greatest(k, keys);
    k
  }

  // The iteration order of a sorted map.
  ghost function Listing<V>(m: map<string, V>): (es: Entries<V>)
    ensures |es| == |m|
    decreases |m|
  {
    if m.Keys == {} then assert m == map[]; []
    else
      var k := GreatestKey(m.Keys);
      Smaller(m, k);
      Listing(m - {k}) + [(k, m[k])]
  }

  lemma Smaller<V>(m: map<string, V>, k: string)
    requires k in m
    ensures |m - {k}| == |m| - 1
  {
    assert m == (m - {k})[k := m[k]];
  }

  lemma {:induction false} ListingEntries<V>(m: map<string, V>)
    ensures forall i :: 0 <= i < |Listing(m)| ==> Listing(m)[i].0 in m && m[Listing(m)[i].0] == Listing(m)[i].1
    decreases |m|
  {
    hide Before;
    if m.Keys != {} {
      var k := GreatestKey(m.Keys);
      Smaller(m, k);
      ListingEntries(m - {k});
    }
  }

  lemma {:induction false} ListingOfMap<V>(m: map<string, V>)
    ensures ToMap(Listing(m)) == m
    ensures Ascending(Listing(m))
    decreases |m|
  {
    hide Before;
    if m.Keys == {} {
      assert m == map[];
    } else {
      var k := GreatestKey(m.Keys);
      Smaller(m, k);
      ListingOfMap(m - {k});
      ListingEntries(m - {k});
      AscendingSnoc(Listing(m - {k}), k, m[k]);
      assert m == (m - {k})[k := m[k]];
    }
  }

  lemma AscendingSnoc<V>(es: Entries<V>, k: string, v: V)
    requires Ascending(es) && forall i :: 0 <= i < |es| ==> Before(es[i].0, k)
    ensures Ascending(es + [(k, v)]) && ToMap(es + [(k, v)]) == ToMap(es)[k := v]
  {
    assert (es + [(k, v)])[..|es|] == es;
  }

  lemma {:induction false} ToMapKeys<V>(es: Entries<V>)
    ensures forall k :: k in ToMap(es) <==> exists i :: 0 <= i < |es| && es[i].0 == k
  {
    if es != [] {
      var front := es[..|es| - 1];
      ToMapKeys(front);
      forall k ensures k in ToMap(es) <==> exists i :: 0 <= i < |es| && es[i].0 == k {
        if k in ToMap(front) {
          var i :| 0 <= i < |front| && front[i].0 == k;
          assert es[i].0 == k;
        }
        if exists i :: 0 <= i < |es| && es[i].0 == k {
          var i :| 0 <= i < |es| && es[i].0 == k;
          assert i == |es| - 1 || front[i].0 == k;
        }
        assert es[|es| - 1].0 in ToMap(es);
      }
    }
  }

  // Ascending entries are the listing of the map they build: there is only one.
  lemma {:induction false} ListingOfEntries<V>(es: Entries<V>)
    requires Ascending(es)
    ensures Listing(ToMap(es)) == es
  {
    hide Before;
    if es != [] {
      var m := ToMap(es);
      var front := es[..|es| - 1];
      var last := es[|es| - 1].0;
      ListingOfEntries(front);
      LastIsGreatest(es);
      assert m.Keys != {} by { assert last in m; }
      OneGreatest(GreatestKey(m.Keys), last, m.Keys);
      assert es == front + [(last, m[last])];
    }
  }

  lemma OneGreatest(a: string, b: string, keys: set<string>)
    requires Greatest(a, keys) && Greatest(b, keys)
    ensures a == b
  {
    hide Before;
    StringOrder(a, b);
  }

  lemma LastIsGreatest<V>(es: Entries<V>)
    requires Ascending(es) && es != []
    ensures var last := es[|es| - 1].0;
            Greatest(last, ToMap(es).Keys) && ToMap(es) - {last} == ToMap(es[..|es| - 1])
  {
    hide Before;
    var front := es[..|es| - 1];
    var last := es[|es| - 1].0;
    ToMapKeys(es);
    ToMapKeys(front);
    StringOrder(last, last);
    assert last !in ToMap(front);
    assert ToMap(es) - {last} == ToMap(front);
  }
}
