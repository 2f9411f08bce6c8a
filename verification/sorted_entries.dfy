/** The abstract view of a skip list: its level-0 chain read as a sequence
    of (key, member set) entries in ascending key order, and the sorted map
    such a sequence denotes. Every skip-list contract is stated against these
    definitions, which know nothing about links or levels. */
module SortedEntries {

  /** One live node as seen from outside: its key and its member set. */
  datatype Entry = Entry(key: int, values: set<string>)

  /** Keys strictly increase along the sequence. */
  ghost predicate Ascending(es: seq<Entry>) {
    forall i, j :: 0 <= i < j < |es| ==> es[i].key < es[j].key
  }

  /** The map from key to member set denoted by a run of entries. */
  ghost function AsMap(es: seq<Entry>): map<int, set<string>>
  {
    if es == [] then map[]
    else AsMap(es[..|es| - 1])[es[|es| - 1].key := es[|es| - 1].values]
  }

  /** The entries whose key lies in the half-open range [lo, hi), kept in
      their original order. */
  ghost function Window(es: seq<Entry>, lo: int, hi: int): seq<Entry>
  {
    if es == [] then []
    else
      var last := es[|es| - 1];
      Window(es[..|es| - 1], lo, hi) + (if lo <= last.key < hi then [last] else [])
  }

  /** The member sets of a run of entries, in order. */
  ghost function ValuesOf(es: seq<Entry>): (vs: seq<set<string>>)
  {
    seq(|es|, i requires 0 <= i < |es| => es[i].values)
  }

  /** The part of a sorted map whose keys lie in [lo, hi). */
  ghost function Restrict(m: map<int, set<string>>, lo: int, hi: int): map<int, set<string>>
  {
    map k | k in m && lo <= k < hi :: m[k]
  }

  // ---------------------------------------------------------------------
  // Lookup in AsMap

  /** Every entry of an ascending run is found in the map it denotes. */
  lemma {:induction false} AsMapHas(es: seq<Entry>, i: int)
    requires Ascending(es) && 0 <= i < |es|
    ensures es[i].key in AsMap(es) && AsMap(es)[es[i].key] == es[i].values
  {
    if i < |es| - 1 {
      var init := es[..|es| - 1];
      assert init[i] == es[i];
      AsMapHas(init, i);
    }
  }

  /** The map has no key that no entry carries. */
  lemma {:induction false} AsMapOnly(es: seq<Entry>, k: int)
    requires k in AsMap(es)
    ensures exists i :: 0 <= i < |es| && es[i].key == k
  {
    if es[|es| - 1].key != k {
      var init := es[..|es| - 1];
      AsMapOnly(init, k);
      var i :| 0 <= i < |init| && init[i].key == k;
      assert es[i].key == k;
    }
  }

  // ---------------------------------------------------------------------
  // How AsMap reacts to inserting, removing and replacing one entry

  lemma AscendingPrefix(es: seq<Entry>, n: int)
    requires Ascending(es) && 0 <= n <= |es|
    ensures Ascending(es[..n])
  {
  }

  lemma UpdatesCommute(m: map<int, set<string>>, k1: int, v1: set<string>, k2: int, v2: set<string>)
    requires k1 != k2
    ensures m[k1 := v1][k2 := v2] == m[k2 := v2][k1 := v1]
  {
  }

  /** Splicing an entry into an ascending run adds exactly that key. */
  lemma AsMapInsert(a: seq<Entry>, e: Entry, b: seq<Entry>)
    requires Ascending(a + [e] + b)
    ensures AsMap(a + [e] + b) == AsMap(a + b)[e.key := e.values]
  {
    var whole := a + [e] + b;
    forall k | 0 <= k < |b|
      ensures b[k].key != e.key
    {
      assert whole[|a|] == e && whole[|a| + 1 + k] == b[k];
    }
    AsMapOverride(a, e, b);
  }

  /** An entry followed by no entry of the same key decides that key's
      value: the map of a + [e] + b is that of a + b with e's key set. */
  lemma {:induction false} AsMapOverride(a: seq<Entry>, e: Entry, b: seq<Entry>)
    requires forall k :: 0 <= k < |b| ==> b[k].key != e.key
    ensures AsMap(a + [e] + b) == AsMap(a + b)[e.key := e.values]
    decreases |b|
  {
    var whole := a + [e] + b;
    if b == [] {
      assert whole == a + [e];
      assert whole[..|a|] == a;
      assert a + b == a;
    } else {
      var b' := b[..|b| - 1];
      var x := b[|b| - 1];
      assert whole[..|whole| - 1] == a + [e] + b';
      assert whole[|whole| - 1] == x;
      assert (a + b)[..|a + b| - 1] == a + b';
      assert (a + b)[|a + b| - 1] == x;
      AsMapOverride(a, e, b');
      calc {
        AsMap(whole);
        AsMap(a + [e] + b')[x.key := x.values];
        AsMap(a + b')[e.key := e.values][x.key := x.values];
        { UpdatesCommute(AsMap(a + b'), e.key, e.values, x.key, x.values); }
        AsMap(a + b')[x.key := x.values][e.key := e.values];
        AsMap(a + b)[e.key := e.values];
      }
    }
  }

  /** A key no entry of a run carries is not in the map the run denotes. */
  lemma AsMapMissing(es: seq<Entry>, k: int)
    requires forall i :: 0 <= i < |es| ==> es[i].key != k
    ensures k !in AsMap(es)
  {
    if k in AsMap(es) {
      AsMapOnly(es, k);
    }
  }

  /** Unlinking an entry from an ascending run removes exactly that key. */
  lemma AsMapRemove(a: seq<Entry>, e: Entry, b: seq<Entry>)
    requires Ascending(a + [e] + b)
    ensures AsMap(a + b) == AsMap(a + [e] + b) - {e.key}
  {
    var whole := a + [e] + b;
    assert whole[|a|] == e;
    forall i | 0 <= i < |a + b|
      ensures (a + b)[i].key != e.key
    {
      if i < |a| {
        assert whole[i] == (a + b)[i];
      } else {
        assert whole[i + 1] == (a + b)[i];
      }
    }
    AsMapMissing(a + b, e.key);
    AsMapInsert(a, e, b);
  }

  /** Replacing the member set of one entry changes only that key's value. */
  lemma AsMapReplace(a: seq<Entry>, e: Entry, e': Entry, b: seq<Entry>)
    requires Ascending(a + [e] + b) && e'.key == e.key
    ensures AsMap(a + [e'] + b) == AsMap(a + [e] + b)[e.key := e'.values]
  {
    var w := a + [e] + b;
    var w' := a + [e'] + b;
    assert forall i :: 0 <= i < |w| ==> w'[i].key == w[i].key;
    AsMapInsert(a, e, b);
    AsMapInsert(a, e', b);
  }

  // ---------------------------------------------------------------------
  // Window

  lemma {:induction false} WindowConcat(a: seq<Entry>, b: seq<Entry>, lo: int, hi: int)
    ensures Window(a + b, lo, hi) == Window(a, lo, hi) + Window(b, lo, hi)
    decreases |b|
  {
    if b == [] {
      assert a + b == a;
    } else {
      var b' := b[..|b| - 1];
      assert (a + b)[..|a + b| - 1] == a + b';
      assert (a + b)[|a + b| - 1] == b[|b| - 1];
      WindowConcat(a, b', lo, hi);
    }
  }

  lemma {:induction false} WindowAllIn(es: seq<Entry>, lo: int, hi: int)
    requires forall i :: 0 <= i < |es| ==> lo <= es[i].key < hi
    ensures Window(es, lo, hi) == es
    decreases |es|
  {
    if es != [] {
      WindowAllIn(es[..|es| - 1], lo, hi);
      assert es[..|es| - 1] + [es[|es| - 1]] == es;
    }
  }

  lemma {:induction false} WindowAllOut(es: seq<Entry>, lo: int, hi: int)
    requires forall i :: 0 <= i < |es| ==> !(lo <= es[i].key < hi)
    ensures Window(es, lo, hi) == []
    decreases |es|
  {
    if es != [] {
      WindowAllOut(es[..|es| - 1], lo, hi);
    }
  }

  /** When the entries below position a lie below lo, those in [a, b) lie in
      range and those from b on lie at or above hi, the window is exactly the
      slice [a, b). */
  lemma WindowSlice(es: seq<Entry>, lo: int, hi: int, a: int, b: int)
    requires 0 <= a <= b <= |es|
    requires forall i :: 0 <= i < a ==> es[i].key < lo
    requires forall i :: a <= i < b ==> lo <= es[i].key < hi
    requires forall i :: b <= i < |es| ==> hi <= es[i].key
    ensures Window(es, lo, hi) == es[a..b]
  {
    assert es == es[..a] + es[a..b] + es[b..];
    WindowConcat(es[..a] + es[a..b], es[b..], lo, hi);
    WindowConcat(es[..a], es[a..b], lo, hi);
    WindowAllOut(es[..a], lo, hi);
    WindowAllIn(es[a..b], lo, hi);
    WindowAllOut(es[b..], lo, hi);
  }

  /** Under WindowSlice's conditions, the member sets of positions a to b
      are the window's, and the window denotes the part of the run's map
      whose keys lie in [lo, hi). */
  lemma WindowValues(es: seq<Entry>, lo: int, hi: int, a: int, b: int, vs: seq<set<string>>)
    requires Ascending(es) && 0 <= a <= b <= |es|
    requires forall i :: 0 <= i < a ==> es[i].key < lo
    requires forall i :: a <= i < b ==> lo <= es[i].key < hi
    requires forall i :: b <= i < |es| ==> hi <= es[i].key
    requires |vs| == b - a && forall k :: 0 <= k < b - a ==> vs[k] == es[a + k].values
    ensures vs == ValuesOf(Window(es, lo, hi))
    ensures Ascending(Window(es, lo, hi))
    ensures AsMap(Window(es, lo, hi)) == Restrict(AsMap(es), lo, hi)
  {
    WindowSlice(es, lo, hi, a, b);
    WindowIsRestriction(es, lo, hi);
  }

  lemma {:induction false} WindowFrom(es: seq<Entry>, lo: int, hi: int)
    ensures forall w :: w in Window(es, lo, hi) ==> w in es && lo <= w.key < hi
    decreases |es|
  {
    if es != [] {
      WindowFrom(es[..|es| - 1], lo, hi);
    }
  }

  /** The window of an ascending run is ascending and denotes exactly the
      part of the run's map whose keys lie in [lo, hi). */
  lemma WindowIsRestriction(es: seq<Entry>, lo: int, hi: int)
    requires Ascending(es)
    ensures Ascending(Window(es, lo, hi))
    ensures AsMap(Window(es, lo, hi)) == Restrict(AsMap(es), lo, hi)
  {
    WindowAscending(es, lo, hi);
    WindowMap(es, lo, hi);
  }

  lemma {:induction false} WindowAscending(es: seq<Entry>, lo: int, hi: int)
    requires Ascending(es)
    ensures Ascending(Window(es, lo, hi))
    decreases |es|
  {
    if es != [] {
      var init := es[..|es| - 1];
      var last := es[|es| - 1];
      AscendingPrefix(es, |es| - 1);
      WindowAscending(init, lo, hi);
      if lo <= last.key < hi {
        var w := Window(init, lo, hi);
        WindowFrom(init, lo, hi);
        forall i | 0 <= i < |w|
          ensures w[i].key < last.key
        {
          assert w[i] in init;
          var j :| 0 <= j < |init| && init[j] == w[i];
          assert es[j] == init[j];
        }
        AscendingSnoc(w, last);
      }
    }
  }

  /** An ascending run stays ascending when an entry above all its keys is
      appended. */
  lemma AscendingSnoc(w: seq<Entry>, x: Entry)
    requires Ascending(w) && forall i :: 0 <= i < |w| ==> w[i].key < x.key
    ensures Ascending(w + [x])
  {
    var w' := w + [x];
    forall i, j | 0 <= i < j < |w'|
      ensures w'[i].key < w'[j].key
    {
      assert w'[i] == w[i];
      if j < |w| {
        assert w'[j] == w[j];
      }
    }
  }

  /** The window denotes the range's part of the map, whatever the order. */
  lemma {:induction false} WindowMap(es: seq<Entry>, lo: int, hi: int)
    ensures AsMap(Window(es, lo, hi)) == Restrict(AsMap(es), lo, hi)
    decreases |es|
  {
    if es != [] {
      var init := es[..|es| - 1];
      var last := es[|es| - 1];
      WindowMap(init, lo, hi);
      var w := Window(init, lo, hi);
      if lo <= last.key < hi {
        assert Window(es, lo, hi) == w + [last];
        assert (w + [last])[..|w|] == w;
        RestrictUpdateIn(AsMap(init), lo, hi, last.key, last.values);
      } else {
        assert Window(es, lo, hi) == w;
        RestrictUpdateOut(AsMap(init), lo, hi, last.key, last.values);
      }
    }
  }

  lemma RestrictUpdateIn(m: map<int, set<string>>, lo: int, hi: int, k: int, v: set<string>)
    requires lo <= k < hi
    ensures Restrict(m[k := v], lo, hi) == Restrict(m, lo, hi)[k := v]
  {
  }

  lemma RestrictUpdateOut(m: map<int, set<string>>, lo: int, hi: int, k: int, v: set<string>)
    requires !(lo <= k < hi)
    ensures Restrict(m[k := v], lo, hi) == Restrict(m, lo, hi)
  {
  }
}
