/** What splicing a node into one level's chain, or unlinking it, does to
    the chain and to the list's entries. These are the per-level steps of
    AddOrModify (internals/skiplist.go:257-260) and DeleteOrModify
    (internals/skiplist.go:127-129). */
module SkipListSplice {
  import opened SortedEntries
  import opened SkipListModel

  function InsertAt(c: seq<nat>, q: nat, x: nat): (r: seq<nat>)
    requires q <= |c|
    ensures |r| == |c| + 1
  {
    seq(|c| + 1, i requires 0 <= i <= |c| => if i < q then c[i] else if i == q then x else c[i - 1])
  }

  function RemoveAt(c: seq<nat>, q: nat): (r: seq<nat>)
    requires q < |c|
    ensures |r| == |c| - 1
  {
    seq(|c| - 1, i requires 0 <= i < |c| - 1 => if i < q then c[i] else c[i + 1])
  }

  /** p is the position of the last node of chain c whose key is below key
      (-1: the header): the predecessor a descent stops at on that level. */
  ghost predicate PredAt(s: SkipList, c: seq<nat>, key: int, p: int)
    requires forall q :: 0 <= q < |c| ==> c[q] < |s.nodes|
  {
    && -1 <= p < |c|
    && (p >= 0 ==> s.nodes[c[p]].key < key)
    && (p + 1 < |c| ==> key <= s.nodes[c[p + 1]].key)
  }

  /** ps holds, for every level, the predecessor position of a descent to
      key. */
  ghost predicate Descent(s: SkipList, key: int, ps: seq<int>)
    requires Valid(s)
  {
    && |ps| == s.maxLevels
    && forall j :: 0 <= j < s.maxLevels ==>
         -1 <= ps[j] < |Chains(s)[j]| && PredAt(s, Chains(s)[j], key, ps[j])
  }

  /** The node a descent to key stops at on level j (possibly the header). */
  ghost function PredNode(s: SkipList, key: int, ps: seq<int>, j: nat): (x: nat)
    requires Valid(s) && Descent(s, key, ps) && j < s.maxLevels
    ensures IsChain(s, j, Chains(s)[j]) && PredAt(s, Chains(s)[j], key, ps[j])
    ensures x == NodeAt(Chains(s)[j], ps[j]) && x < |s.nodes|
  {
    assert IsChain(s, j, Chains(s)[j]);
    NodeAt(Chains(s)[j], ps[j])
  }

  /** On an ordered chain the predecessor position splits the chain into the
      keys below key and those at or above it. */
  lemma PredAtSplits(s: SkipList, j: nat, c: seq<nat>, key: int, p: int)
    requires Shaped(s) && j < s.maxLevels && IsChain(s, j, c) && PredAt(s, c, key, p)
    ensures forall q :: 0 <= q <= p ==> s.nodes[c[q]].key < key
    ensures forall q :: p < q < |c| ==> key <= s.nodes[c[q]].key
  {
    forall q | 0 <= q < p
      ensures s.nodes[c[q]].key < key
    {
      KeyOrder(s, j, c, q, p);
    }
    forall q | p + 1 < q < |c|
      ensures key <= s.nodes[c[q]].key
    {
      KeyOrder(s, j, c, p + 1, q);
    }
  }

  lemma InsertAtMembers(c: seq<nat>, q: nat, x: nat)
    requires q <= |c|
    ensures forall y :: y in InsertAt(c, q, x) <==> y in c || y == x
  {
    var r := InsertAt(c, q, x);
    forall y | y in r
      ensures y in c || y == x
    {
      var t :| 0 <= t < |r| && r[t] == y;
      if t < q {
        assert c[t] == y;
      } else if t > q {
        assert c[t - 1] == y;
      }
    }
    forall y | y in c
      ensures y in r
    {
      var t :| 0 <= t < |c| && c[t] == y;
      if t < q {
        assert r[t] == y;
      } else {
        assert r[t + 1] == y;
      }
    }
    assert r[q] == x;
  }

  lemma RemoveAtMembers(s: SkipList, j: nat, c: seq<nat>, q: nat)
    requires Shaped(s) && j < s.maxLevels && IsChain(s, j, c) && q < |c|
    ensures forall y :: y in RemoveAt(c, q) <==> y in c && y != c[q]
  {
    var r := RemoveAt(c, q);
    forall y | y in r
      ensures y in c && y != c[q]
    {
      var t :| 0 <= t < |r| && r[t] == y;
      var u := if t < q then t else t + 1;
      assert c[u] == y;
      ChainDistinct(s, j, c, u, q);
    }
    forall y | y in c && y != c[q]
      ensures y in r
    {
      var t :| 0 <= t < |c| && c[t] == y;
      if t < q {
        assert r[t] == y;
      } else {
        assert r[t - 1] == y;
      }
    }
  }

  /** A chain survives any change that keeps the links and keys of its
      nodes and of the header. */
  lemma ChainFrame(s: SkipList, s': SkipList, j: nat, c: seq<nat>)
    requires Shaped(s) && Shaped(s') && j < s.maxLevels == s'.maxLevels && s'.minKey == s.minKey
    requires IsChain(s, j, c) && |s.nodes| <= |s'.nodes|
    requires forall p :: -1 <= p < |c| ==>
      s'.nodes[NodeAt(c, p)].next[j] == s.nodes[NodeAt(c, p)].next[j]
      && s'.nodes[NodeAt(c, p)].key == s.nodes[NodeAt(c, p)].key
    ensures IsChain(s', j, c)
  {
    forall p | 0 <= p < |c|
      ensures s'.nodes[c[p]].key == s.nodes[c[p]].key
    {
      assert NodeAt(c, p) == c[p];
    }
    assert KeysOf(s', c) == KeysOf(s, c);
  }

  /** Preconditions shared by the splice lemmas: node n (fresh, at the end
      of the arena) is spliced after position p of level j's chain c. */
  ghost predicate SpliceStep(s: SkipList, s': SkipList, j: nat, c: seq<nat>, p: int, n: nat)
  {
    && Shaped(s) && Shaped(s') && j < s.maxLevels == s'.maxLevels && s'.minKey == s.minKey
    && IsChain(s, j, c) && -1 <= p < |c|
    && n == |s.nodes| && |s'.nodes| == n + 1
    && (forall k :: 0 <= k < n ==> s'.nodes[k].key == s.nodes[k].key)
    && s.minKey <= s'.nodes[n].key
    && (p >= 0 ==> s.nodes[c[p]].key < s'.nodes[n].key)
    && (p + 1 < |c| ==> s'.nodes[n].key < s.nodes[c[p + 1]].key)
    && s'.nodes[n].next[j] == LinkAt(c, p + 1)
    && s'.nodes[NodeAt(c, p)].next[j] == Ptr(n)
    && (forall q :: -1 <= q < |c| && q != p ==>
         s'.nodes[NodeAt(c, q)].next[j] == s.nodes[NodeAt(c, q)].next[j])
  }

  lemma InsertIncreasing(ks: seq<int>, q: nat, k: int)
    requires Increasing(ks) && q <= |ks|
    requires q > 0 ==> ks[q - 1] < k
    requires q < |ks| ==> k < ks[q]
    ensures Increasing(ks[..q] + [k] + ks[q..])
  {
    var ks' := ks[..q] + [k] + ks[q..];
    forall r, t | 0 <= r < t < |ks'|
      ensures ks'[r] < ks'[t]
    {
      if t < q {
      } else if t == q {
        if r < q - 1 { assert ks[r] < ks[q - 1]; }
      } else if r == q {
        if t - 1 > q { assert ks[q] < ks[t - 1]; }
      } else if r < q {
        assert ks[r] < ks[t - 1];
      } else {
        assert ks[r - 1] < ks[t - 1];
      }
    }
  }

  lemma SpliceOrder(s: SkipList, s': SkipList, j: nat, c: seq<nat>, p: int, n: nat, c': seq<nat>)
    requires SpliceStep(s, s', j, c, p, n) && c' == InsertAt(c, p + 1, n)
    requires forall r :: 0 <= r < |c'| ==> c'[r] < |s'.nodes|
    ensures Increasing(KeysOf(s', c'))
  {
    var ks := KeysOf(s, c);
    assert Increasing(ks);
    var q := p + 1;
    InsertIncreasing(ks, q, s'.nodes[n].key);
    var ks' := ks[..q] + [s'.nodes[n].key] + ks[q..];
    forall r | 0 <= r < |c'|
      ensures KeysOf(s', c')[r] == ks'[r]
    {
      if r < q {
        assert c'[r] == c[r];
      } else if r > q {
        assert c'[r] == c[r - 1];
      }
    }
    assert KeysOf(s', c') == ks';
  }

  lemma SpliceLevelLinks(s: SkipList, s': SkipList, j: nat, c: seq<nat>, p: int, n: nat)
    requires SpliceStep(s, s', j, c, p, n)
    ensures var c' := InsertAt(c, p + 1, n);
      forall r :: -1 <= r < |c'| ==> s'.nodes[NodeAt(c', r)].next[j] == LinkAt(c', r + 1)
  {
    var c' := InsertAt(c, p + 1, n);
    forall r | -1 <= r < |c'|
      ensures s'.nodes[NodeAt(c', r)].next[j] == LinkAt(c', r + 1)
    {
      if r < p {
        assert NodeAt(c', r) == NodeAt(c, r);
        assert LinkAt(c', r + 1) == LinkAt(c, r + 1);
        assert s.nodes[NodeAt(c, r)].next[j] == LinkAt(c, r + 1);
      } else if r == p {
        assert NodeAt(c', r) == NodeAt(c, p);
        assert LinkAt(c', r + 1) == Ptr(n);
      } else if r == p + 1 {
        assert NodeAt(c', r) == n;
        assert LinkAt(c', r + 1) == LinkAt(c, p + 1);
      } else {
        assert NodeAt(c', r) == NodeAt(c, r - 1);
        assert LinkAt(c', r + 1) == LinkAt(c, r);
        assert s.nodes[NodeAt(c, r - 1)].next[j] == LinkAt(c, r);
      }
    }
  }

  /** Splicing node n after position p of level j's chain: p's link now
      leads to n, n's link takes over p's old link, nothing else on the chain
      changes, and n's key falls strictly between its neighbours'. */
  lemma SpliceChain(s: SkipList, s': SkipList, j: nat, c: seq<nat>, p: int, n: nat)
    requires SpliceStep(s, s', j, c, p, n)
    ensures IsChain(s', j, InsertAt(c, p + 1, n))
  {
    var c' := InsertAt(c, p + 1, n);
    forall r | 0 <= r < |c'|
      ensures 0 < c'[r] < |s'.nodes| && s.minKey <= s'.nodes[c'[r]].key
    {
      if r <= p {
        assert c'[r] == c[r];
      } else if r > p + 1 {
        assert c'[r] == c[r - 1];
      }
    }
    SpliceOrder(s, s', j, c, p, n, c');
    SpliceLevelLinks(s, s', j, c, p, n);
  }

  ghost predicate UnspliceStep(s: SkipList, s': SkipList, j: nat, c: seq<nat>, p: int)
  {
    && Shaped(s) && Shaped(s') && j < s.maxLevels == s'.maxLevels && s'.minKey == s.minKey
    && IsChain(s, j, c) && -1 <= p && p + 1 < |c|
    && |s'.nodes| == |s.nodes|
    && (forall k :: 0 <= k < |s.nodes| ==> s'.nodes[k].key == s.nodes[k].key)
    && s'.nodes[NodeAt(c, p)].next[j] == s.nodes[c[p + 1]].next[j]
    && (forall q :: -1 <= q < |c| && q != p ==>
         s'.nodes[NodeAt(c, q)].next[j] == s.nodes[NodeAt(c, q)].next[j])
  }

  lemma UnspliceLinks(s: SkipList, s': SkipList, j: nat, c: seq<nat>, p: int)
    requires UnspliceStep(s, s', j, c, p)
    ensures var c' := RemoveAt(c, p + 1);
      forall r :: -1 <= r < |c'| ==> s'.nodes[NodeAt(c', r)].next[j] == LinkAt(c', r + 1)
  {
    var c' := RemoveAt(c, p + 1);
    forall r | -1 <= r < |c'|
      ensures s'.nodes[NodeAt(c', r)].next[j] == LinkAt(c', r + 1)
    {
      if r < p {
        assert NodeAt(c', r) == NodeAt(c, r);
        assert LinkAt(c', r + 1) == LinkAt(c, r + 1);
        assert s.nodes[NodeAt(c, r)].next[j] == LinkAt(c, r + 1);
      } else if r == p {
        assert NodeAt(c', r) == NodeAt(c, p);
        assert LinkAt(c', r + 1) == LinkAt(c, p + 2);
        assert s.nodes[NodeAt(c, p + 1)].next[j] == LinkAt(c, p + 2);
      } else {
        assert NodeAt(c', r) == NodeAt(c, r + 1);
        assert LinkAt(c', r + 1) == LinkAt(c, r + 2);
        assert s.nodes[NodeAt(c, r + 1)].next[j] == LinkAt(c, r + 2);
      }
    }
  }

  /** Unlinking the node after position p from level j's chain: p's link
      takes over the removed node's link and nothing else on the chain
      changes. */
  lemma UnspliceChain(s: SkipList, s': SkipList, j: nat, c: seq<nat>, p: int)
    requires UnspliceStep(s, s', j, c, p)
    ensures IsChain(s', j, RemoveAt(c, p + 1))
  {
    var c' := RemoveAt(c, p + 1);
    forall r | 0 <= r < |c'|
      ensures 0 < c'[r] < |s'.nodes| && s.minKey <= s'.nodes[c'[r]].key
    {
      if r <= p {
        assert c'[r] == c[r];
      } else {
        assert c'[r] == c[r + 1];
      }
    }
    var ks' := KeysOf(s', c');
    forall r, t | 0 <= r < t < |c'|
      ensures ks'[r] < ks'[t]
    {
      var r0 := if r <= p then r else r + 1;
      var t0 := if t <= p then t else t + 1;
      assert c'[r] == c[r0] && c'[t] == c[t0];
      KeyOrder(s, j, c, r0, t0);
    }
    UnspliceLinks(s, s', j, c, p);
  }

  // ---------------------------------------------------------------------
  // Entries of a chain after splicing, unlinking or replacing a value

  lemma EntriesInsert(s: SkipList, s': SkipList, c: seq<nat>, q: nat, n: nat)
    requires q <= |c| && n < |s'.nodes|
    requires forall p :: 0 <= p < |c| ==> c[p] < |s.nodes| && c[p] < |s'.nodes|
    requires forall p :: 0 <= p < |c| ==>
      s'.nodes[c[p]].key == s.nodes[c[p]].key && s'.nodes[c[p]].values == s.nodes[c[p]].values
    ensures EntriesOf(s', InsertAt(c, q, n)) ==
      EntriesOf(s, c)[..q] + [Entry(s'.nodes[n].key, s'.nodes[n].values)] + EntriesOf(s, c)[q..]
  {
    var c' := InsertAt(c, q, n);
    assert forall r :: 0 <= r < q ==> c'[r] == c[r];
    assert forall r :: q < r < |c'| ==> c'[r] == c[r - 1];
  }

  lemma EntriesRemove(s: SkipList, s': SkipList, c: seq<nat>, q: nat)
    requires q < |c|
    requires forall p :: 0 <= p < |c| ==> c[p] < |s.nodes| && c[p] < |s'.nodes|
    requires forall p :: 0 <= p < |c| && p != q ==>
      s'.nodes[c[p]].key == s.nodes[c[p]].key && s'.nodes[c[p]].values == s.nodes[c[p]].values
    ensures EntriesOf(s', RemoveAt(c, q)) == EntriesOf(s, c)[..q] + EntriesOf(s, c)[q + 1..]
  {
    var c' := RemoveAt(c, q);
    assert forall r :: 0 <= r < q ==> c'[r] == c[r];
    assert forall r :: q <= r < |c'| ==> c'[r] == c[r + 1];
  }

  lemma EntriesReplace(s: SkipList, s': SkipList, c: seq<nat>, q: nat)
    requires q < |c|
    requires forall p :: 0 <= p < |c| ==> c[p] < |s.nodes| && c[p] < |s'.nodes|
    requires forall p :: 0 <= p < |c| && p != q ==>
      s'.nodes[c[p]].key == s.nodes[c[p]].key && s'.nodes[c[p]].values == s.nodes[c[p]].values
    ensures EntriesOf(s', c) ==
      EntriesOf(s, c)[..q] + [Entry(s'.nodes[c[q]].key, s'.nodes[c[q]].values)] + EntriesOf(s, c)[q + 1..]
  {
  }

  /** Splits an ascending run around position q. */
  lemma SplitAt(es: seq<Entry>, q: nat)
    requires q < |es|
    ensures es == es[..q] + [es[q]] + es[q + 1..]
  {
  }
}
