/** Whole-list consequences of the per-level steps: what replacing a value,
    splicing in a fresh node on levels 0..L, or unlinking a node does to the
    chains, to the invariants and to the abstract map. */
module SkipListSteps {
  import opened SortedEntries
  import opened SkipListModel
  import opened SkipListSplice

  function Max(a: int, b: int): int {
    if a < b then b else a
  }

  /** After a descent to key, the node following the level-0 predecessor
      carries key exactly when key is in the list, and then holds its
      members. */
  lemma FoundKey(s: SkipList, key: int, p: int)
    requires Valid(s) && IsChain(s, 0, Chains(s)[0]) && PredAt(s, Chains(s)[0], key, p)
    ensures var c := Chains(s)[0];
      key in Abs(s) <==> p + 1 < |c| && s.nodes[c[p + 1]].key == key
    ensures var c := Chains(s)[0];
      p + 1 < |c| && s.nodes[c[p + 1]].key == key ==> Abs(s)[key] == s.nodes[c[p + 1]].values
  {
    var c := Chains(s)[0];
    var E := Entries(s);
    assert E == EntriesOf(s, c);
    PredAtSplits(s, 0, c, key, p);
    if p + 1 < |c| && s.nodes[c[p + 1]].key == key {
      assert E[p + 1] == Entry(key, s.nodes[c[p + 1]].values);
      AsMapHas(E, p + 1);
    } else {
      forall t | 0 <= t < |E|
        ensures E[t].key != key
      {
        assert E[t].key == s.nodes[c[t]].key;
        if t > p + 1 {
          KeyOrder(s, 0, c, p + 1, t);
        }
      }
      AsMapMissing(E, key);
    }
  }

  /** A node on any level is on level 0, so its key is in the list. */
  lemma OnLevelInAbs(s: SkipList, j: nat, t: nat)
    requires Valid(s) && j < s.maxLevels && t < |Chains(s)[j]|
    ensures IsChain(s, j, Chains(s)[j])
    ensures Chains(s)[j][t] < |s.nodes| && s.nodes[Chains(s)[j][t]].key in Abs(s)
  {
    var W := Chains(s);
    assert IsChain(s, j, W[j]);
    WithinDown(s, W, 0, j);
    assert W[j][t] in W[j];
    var u :| 0 <= u < |W[0]| && W[0][u] == W[j][t];
    assert IsChain(s, 0, W[0]);
    var E := Entries(s);
    assert E == EntriesOf(s, W[0]);
    assert E[u].key == s.nodes[W[j][t]].key;
    AsMapHas(E, u);
  }

  /** The list with the members of the node at arena index x replaced. */
  function WithValues(s: SkipList, x: nat, v: set<string>): SkipList
    requires x < |s.nodes|
  {
    s.(nodes := s.nodes[x := s.nodes[x].(values := v)])
  }

  /** Replacing a node's members in place changes no link and only that
      key's value. */
  lemma SetValues(s: SkipList, q: nat, v: set<string>)
    requires Valid(s) && q < |Chains(s)[0]|
    ensures IsChain(s, 0, Chains(s)[0])
    ensures var x := Chains(s)[0][q];
      var s' := WithValues(s, x, v);
      && Valid(s') && Chains(s') == Chains(s)
      && Abs(s') == Abs(s)[s.nodes[x].key := v]
  {
    var W := Chains(s);
    assert IsChain(s, 0, W[0]);
    var x := W[0][q];
    var s' := WithValues(s, x, v);
    forall j | 0 <= j < s.maxLevels
      ensures IsChain(s', j, W[j])
    {
      ChainFrame(s, s', j, W[j]);
    }
    assert Links(s', W);
    ChainsAre(s', W);
    var E := Entries(s);
    assert E == EntriesOf(s, W[0]);
    assert Entries(s') == EntriesOf(s', W[0]);
    forall p | 0 <= p < |W[0]| && p != q
      ensures W[0][p] != x
    {
      ChainDistinct(s, 0, W[0], p, q);
    }
    EntriesReplace(s, s', W[0], q);
    SplitAt(E, q);
    AsMapReplace(E[..q], E[q], Entry(s.nodes[x].key, v), E[q + 1..]);
  }

  // ---------------------------------------------------------------------
  // Splicing a fresh node in on levels 0..L

  /** The link a node has at level j once n is spliced in after pred. */
  ghost function Spliced(base: seq<Node>, k: nat, j: nat, pred: nat, n: nat): Link
    requires k < |base| && pred < |base| && j < |base[k].next| && j < |base[pred].next|
  {
    if k == n then base[pred].next[j]
    else if k == pred then Ptr(n)
    else base[k].next[j]
  }

  /** nodes is the arena base (whose last node n is fresh) after n has been
      spliced in after preds[j] on every level j <= L. */
  ghost predicate SplicedArena(base: seq<Node>, nodes: seq<Node>, n: nat, preds: seq<nat>, L: int, M: nat)
  {
    && |base| == |nodes| == n + 1 && -1 <= L < M && |preds| == L + 1
    && (forall j :: 0 <= j <= L ==> preds[j] < n)
    && (forall k :: 0 <= k <= n ==>
         && |base[k].next| == M && |nodes[k].next| == M
         && nodes[k].key == base[k].key && nodes[k].values == base[k].values)
    && (forall k, j :: 0 <= k <= n && 0 <= j <= L ==> nodes[k].next[j] == Spliced(base, k, j, preds[j], n))
    && (forall k, j :: 0 <= k <= n && L < j < M ==> nodes[k].next[j] == base[k].next[j])
  }

  /** What InsertNewNode assumes: s' is s with a fresh node carrying key and
      value spliced in on levels 0..L after the predecessors ps of a descent
      to key, which is not yet in s. */
  ghost predicate SpliceSetup(s: SkipList, s': SkipList, key: int, value: set<string>, L: nat, ps: seq<int>, preds: seq<nat>)
  {
    && Valid(s) && s.minKey <= key && L < s.maxLevels && key !in Abs(s)
    && Descent(s, key, ps) && |preds| == L + 1
    && (forall j :: 0 <= j <= L ==> preds[j] == PredNode(s, key, ps, j))
    && s'.maxLevels == s.maxLevels && s'.minKey == s.minKey
    && s'.currentLevel == Max(s.currentLevel, L)
    && SplicedArena(s.nodes + [CreateNewNode(s.maxLevels, key, value)], s'.nodes, |s.nodes|, preds, L, s.maxLevels)
  }

  /** The chains after the splice: level j <= L gains n right after the
      predecessor position ps[j]. */
  ghost function NewChains(s: SkipList, key: int, L: nat, ps: seq<int>, n: nat): (W': seq<seq<nat>>)
    requires Valid(s) && L < s.maxLevels && Descent(s, key, ps)
    ensures |W'| == s.maxLevels
  {
    seq(s.maxLevels, j requires 0 <= j < s.maxLevels =>
      if j <= L then InsertAt(Chains(s)[j], ps[j] + 1, n) else Chains(s)[j])
  }

  lemma SpliceShaped(s: SkipList, s': SkipList, key: int, value: set<string>, L: nat, ps: seq<int>, preds: seq<nat>)
    requires SpliceSetup(s, s', key, value, L, ps, preds)
    ensures Shaped(s')
    ensures s'.nodes[|s.nodes|].key == key && s'.nodes[|s.nodes|].values == value
    ensures forall k :: 0 <= k < |s.nodes| ==>
      s'.nodes[k].key == s.nodes[k].key && s'.nodes[k].values == s.nodes[k].values
  {
    var base := s.nodes + [CreateNewNode(s.maxLevels, key, value)];
    assert base[|s.nodes|].key == key && base[|s.nodes|].values == value;
    assert forall k :: 0 <= k < |s.nodes| ==> base[k] == s.nodes[k];
  }

  /** The links of one level of a spliced arena, in terms of the arena
      before the fresh node was added. */
  lemma ArenaAt(olds: seq<Node>, node: Node, nodes: seq<Node>, preds: seq<nat>, L: int, M: nat, j: nat)
    requires SplicedArena(olds + [node], nodes, |olds|, preds, L, M) && j < M
    ensures j <= L ==> nodes[|olds|].next[j] == olds[preds[j]].next[j]
    ensures j <= L ==> nodes[preds[j]].next[j] == Ptr(|olds|)
    ensures forall k :: 0 <= k < |olds| && (L < j || k != preds[j]) ==> nodes[k].next[j] == olds[k].next[j]
  {
    var base := olds + [node];
    assert forall k :: 0 <= k < |olds| ==> base[k] == olds[k];
  }

  lemma SpliceLevel(s: SkipList, s': SkipList, key: int, value: set<string>, L: nat, ps: seq<int>, preds: seq<nat>, j: nat)
    requires SpliceSetup(s, s', key, value, L, ps, preds) && j < s.maxLevels
    ensures Shaped(s') && IsChain(s', j, NewChains(s, key, L, ps, |s.nodes|)[j])
  {
    SpliceShaped(s, s', key, value, L, ps, preds);
    SpliceSetupAt(s, s', key, value, L, ps, preds, j);
    var c := Chains(s)[j];
    ArenaAt(s.nodes, CreateNewNode(s.maxLevels, key, value), s'.nodes, preds, L, s.maxLevels, j);
    var c' := NewChains(s, key, L, ps, |s.nodes|)[j];
    if j <= L {
      SpliceLevelBelow(s, s', j, c, ps[j], key, c');
    } else {
      SpliceLevelAbove(s, s', j, c, c');
    }
  }

  /** Level j's part of a splice setup. */
  lemma SpliceSetupAt(s: SkipList, s': SkipList, key: int, value: set<string>, L: nat, ps: seq<int>, preds: seq<nat>, j: nat)
    requires SpliceSetup(s, s', key, value, L, ps, preds) && j < s.maxLevels
    ensures var c := Chains(s)[j];
      && IsChain(s, j, c) && PredAt(s, c, key, ps[j])
      && (j <= L ==> preds[j] == NodeAt(c, ps[j]))
      && (ps[j] + 1 < |c| ==> s.nodes[c[ps[j] + 1]].key != key)
      && NewChains(s, key, L, ps, |s.nodes|)[j] == if j <= L then InsertAt(c, ps[j] + 1, |s.nodes|) else c
  {
    var c := Chains(s)[j];
    assert IsChain(s, j, c) && PredAt(s, c, key, ps[j]);
    NextKeyDiffers(s, key, ps, j);
    NewChainsAt(s, key, L, ps, j);
  }

  /** The node after a descent's predecessor does not carry a key that is
      absent from the list. */
  lemma NextKeyDiffers(s: SkipList, key: int, ps: seq<int>, j: nat)
    requires Valid(s) && Descent(s, key, ps) && key !in Abs(s) && j < s.maxLevels
    ensures var c := Chains(s)[j];
      IsChain(s, j, c) && (ps[j] + 1 < |c| ==> s.nodes[c[ps[j] + 1]].key != key)
  {
    var c := Chains(s)[j];
    assert -1 <= ps[j] < |c|;
    if ps[j] + 1 < |c| {
      OnLevelInAbs(s, j, ps[j] + 1);
    }
  }

  lemma NewChainsAt(s: SkipList, key: int, L: nat, ps: seq<int>, j: nat)
    requires Valid(s) && L < s.maxLevels && Descent(s, key, ps) && j < s.maxLevels
    ensures -1 <= ps[j] < |Chains(s)[j]|
    ensures NewChains(s, key, L, ps, |s.nodes|)[j] ==
      if j <= L then InsertAt(Chains(s)[j], ps[j] + 1, |s.nodes|) else Chains(s)[j]
  {
  }

  /** A level the splice does not touch keeps its chain. */
  lemma SpliceLevelAbove(s: SkipList, s': SkipList, j: nat, c: seq<nat>, c': seq<nat>)
    requires Shaped(s) && Shaped(s') && j < s.maxLevels == s'.maxLevels && s'.minKey == s.minKey
    requires IsChain(s, j, c) && |s.nodes| <= |s'.nodes| && c' == c
    requires forall k :: 0 <= k < |s.nodes| ==> s'.nodes[k].key == s.nodes[k].key
    requires forall k :: 0 <= k < |s.nodes| ==> s'.nodes[k].next[j] == s.nodes[k].next[j]
    ensures IsChain(s', j, c')
  {
    ChainFrame(s, s', j, c);
  }

  /** One level of the splice: the fresh last node n, whose key lies strictly
      between the predecessor's and the successor's, enters the chain right
      after position p. */
  lemma SpliceLevelBelow(s: SkipList, s': SkipList, j: nat, c: seq<nat>, p: int, key: int, c': seq<nat>)
    requires Shaped(s) && Shaped(s') && j < s.maxLevels == s'.maxLevels && s'.minKey == s.minKey
    requires IsChain(s, j, c) && PredAt(s, c, key, p) && s.minKey <= key
    requires p + 1 < |c| ==> s.nodes[c[p + 1]].key != key
    requires |s'.nodes| == |s.nodes| + 1 && s'.nodes[|s.nodes|].key == key
    requires forall k :: 0 <= k < |s.nodes| ==> s'.nodes[k].key == s.nodes[k].key
    requires s'.nodes[|s.nodes|].next[j] == s.nodes[NodeAt(c, p)].next[j]
    requires s'.nodes[NodeAt(c, p)].next[j] == Ptr(|s.nodes|)
    requires forall k :: 0 <= k < |s.nodes| && k != NodeAt(c, p) ==> s'.nodes[k].next[j] == s.nodes[k].next[j]
    requires c' == InsertAt(c, p + 1, |s.nodes|)
    ensures IsChain(s', j, c')
  {
    forall q | -1 <= q < |c| && q != p
      ensures s'.nodes[NodeAt(c, q)].next[j] == s.nodes[NodeAt(c, q)].next[j]
    {
      ChainDistinct(s, j, c, p, q);
    }
    assert SpliceStep(s, s', j, c, p, |s.nodes|);
    SpliceChain(s, s', j, c, p, |s.nodes|);
  }

  lemma SpliceLinks(s: SkipList, s': SkipList, key: int, value: set<string>, L: nat, ps: seq<int>, preds: seq<nat>)
    requires SpliceSetup(s, s', key, value, L, ps, preds)
    ensures Shaped(s') && Links(s', NewChains(s, key, L, ps, |s.nodes|))
  {
    SpliceShaped(s, s', key, value, L, ps, preds);
    var W' := NewChains(s, key, L, ps, |s.nodes|);
    forall j | 0 <= j < s.maxLevels
      ensures IsChain(s', j, W'[j])
    {
      SpliceLevel(s, s', key, value, L, ps, preds, j);
    }
    forall j | 0 < j < s.maxLevels
      ensures Within(W'[j], W'[j - 1])
    {
      SpliceNestedAt(s, key, L, ps, j);
    }
    SpliceTop(s, s', key, value, L, ps, preds);
  }

  lemma SpliceNestedAt(s: SkipList, key: int, L: nat, ps: seq<int>, j: nat)
    requires Valid(s) && L < s.maxLevels && Descent(s, key, ps) && 0 < j < s.maxLevels
    ensures var W' := NewChains(s, key, L, ps, |s.nodes|); Within(W'[j], W'[j - 1])
  {
    var W := Chains(s);
    var W' := NewChains(s, key, L, ps, |s.nodes|);
    assert Within(W[j], W[j - 1]);
    NewLevelMembers(s, key, L, ps, j);
    NewLevelMembers(s, key, L, ps, j - 1);
    WithinGrow(W[j], W[j - 1], W'[j], W'[j - 1], |s.nodes|, j <= L, j - 1 <= L);
  }

  /** After the splice level j holds its old nodes, plus n when j <= L. */
  lemma NewLevelMembers(s: SkipList, key: int, L: nat, ps: seq<int>, j: nat)
    requires Valid(s) && L < s.maxLevels && Descent(s, key, ps) && j < s.maxLevels
    ensures forall y :: y in NewChains(s, key, L, ps, |s.nodes|)[j] <==> y in Chains(s)[j] || (j <= L && y == |s.nodes|)
  {
    assert -1 <= ps[j] < |Chains(s)[j]|;
    GrowMembers(Chains(s)[j], ps[j] + 1, |s.nodes|, NewChains(s, key, L, ps, |s.nodes|)[j], j <= L);
  }

  /** The members of c, with x added when b holds. */
  lemma GrowMembers(c: seq<nat>, q: int, x: nat, r: seq<nat>, b: bool)
    requires b ==> 0 <= q <= |c| && r == InsertAt(c, q, x)
    requires !b ==> r == c
    ensures forall y :: y in r <==> y in c || (b && y == x)
  {
    if b {
      InsertAtMembers(c, q, x);
    }
  }

  lemma WithinGrow(a: seq<nat>, b: seq<nat>, a': seq<nat>, b': seq<nat>, n: nat, ia: bool, ib: bool)
    requires Within(a, b) && (ia ==> ib)
    requires forall y :: y in a' <==> y in a || (ia && y == n)
    requires forall y :: y in b' <==> y in b || (ib && y == n)
    ensures Within(a', b')
  {
  }

  lemma SpliceTop(s: SkipList, s': SkipList, key: int, value: set<string>, L: nat, ps: seq<int>, preds: seq<nat>)
    requires SpliceSetup(s, s', key, value, L, ps, preds)
    ensures var W' := NewChains(s, key, L, ps, |s.nodes|);
      && (forall j :: s'.currentLevel < j < s.maxLevels ==> W'[j] == [])
      && (s'.currentLevel >= 0 ==> W'[s'.currentLevel] != [])
  {
    var W := Chains(s);
    var W' := NewChains(s, key, L, ps, |s.nodes|);
    if L >= s.currentLevel {
      assert PredAt(s, W[L], key, ps[L]);
      InsertAtMembers(W[L], ps[L] + 1, |s.nodes|);
      assert |s.nodes| in W'[L];
    } else {
      assert W'[s.currentLevel] == W[s.currentLevel];
    }
  }

  /** Splicing a fresh node with key and value into levels 0..L after the
      predecessors a descent found keeps the invariants, raises
      currentLevel to at least L, and adds exactly key |-> value. */
  lemma InsertNewNode(s: SkipList, s': SkipList, key: int, value: set<string>, L: nat, ps: seq<int>, preds: seq<nat>)
    requires Valid(s) && s.minKey <= key && L < s.maxLevels && key !in Abs(s)
    requires Descent(s, key, ps) && |preds| == L + 1
    requires forall j :: 0 <= j <= L ==> preds[j] == PredNode(s, key, ps, j)
    requires s'.maxLevels == s.maxLevels && s'.minKey == s.minKey
    requires s'.currentLevel == Max(s.currentLevel, L)
    requires SplicedArena(s.nodes + [CreateNewNode(s.maxLevels, key, value)], s'.nodes, |s.nodes|, preds, L, s.maxLevels)
    ensures Valid(s') && Abs(s') == Abs(s)[key := value]
    ensures Chains(s') == NewChains(s, key, L, ps, |s.nodes|)
    ensures OnLevelsUpTo(s', key, L)
  {
    assert SpliceSetup(s, s', key, value, L, ps, preds);
    Splice(s, s', key, value, L, ps, preds);
  }

  lemma Splice(s: SkipList, s': SkipList, key: int, value: set<string>, L: nat, ps: seq<int>, preds: seq<nat>)
    requires SpliceSetup(s, s', key, value, L, ps, preds)
    ensures Valid(s') && Abs(s') == Abs(s)[key := value]
    ensures Chains(s') == NewChains(s, key, L, ps, |s.nodes|)
    ensures OnLevelsUpTo(s', key, L)
  {
    SpliceValid(s, s', key, value, L, ps, preds);
    NewNodeLevels(s, s', key, value, L, ps, preds);
    SpliceAbsAt(s, s', key, value, L, ps, preds);
  }

  lemma SpliceValid(s: SkipList, s': SkipList, key: int, value: set<string>, L: nat, ps: seq<int>, preds: seq<nat>)
    requires SpliceSetup(s, s', key, value, L, ps, preds)
    ensures Valid(s') && Chains(s') == NewChains(s, key, L, ps, |s.nodes|)
  {
    SpliceLinks(s, s', key, value, L, ps, preds);
    ChainsAre(s', NewChains(s, key, L, ps, |s.nodes|));
  }

  lemma SpliceAbsAt(s: SkipList, s': SkipList, key: int, value: set<string>, L: nat, ps: seq<int>, preds: seq<nat>)
    requires SpliceSetup(s, s', key, value, L, ps, preds)
    requires Valid(s') && Chains(s') == NewChains(s, key, L, ps, |s.nodes|)
    ensures Abs(s') == Abs(s)[key := value]
  {
    SpliceShaped(s, s', key, value, L, ps, preds);
    SpliceSetupAt(s, s', key, value, L, ps, preds, 0);
    SpliceAbs(s, s', key, value, ps[0] + 1);
  }

  lemma NewNodeLevels(s: SkipList, s': SkipList, key: int, value: set<string>, L: nat, ps: seq<int>, preds: seq<nat>)
    requires SpliceSetup(s, s', key, value, L, ps, preds)
    requires Valid(s') && Chains(s') == NewChains(s, key, L, ps, |s.nodes|)
    ensures OnLevelsUpTo(s', key, L)
  {
    forall j | 0 <= j < s.maxLevels
      ensures OnLevel(s', j, key) <==> j <= L
    {
      NewNodeLevel(s, s', key, value, L, ps, preds, j);
    }
  }

  /** The fresh node is on level j exactly when j <= L, and no other node
      carries its key. */
  lemma NewNodeLevel(s: SkipList, s': SkipList, key: int, value: set<string>, L: nat, ps: seq<int>, preds: seq<nat>, j: nat)
    requires SpliceSetup(s, s', key, value, L, ps, preds) && j < s.maxLevels
    requires Valid(s') && Chains(s') == NewChains(s, key, L, ps, |s.nodes|)
    ensures OnLevel(s', j, key) <==> j <= L
  {
    SpliceShaped(s, s', key, value, L, ps, preds);
    SpliceSetupAt(s, s', key, value, L, ps, preds, j);
    var c' := Chains(s')[j];
    if j <= L {
      assert c'[ps[j] + 1] == |s.nodes|;
    } else {
      if OnLevel(s', j, key) {
        var t :| 0 <= t < |c'| && s'.nodes[c'[t]].key == key;
        OnLevelInAbs(s, j, t);
      }
    }
  }

  /** Adding a fresh node at position q of level 0 adds its entry to the map. */
  lemma SpliceAbs(s: SkipList, s': SkipList, key: int, value: set<string>, q: nat)
    requires Valid(s) && Valid(s') && |s'.nodes| == |s.nodes| + 1
    requires forall k :: 0 <= k < |s.nodes| ==>
      s'.nodes[k].key == s.nodes[k].key && s'.nodes[k].values == s.nodes[k].values
    requires s'.nodes[|s.nodes|].key == key && s'.nodes[|s.nodes|].values == value
    requires q <= |Chains(s)[0]| && Chains(s')[0] == InsertAt(Chains(s)[0], q, |s.nodes|)
    ensures Abs(s') == Abs(s)[key := value]
  {
    var c := Chains(s)[0];
    var n := |s.nodes|;
    assert IsChain(s, 0, c);
    var E := Entries(s);
    assert E == EntriesOf(s, c);
    assert Entries(s') == EntriesOf(s', InsertAt(c, q, n));
    EntriesInsert(s, s', c, q, n);
    assert E == E[..q] + E[q..];
    AsMapInsert(E[..q], Entry(key, value), E[q..]);
  }

  // ---------------------------------------------------------------------
  // Unlinking the node with a given key from levels 0..e-1

  /** The node after the predecessor position p on level j carries key
      (the test the deletion's descent makes on each level). */
  ghost predicate Matches(s: SkipList, j: nat, key: int, p: int)
    requires Valid(s) && j < s.maxLevels && PredAt(s, Chains(s)[j], key, p)
  {
    assert IsChain(s, j, Chains(s)[j]);
    p + 1 < |Chains(s)[j]| && s.nodes[Chains(s)[j][p + 1]].key == key
  }

  /** Level j matches exactly when the level-0 node x carrying key is on
      level j, and then x is the node after the predecessor. */
  lemma MatchIsNode(s: SkipList, j: nat, key: int, p: int, p0: int)
    requires Valid(s) && j < s.maxLevels
    requires PredAt(s, Chains(s)[j], key, p) && PredAt(s, Chains(s)[0], key, p0)
    requires Matches(s, 0, key, p0)
    ensures var x := Chains(s)[0][p0 + 1];
      && (Matches(s, j, key, p) <==> x in Chains(s)[j])
      && (Matches(s, j, key, p) ==> Chains(s)[j][p + 1] == x)
  {
    if Matches(s, j, key, p) {
      MatchedIsNode(s, j, key, p, p0);
    }
    if Chains(s)[0][p0 + 1] in Chains(s)[j] {
      NodeMatches(s, j, key, p, p0);
    }
  }

  /** A matching level's node after the predecessor is the level-0 node
      carrying key. */
  lemma MatchedIsNode(s: SkipList, j: nat, key: int, p: int, p0: int)
    requires Valid(s) && j < s.maxLevels
    requires PredAt(s, Chains(s)[j], key, p) && PredAt(s, Chains(s)[0], key, p0)
    requires Matches(s, 0, key, p0) && Matches(s, j, key, p)
    ensures Chains(s)[j][p + 1] == Chains(s)[0][p0 + 1]
  {
    var W := Chains(s);
    assert IsChain(s, j, W[j]) && IsChain(s, 0, W[0]);
    WithinDown(s, W, 0, j);
    var y := W[j][p + 1];
    assert y in W[j];
    var u :| 0 <= u < |W[0]| && W[0][u] == y;
    SameKeySamePosition(s, 0, W[0], u, p0 + 1);
  }

  /** A level holding the level-0 node that carries key matches. */
  lemma NodeMatches(s: SkipList, j: nat, key: int, p: int, p0: int)
    requires Valid(s) && j < s.maxLevels
    requires PredAt(s, Chains(s)[j], key, p) && PredAt(s, Chains(s)[0], key, p0)
    requires Matches(s, 0, key, p0) && Chains(s)[0][p0 + 1] in Chains(s)[j]
    ensures Matches(s, j, key, p)
  {
    var W := Chains(s);
    var x := W[0][p0 + 1];
    assert IsChain(s, j, W[j]) && IsChain(s, 0, W[0]);
    var t :| 0 <= t < |W[j]| && W[j][t] == x;
    if p >= 0 {
      KeysAscend(s, j, W[j], t, p);
    }
    KeysAscend(s, j, W[j], p + 1, t);
  }

  /** Keys never decrease along a chain. */
  lemma KeysAscend(s: SkipList, j: nat, c: seq<nat>, a: int, b: int)
    requires Shaped(s) && j < s.maxLevels && IsChain(s, j, c) && 0 <= a < |c| && 0 <= b < |c|
    ensures a <= b ==> s.nodes[c[a]].key <= s.nodes[c[b]].key
  {
    if a < b {
      KeyOrder(s, j, c, a, b);
    }
  }

  /** Levels that match are closed downwards, and every match is the
      level-0 node carrying key. */
  lemma MatchesDown(s: SkipList, key: int, i: nat, pi: int, j: nat, pj: int, p0: int)
    requires Valid(s) && i <= j < s.maxLevels
    requires PredAt(s, Chains(s)[i], key, pi) && PredAt(s, Chains(s)[j], key, pj)
    requires PredAt(s, Chains(s)[0], key, p0)
    requires Matches(s, j, key, pj)
    ensures Matches(s, i, key, pi) && Matches(s, 0, key, p0)
  {
    var W := Chains(s);
    assert IsChain(s, 0, W[0]) && IsChain(s, j, W[j]);
    OnLevelInAbs(s, j, pj + 1);
    FoundKey(s, key, p0);
    MatchIsNode(s, j, key, pj, p0);
    MatchIsNode(s, i, key, pi, p0);
    WithinDown(s, W, i, j);
    assert W[j][pj + 1] in W[j];
  }

  /** The chains after unlinking: level j < e loses the node after the
      predecessor position ps[j]. */
  ghost function RemovedChains(s: SkipList, ps: seq<int>, e: nat): (W': seq<seq<nat>>)
    requires Valid(s) && |ps| == s.maxLevels && e <= s.maxLevels
    requires forall j :: 0 <= j < e ==> 0 <= ps[j] + 1 < |Chains(s)[j]|
    ensures |W'| == s.maxLevels
  {
    seq(s.maxLevels, j requires 0 <= j < s.maxLevels =>
      if j < e then RemoveAt(Chains(s)[j], ps[j] + 1) else Chains(s)[j])
  }

  /** nodes' is nodes with, on each level j < e, the node update[j] made to
      link past x. */
  ghost predicate UnsplicedArena(nodes: seq<Node>, nodes': seq<Node>, x: nat, update: seq<Link>, e: nat, M: nat)
  {
    && |nodes'| == |nodes| && x < |nodes| && e <= M && e <= |update|
    && (forall j :: 0 <= j < e ==> update[j].Ptr?)
    && (forall k :: 0 <= k < |nodes| ==>
         && |nodes[k].next| == M && |nodes'[k].next| == M
         && nodes'[k].key == nodes[k].key && nodes'[k].values == nodes[k].values)
    && (forall k, j :: 0 <= k < |nodes| && 0 <= j < e ==>
         nodes'[k].next[j] == if update[j] == Ptr(k) then nodes[x].next[j] else nodes[k].next[j])
    && (forall k, j :: 0 <= k < |nodes| && e <= j < M ==> nodes'[k].next[j] == nodes[k].next[j])
  }

  /** What the unlinking lemmas assume: ps are the predecessors of a descent
      to key, exactly the levels below e match, update holds the matching
      predecessors, and s' is s with x unlinked from those levels. */
  ghost predicate UnspliceSetup(s: SkipList, s': SkipList, key: int, ps: seq<int>, e: nat, update: seq<Link>)
  {
    && Valid(s) && Descent(s, key, ps) && MatchLevels(s, key, ps, e) && |update| == s.maxLevels
    && (forall j :: 0 <= j < e ==> update[j] == Ptr(PredNode(s, key, ps, j)))
    && s'.maxLevels == s.maxLevels && s'.minKey == s.minKey && -1 <= s'.currentLevel < s.maxLevels
    && PredAt(s, Chains(s)[0], key, ps[0]) && Matches(s, 0, key, ps[0])
    && UnsplicedArena(s.nodes, s'.nodes, Chains(s)[0][ps[0] + 1], update, e, s.maxLevels)
  }

  /** Exactly the levels below e match, and there is at least one. */
  ghost predicate MatchLevels(s: SkipList, key: int, ps: seq<int>, e: nat)
    requires Valid(s) && Descent(s, key, ps)
  {
    && 1 <= e <= s.maxLevels
    && forall j :: 0 <= j < s.maxLevels ==> (Matches(s, j, key, ps[j]) <==> j < e)
  }

  lemma MatchBounds(s: SkipList, key: int, ps: seq<int>, e: nat)
    requires Valid(s) && Descent(s, key, ps) && MatchLevels(s, key, ps, e)
    ensures forall j :: 0 <= j < e ==> 0 <= ps[j] + 1 < |Chains(s)[j]|
    ensures PredAt(s, Chains(s)[0], key, ps[0]) && Matches(s, 0, key, ps[0])
  {
    forall j | 0 <= j < e
      ensures 0 <= ps[j] + 1 < |Chains(s)[j]|
    {
      assert PredAt(s, Chains(s)[j], key, ps[j]) && Matches(s, j, key, ps[j]);
    }
  }

  lemma UnspliceShaped(s: SkipList, s': SkipList, key: int, ps: seq<int>, e: nat, update: seq<Link>)
    requires UnspliceSetup(s, s', key, ps, e, update)
    ensures Shaped(s')
    ensures forall k :: 0 <= k < |s.nodes| ==>
      s'.nodes[k].key == s.nodes[k].key && s'.nodes[k].values == s.nodes[k].values
    ensures forall j :: 0 <= j < e ==> 0 <= ps[j] + 1 < |Chains(s)[j]|
  {
    MatchBounds(s, key, ps, e);
  }

  lemma UnspliceLevelBelow(s: SkipList, s': SkipList, key: int, ps: seq<int>, e: nat, update: seq<Link>, j: nat, c': seq<nat>)
    requires UnspliceSetup(s, s', key, ps, e, update) && j < e && Shaped(s')
    requires forall k :: 0 <= k < |s.nodes| ==> s'.nodes[k].key == s.nodes[k].key
    requires 0 <= ps[j] + 1 < |Chains(s)[j]| && c' == RemoveAt(Chains(s)[j], ps[j] + 1)
    ensures IsChain(s', j, c')
  {
    UnspliceSetupAt(s, s', key, ps, e, update, j);
    var x := Chains(s)[0][ps[0] + 1];
    UnsplicedAt(s.nodes, s'.nodes, x, update, e, s.maxLevels, j);
    UnlinkLevel(s, s', j, Chains(s)[j], ps[j], c');
  }

  /** Level j < e's part of an unlink setup: the node after the predecessor
      is x and update[j] holds the predecessor. */
  lemma UnspliceSetupAt(s: SkipList, s': SkipList, key: int, ps: seq<int>, e: nat, update: seq<Link>, j: nat)
    requires UnspliceSetup(s, s', key, ps, e, update) && j < e
    ensures var c := Chains(s)[j];
      && IsChain(s, j, c) && -1 <= ps[j] && ps[j] + 1 < |c|
      && c[ps[j] + 1] == Chains(s)[0][ps[0] + 1]
      && update[j] == Ptr(NodeAt(c, ps[j]))
  {
    MatchAt(s, key, ps, e, j);
    MatchedIsNode(s, j, key, ps[j], ps[0]);
    assert update[j] == Ptr(PredNode(s, key, ps, j));
  }

  /** The links of one level of an unspliced arena. */
  lemma UnsplicedAt(nodes: seq<Node>, nodes': seq<Node>, x: nat, update: seq<Link>, e: nat, M: nat, j: nat)
    requires UnsplicedArena(nodes, nodes', x, update, e, M) && j < e
    ensures update[j].index < |nodes| ==> nodes'[update[j].index].next[j] == nodes[x].next[j]
    ensures forall k :: 0 <= k < |nodes| && update[j] != Ptr(k) ==> nodes'[k].next[j] == nodes[k].next[j]
  {
  }

  /** One level of the unlink: the predecessor at position p takes over the
      link of the node after it, and no other node on the chain changes. */
  lemma UnlinkLevel(s: SkipList, s': SkipList, j: nat, c: seq<nat>, p: int, c': seq<nat>)
    requires Shaped(s) && Shaped(s') && j < s.maxLevels == s'.maxLevels && s'.minKey == s.minKey
    requires IsChain(s, j, c) && -1 <= p && p + 1 < |c| && |s'.nodes| == |s.nodes|
    requires forall k :: 0 <= k < |s.nodes| ==> s'.nodes[k].key == s.nodes[k].key
    requires s'.nodes[NodeAt(c, p)].next[j] == s.nodes[c[p + 1]].next[j]
    requires forall k :: 0 <= k < |s.nodes| && k != NodeAt(c, p) ==> s'.nodes[k].next[j] == s.nodes[k].next[j]
    requires c' == RemoveAt(c, p + 1)
    ensures IsChain(s', j, c')
  {
    forall q | -1 <= q < |c| && q != p
      ensures s'.nodes[NodeAt(c, q)].next[j] == s.nodes[NodeAt(c, q)].next[j]
    {
      ChainDistinct(s, j, c, p, q);
    }
    assert UnspliceStep(s, s', j, c, p);
    UnspliceChain(s, s', j, c, p);
  }

  lemma UnspliceLevelAbove(s: SkipList, s': SkipList, key: int, ps: seq<int>, e: nat, update: seq<Link>, j: nat, c': seq<nat>)
    requires UnspliceSetup(s, s', key, ps, e, update) && e <= j < s.maxLevels && Shaped(s')
    requires forall k :: 0 <= k < |s.nodes| ==> s'.nodes[k].key == s.nodes[k].key
    requires c' == Chains(s)[j]
    ensures IsChain(s', j, c')
  {
    var c := Chains(s)[j];
    assert UnsplicedArena(s.nodes, s'.nodes, Chains(s)[0][ps[0] + 1], update, e, s.maxLevels);
    assert IsChain(s, j, c);
    forall q | -1 <= q < |c|
      ensures s'.nodes[NodeAt(c, q)].next[j] == s.nodes[NodeAt(c, q)].next[j]
    {
      var k := NodeAt(c, q);
      assert k < |s.nodes|;
    }
    ChainFrame(s, s', j, c);
  }

  /** The chains of s' after unlinking: ordered, linked and nested, though
      currentLevel may now be too high. */
  ghost predicate Layered(s: SkipList, W: seq<seq<nat>>)
  {
    && Shaped(s) && |W| == s.maxLevels
    && (forall j :: 0 <= j < s.maxLevels ==> IsChain(s, j, W[j]))
    && (forall j :: 0 < j < s.maxLevels ==> Within(W[j], W[j - 1]))
  }

  lemma UnspliceLayered(s: SkipList, s': SkipList, key: int, ps: seq<int>, e: nat, update: seq<Link>)
    requires UnspliceSetup(s, s', key, ps, e, update)
    ensures Layered(s', RemovedChains(s, ps, e))
    ensures forall j :: s.currentLevel < j < s.maxLevels ==> RemovedChains(s, ps, e)[j] == []
  {
    UnspliceChains(s, s', key, ps, e, update);
    UnspliceNested(s, s', key, ps, e, update);
    UnspliceEmptyAbove(s, s', key, ps, e, update);
  }

  lemma UnspliceChains(s: SkipList, s': SkipList, key: int, ps: seq<int>, e: nat, update: seq<Link>)
    requires UnspliceSetup(s, s', key, ps, e, update)
    ensures Shaped(s') && forall j :: 0 <= j < s.maxLevels ==> IsChain(s', j, RemovedChains(s, ps, e)[j])
  {
    UnspliceShaped(s, s', key, ps, e, update);
    forall j | 0 <= j < s.maxLevels
      ensures IsChain(s', j, RemovedChains(s, ps, e)[j])
    {
      UnspliceLevel(s, s', key, ps, e, update, j);
    }
  }

  lemma UnspliceLevel(s: SkipList, s': SkipList, key: int, ps: seq<int>, e: nat, update: seq<Link>, j: nat)
    requires UnspliceSetup(s, s', key, ps, e, update) && j < s.maxLevels
    ensures forall i :: 0 <= i < e ==> 0 <= ps[i] + 1 < |Chains(s)[i]|
    ensures Shaped(s') && IsChain(s', j, RemovedChains(s, ps, e)[j])
  {
    UnspliceShaped(s, s', key, ps, e, update);
    RemovedAt(s, ps, e, j);
    var c' := RemovedChains(s, ps, e)[j];
    if j < e {
      UnspliceLevelBelow(s, s', key, ps, e, update, j, c');
    } else {
      UnspliceLevelAbove(s, s', key, ps, e, update, j, c');
    }
  }

  lemma UnspliceNested(s: SkipList, s': SkipList, key: int, ps: seq<int>, e: nat, update: seq<Link>)
    requires UnspliceSetup(s, s', key, ps, e, update)
    ensures forall j :: 0 < j < s.maxLevels ==> Within(RemovedChains(s, ps, e)[j], RemovedChains(s, ps, e)[j - 1])
  {
    UnspliceShaped(s, s', key, ps, e, update);
    forall j | 0 < j < s.maxLevels
      ensures Within(RemovedChains(s, ps, e)[j], RemovedChains(s, ps, e)[j - 1])
    {
      UnspliceNestedAt(s, key, ps, e, j);
    }
  }

  lemma UnspliceNestedAt(s: SkipList, key: int, ps: seq<int>, e: nat, j: nat)
    requires Valid(s) && Descent(s, key, ps) && MatchLevels(s, key, ps, e) && 0 < j < s.maxLevels
    ensures forall i :: 0 <= i < e ==> 0 <= ps[i] + 1 < |Chains(s)[i]|
    ensures Within(RemovedChains(s, ps, e)[j], RemovedChains(s, ps, e)[j - 1])
  {
    MatchBounds(s, key, ps, e);
    var W := Chains(s);
    var R := RemovedChains(s, ps, e);
    assert Within(W[j], W[j - 1]);
    RemovedLevelMembers(s, key, ps, e, j);
    RemovedLevelMembers(s, key, ps, e, j - 1);
    WithinShrink(W[j], W[j - 1], R[j], R[j - 1], W[0][ps[0] + 1]);
  }

  /** After the unlink level j holds its old nodes except the one carrying
      key. */
  lemma RemovedLevelMembers(s: SkipList, key: int, ps: seq<int>, e: nat, j: nat)
    requires Valid(s) && Descent(s, key, ps) && MatchLevels(s, key, ps, e) && j < s.maxLevels
    ensures forall i :: 0 <= i < e ==> 0 <= ps[i] + 1 < |Chains(s)[i]|
    ensures forall y :: y in RemovedChains(s, ps, e)[j] <==>
      y in Chains(s)[j] && y != Chains(s)[0][ps[0] + 1]
  {
    MatchBounds(s, key, ps, e);
    MatchAt(s, key, ps, e, j);
    RemovedAt(s, ps, e, j);
    var W := Chains(s);
    MatchIsNode(s, j, key, ps[j], ps[0]);
    assert IsChain(s, j, W[j]);
    ShrinkMembers(s, j, W[j], ps[j] + 1, W[0][ps[0] + 1], RemovedChains(s, ps, e)[j], j < e);
  }

  /** The members of chain c, without x when b holds (x is then at position
      q) and unchanged otherwise (x is then not in c). */
  lemma ShrinkMembers(s: SkipList, j: nat, c: seq<nat>, q: int, x: nat, r: seq<nat>, b: bool)
    requires Shaped(s) && j < s.maxLevels && IsChain(s, j, c)
    requires b ==> 0 <= q < |c| && c[q] == x && r == RemoveAt(c, q)
    requires !b ==> x !in c && r == c
    ensures forall y :: y in r <==> y in c && y != x
  {
    if b {
      RemoveAtMembers(s, j, c, q);
    }
  }

  lemma WithinShrink(a: seq<nat>, b: seq<nat>, a': seq<nat>, b': seq<nat>, x: nat)
    requires Within(a, b)
    requires forall y :: y in a' <==> y in a && y != x
    requires forall y :: y in b' <==> y in b && y != x
    ensures Within(a', b')
  {
  }

  /** Level j's part of a descent's match pattern. */
  lemma MatchAt(s: SkipList, key: int, ps: seq<int>, e: nat, j: nat)
    requires Valid(s) && Descent(s, key, ps) && MatchLevels(s, key, ps, e) && j < s.maxLevels
    ensures PredAt(s, Chains(s)[j], key, ps[j]) && (Matches(s, j, key, ps[j]) <==> j < e)
  {
  }

  lemma RemovedAt(s: SkipList, ps: seq<int>, e: nat, j: nat)
    requires Valid(s) && |ps| == s.maxLevels && e <= s.maxLevels && j < s.maxLevels
    requires forall i :: 0 <= i < e ==> 0 <= ps[i] + 1 < |Chains(s)[i]|
    ensures RemovedChains(s, ps, e)[j] == if j < e then RemoveAt(Chains(s)[j], ps[j] + 1) else Chains(s)[j]
  {
  }

  lemma UnspliceEmptyAbove(s: SkipList, s': SkipList, key: int, ps: seq<int>, e: nat, update: seq<Link>)
    requires UnspliceSetup(s, s', key, ps, e, update)
    ensures forall j :: s.currentLevel < j < s.maxLevels ==> RemovedChains(s, ps, e)[j] == []
  {
    UnspliceShaped(s, s', key, ps, e, update);
    var W := Chains(s);
    forall j | s.currentLevel < j < s.maxLevels
      ensures RemovedChains(s, ps, e)[j] == []
    {
      assert W[j] == [] && PredAt(s, W[j], key, ps[j]);
      assert !Matches(s, j, key, ps[j]);
    }
  }

  /** Once a level is empty, so is every level above it. */
  lemma {:induction false} EmptyUp(s: SkipList, W: seq<seq<nat>>, i: nat, j: nat)
    requires Layered(s, W) && i <= j < s.maxLevels && W[i] == []
    ensures W[j] == []
    decreases j - i
  {
    if i < j {
      assert Within(W[i + 1], W[i]);
      WithinNonEmpty(W[i + 1], W[i]);
      EmptyUp(s, W, i + 1, j);
    }
  }

  lemma WithinNonEmpty(a: seq<nat>, b: seq<nat>)
    requires Within(a, b)
    ensures a != [] ==> b != []
  {
    if a != [] {
      assert a[0] in b;
    }
  }

  /** Layered chains with an exact currentLevel are the list's chains. */
  lemma Relevel(s: SkipList, W: seq<seq<nat>>)
    requires Layered(s, W)
    requires forall j :: s.currentLevel < j < s.maxLevels ==> W[j] == []
    requires s.currentLevel >= 0 ==> W[s.currentLevel] != []
    ensures Valid(s) && Chains(s) == W
  {
    assert Links(s, W);
    ChainsAre(s, W);
  }

  /** Unlinking the node at position q of level 0 removes its key from the
      map. */
  lemma UnspliceAbs(s: SkipList, s': SkipList, q: nat)
    requires Valid(s) && Valid(s') && |s'.nodes| == |s.nodes|
    requires forall k :: 0 <= k < |s.nodes| ==>
      s'.nodes[k].key == s.nodes[k].key && s'.nodes[k].values == s.nodes[k].values
    requires q < |Chains(s)[0]| && Chains(s')[0] == RemoveAt(Chains(s)[0], q)
    ensures IsChain(s, 0, Chains(s)[0])
    ensures Abs(s') == Abs(s) - {s.nodes[Chains(s)[0][q]].key}
  {
    var c := Chains(s)[0];
    assert IsChain(s, 0, c);
    var E := Entries(s);
    assert E == EntriesOf(s, c);
    assert Entries(s') == EntriesOf(s', RemoveAt(c, q));
    EntriesRemove(s, s', c, q);
    SplitAt(E, q);
    AsMapRemove(E[..q], E[q], E[q + 1..]);
  }

  /** The deletion's unlink loop stops at e, the first level without a
      recorded predecessor or just above currentLevel: exactly the levels
      below e match. */
  lemma UnlinkStops(s: SkipList, key: int, ps: seq<int>, update: seq<Link>, e: nat)
    requires Valid(s) && Descent(s, key, ps) && |update| == s.maxLevels
    requires forall j :: 0 <= j < s.maxLevels ==>
      update[j] == if Matches(s, j, key, ps[j]) then Ptr(PredNode(s, key, ps, j)) else Nil
    requires Matches(s, 0, key, ps[0])
    requires e <= s.currentLevel + 1 && forall j :: 0 <= j < e ==> update[j].Ptr?
    requires e <= s.currentLevel ==> update[e] == Nil
    ensures MatchLevels(s, key, ps, e)
  {
    var W := Chains(s);
    assert W[0] != [];
    forall j | 0 <= j < s.maxLevels
      ensures Matches(s, j, key, ps[j]) <==> j < e
    {
      if e <= j {
        if e <= s.currentLevel {
          assert !Matches(s, e, key, ps[e]);
          if Matches(s, j, key, ps[j]) {
            MatchesDown(s, key, e, ps[e], j, ps[j], ps[0]);
            assert false;
          }
        } else {
          assert W[j] == [];
        }
      }
    }
  }

  /** The deletion's recomputed currentLevel is exact: header links are
      non-nil up to it and nil just above it (unless it is still top, above
      which every chain is empty). */
  lemma ShrinkExact(s: SkipList, W: seq<seq<nat>>, top: int)
    requires Layered(s, W) && s.currentLevel <= top < s.maxLevels
    requires forall j :: top < j < s.maxLevels ==> W[j] == []
    requires forall j :: 0 <= j <= s.currentLevel ==> s.nodes[Header].next[j] != Nil
    requires s.currentLevel < top ==> s.nodes[Header].next[s.currentLevel + 1] == Nil
    ensures Valid(s) && Chains(s) == W
  {
    var l := s.currentLevel;
    if l >= 0 {
      assert IsChain(s, l, W[l]);
      assert s.nodes[NodeAt(W[l], -1)].next[l] == LinkAt(W[l], 0);
    }
    if l < top {
      assert IsChain(s, l + 1, W[l + 1]);
      assert s.nodes[NodeAt(W[l + 1], -1)].next[l + 1] == LinkAt(W[l + 1], 0);
      forall j | l + 1 <= j < s.maxLevels
        ensures W[j] == []
      {
        EmptyUp(s, W, l + 1, j);
      }
    }
    Relevel(s, W);
  }

  /** A list whose level 0 is empty represents the empty map. */
  lemma EmptyAbs(s: SkipList)
    requires Valid(s) && Chains(s)[0] == []
    ensures Abs(s) == map[]
  {
    assert Entries(s) == [];
  }

  /** A node on level j is the level-0 node at some position q, and the map
      sends its key to its members. */
  lemma LevelNodeEntry(s: SkipList, j: nat, t: nat) returns (q: nat)
    requires Valid(s) && j < s.maxLevels && t < |Chains(s)[j]|
    ensures q < |Chains(s)[0]| && Chains(s)[0][q] == Chains(s)[j][t]
    ensures IsChain(s, 0, Chains(s)[0]) && IsChain(s, j, Chains(s)[j])
    ensures s.nodes[Chains(s)[j][t]].key in Abs(s)
    ensures Abs(s)[s.nodes[Chains(s)[j][t]].key] == s.nodes[Chains(s)[j][t]].values
  {
    var W := Chains(s);
    assert IsChain(s, j, W[j]) && IsChain(s, 0, W[0]);
    WithinDown(s, W, 0, j);
    assert W[j][t] in W[j];
    q :| 0 <= q < |W[0]| && W[0][q] == W[j][t];
    var E := Entries(s);
    assert E == EntriesOf(s, W[0]);
    assert E[q] == Entry(s.nodes[W[j][t]].key, s.nodes[W[j][t]].values);
    AsMapHas(E, q);
  }
}
