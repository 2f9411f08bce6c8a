/** The skip list's data model (internals/skiplist.go): nodes with one forward
    link per level, kept in an arena addressed by index, with the header
    sentinel at index 0. This module states the structural invariants and
    the abstraction of a list to the ascending entries of its level-0 chain. */
module SkipListModel {
  import opened SortedEntries

  /** A forward link: nil, or the arena index of the next node. */
  datatype Link = Nil | Ptr(index: nat)

  /** A node: one forward link per level (always maxLevels of them), its key
      and the member set stored under that key. */
  datatype Node = Node(next: seq<Link>, key: int, values: set<string>)

  /** The list: node arena, level bound, highest active level (-1 when
      empty) and the least admissible key. Nodes unlinked by a deletion stay
      in the arena but are reachable from no level. */
  datatype SkipList = SkipList(nodes: seq<Node>, maxLevels: int, currentLevel: int, minKey: int)

  /** A node with all maxLevels links nil (internals/skiplist.go:51-57). */
  function CreateNewNode(maxLevels: nat, key: int, values: set<string>): Node
  {
    Node(seq(maxLevels, _ => Nil), key, values)
  }

  /** Arena index of the header sentinel. */
  const Header: nat := 0

  /** Array sizes: every node has maxLevels links and the header's key lies
      just below minKey. */
  ghost predicate Shaped(s: SkipList) {
    && 1 <= s.maxLevels
    && -1 <= s.currentLevel < s.maxLevels
    && |s.nodes| >= 1
    && s.nodes[Header].key == s.minKey - 1
    && forall k :: 0 <= k < |s.nodes| ==> |s.nodes[k].next| == s.maxLevels
  }

  /** The node at position p of a chain, position -1 being the header. */
  function NodeAt(c: seq<nat>, p: int): nat
    requires -1 <= p < |c|
  {
    if p < 0 then Header else c[p]
  }

  /** The link to position p of a chain: nil past its end. */
  function LinkAt(c: seq<nat>, p: nat): Link
  {
    if p < |c| then Ptr(c[p]) else Nil
  }

  /** c lists, in order, the nodes reached from the header along level j:
      each link at level j leads to the next position and the last one is nil.
      Keys are at least minKey and strictly increase along the chain. */
  ghost predicate IsChain(s: SkipList, j: nat, c: seq<nat>)
    requires Shaped(s) && j < s.maxLevels
  {
    && (forall p :: 0 <= p < |c| ==> 0 < c[p] < |s.nodes|)
    && (forall p :: 0 <= p < |c| ==> s.minKey <= s.nodes[c[p]].key)
    && Increasing(KeysOf(s, c))
    && (forall p :: -1 <= p < |c| ==> s.nodes[NodeAt(c, p)].next[j] == LinkAt(c, p + 1))
  }

  /** Keys strictly increase along the sequence. */
  ghost predicate Increasing(ks: seq<int>) {
    forall r, t :: 0 <= r < t < |ks| ==> ks[r] < ks[t]
  }

  /** The keys of the nodes a chain lists, in order. */
  ghost function KeysOf(s: SkipList, c: seq<nat>): (ks: seq<int>)
    requires forall p :: 0 <= p < |c| ==> c[p] < |s.nodes|
  {
    seq(|c|, p requires 0 <= p < |c| => s.nodes[c[p]].key)
  }

  ghost predicate Within(a: seq<nat>, b: seq<nat>) {
    forall x :: x in a ==> x in b
  }

  /** W[j] is the chain of level j; a node on level j is on level j - 1 too;
      currentLevel is the highest level whose chain is non-empty, or -1. */
  ghost predicate Links(s: SkipList, W: seq<seq<nat>>)
    requires Shaped(s)
  {
    && |W| == s.maxLevels
    && (forall j :: 0 <= j < s.maxLevels ==> IsChain(s, j, W[j]))
    && (forall j :: 0 < j < s.maxLevels ==> Within(W[j], W[j - 1]))
    && (forall j :: s.currentLevel < j < s.maxLevels ==> W[j] == [])
    && (s.currentLevel >= 0 ==> W[s.currentLevel] != [])
  }

  /** The skip-list invariants: ordered chains, monotone participation and
      an exact currentLevel. */
  ghost predicate Valid(s: SkipList) {
    Shaped(s) && exists W :: Links(s, W)
  }

  /** The chains of a valid list (unique, by ChainUnique). */
  ghost function Chains(s: SkipList): (W: seq<seq<nat>>)
    requires Valid(s)
    ensures Links(s, W)
  {
    var W :| Links(s, W); W
  }

  ghost function EntriesOf(s: SkipList, c: seq<nat>): (es: seq<Entry>)
    requires forall p :: 0 <= p < |c| ==> c[p] < |s.nodes|
  {
    seq(|c|, p requires 0 <= p < |c| => Entry(s.nodes[c[p]].key, s.nodes[c[p]].values))
  }

  /** The level-0 chain read as (key, members) entries: the list's contents
      in ascending key order. */
  ghost function Entries(s: SkipList): (es: seq<Entry>)
    requires Valid(s)
    ensures Ascending(es)
  {
    var c := Chains(s)[0];
    assert IsChain(s, 0, c);
    assert forall i :: 0 <= i < |c| ==> EntriesOf(s, c)[i].key == KeysOf(s, c)[i];
    EntriesOf(s, c)
  }

  /** The sorted map key -> member set that a valid list represents. */
  ghost function Abs(s: SkipList): map<int, set<string>>
    requires Valid(s)
  {
    AsMap(Entries(s))
  }

  /** Some node on level j carries key. */
  ghost predicate OnLevel(s: SkipList, j: nat, key: int)
    requires Valid(s) && j < s.maxLevels
  {
    var c := Chains(s)[j];
    assert IsChain(s, j, c);
    exists t :: 0 <= t < |c| && s.nodes[c[t]].key == key
  }

  /** key is carried on exactly the levels 0 to L. */
  ghost predicate OnLevelsUpTo(s: SkipList, key: int, L: int)
    requires Valid(s)
  {
    forall j :: 0 <= j < s.maxLevels ==> (OnLevel(s, j, key) <==> j <= L)
  }

  // ---------------------------------------------------------------------
  // Basic facts about chains

  /** Keys increase along a chain. */
  lemma KeyOrder(s: SkipList, j: nat, c: seq<nat>, p: int, q: int)
    requires Shaped(s) && j < s.maxLevels && IsChain(s, j, c)
    requires 0 <= p < q < |c|
    ensures s.nodes[c[p]].key < s.nodes[c[q]].key
  {
    var ks := KeysOf(s, c);
    assert ks[p] < ks[q];
  }

  /** Distinct positions of a chain (the header counting as position -1)
      hold distinct nodes. */
  lemma ChainDistinct(s: SkipList, j: nat, c: seq<nat>, p: int, q: int)
    requires Shaped(s) && j < s.maxLevels && IsChain(s, j, c)
    requires -1 <= p < |c| && -1 <= q < |c| && p != q
    ensures NodeAt(c, p) != NodeAt(c, q)
  {
    if 0 <= p && 0 <= q {
      if p < q {
        KeyOrder(s, j, c, p, q);
      } else {
        KeyOrder(s, j, c, q, p);
      }
    }
  }

  /** A level has at most one chain. */
  lemma ChainUnique(s: SkipList, j: nat, c1: seq<nat>, c2: seq<nat>)
    requires Shaped(s) && j < s.maxLevels
    requires IsChain(s, j, c1) && IsChain(s, j, c2)
    ensures c1 == c2
  {
    var n := if |c1| < |c2| then |c1| else |c2|;
    var p := 0;
    while p < n
      invariant 0 <= p <= n
      invariant forall q :: 0 <= q < p ==> c1[q] == c2[q]
    {
      assert NodeAt(c1, p - 1) == NodeAt(c2, p - 1);
      assert LinkAt(c1, p) == s.nodes[NodeAt(c1, p - 1)].next[j] == LinkAt(c2, p);
      p := p + 1;
    }
    assert NodeAt(c1, n - 1) == NodeAt(c2, n - 1);
    assert LinkAt(c1, n) == s.nodes[NodeAt(c1, n - 1)].next[j] == LinkAt(c2, n);
  }

  /** Any witness of the invariants is the list's chains. */
  lemma ChainsAre(s: SkipList, W: seq<seq<nat>>)
    requires Shaped(s) && Links(s, W)
    ensures Valid(s) && Chains(s) == W
  {
    var C := Chains(s);
    forall j | 0 <= j < s.maxLevels
      ensures C[j] == W[j]
    {
      ChainUnique(s, j, C[j], W[j]);
    }
  }

  /** Monotone participation carried down to any lower level. */
  lemma {:induction false} WithinDown(s: SkipList, W: seq<seq<nat>>, i: nat, j: nat)
    requires Shaped(s) && Links(s, W) && i <= j < s.maxLevels
    ensures Within(W[j], W[i])
    decreases j - i
  {
    if i < j {
      WithinDown(s, W, i + 1, j);
      assert Within(W[i + 1], W[i]);
    }
  }

  /** Two chain members carrying the same key are the same position. */
  lemma SameKeySamePosition(s: SkipList, j: nat, c: seq<nat>, p: int, q: int)
    requires Shaped(s) && j < s.maxLevels && IsChain(s, j, c)
    requires 0 <= p < |c| && 0 <= q < |c| && s.nodes[c[p]].key == s.nodes[c[q]].key
    ensures p == q
  {
    if p < q {
      KeyOrder(s, j, c, p, q);
    } else if q < p {
      KeyOrder(s, j, c, q, p);
    }
  }
}
