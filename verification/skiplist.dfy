/** The skip-list operations of internals/skiplist.go, each taking a list
    value and returning the updated one. A panic of the source is a `Panic`
    result; the random level is computed from a given sequence of coin
    outcomes. */
module SkipLists {
  import opened Outcomes
  import opened SortedEntries
  import opened SkipListModel
  import opened SkipListSplice
  import opened SkipListSteps

  /** An empty list: every header link is nil and currentLevel is -1. Panics
      when maxLevels < 1. The level-jump probability is not kept: the model
      receives coin outcomes instead. */
  function Init(maxLevels: int, minKey: int): (r: Result<SkipList>)
    ensures r.Panic? <==> maxLevels < 1
    ensures r.Panic? ==> r.error == LevelsBelowOne
    ensures r.Ok? ==>
      var s := r.value;
      && Valid(s) && Entries(s) == [] && Abs(s) == map[]
      && s.currentLevel == -1 && s.maxLevels == maxLevels && s.minKey == minKey
      && s.nodes[Header].key == minKey - 1
      && |s.nodes[Header].next| == maxLevels
      && forall j :: 0 <= j < maxLevels ==> s.nodes[Header].next[j] == Nil
  {
    if maxLevels < 1 then Panic(LevelsBelowOne)
    else
      var s := SkipList([CreateNewNode(maxLevels, minKey - 1, {})], maxLevels, -1, minKey);
      EmptyIsValid(s);
      Ok(s)
  }

  lemma EmptyIsValid(s: SkipList)
    requires Shaped(s) && s.currentLevel == -1
    requires forall j :: 0 <= j < s.maxLevels ==> s.nodes[Header].next[j] == Nil
    ensures Valid(s) && Entries(s) == []
  {
    var W: seq<seq<nat>> := seq(s.maxLevels, _ => []);
    forall j | 0 <= j < s.maxLevels
      ensures IsChain(s, j, W[j])
    {
      assert NodeAt(W[j], -1) == Header;
    }
    assert Links(s, W);
    ChainsAre(s, W);
  }

  /** The level a new node gets: starting from 0, one more level for each
      leading "promote" outcome in draws, never beyond maxLevels - 1. */
  function GenerateRandLevel(maxLevels: int, draws: seq<bool>): (level: int)
    ensures 0 <= level <= |draws|
    ensures maxLevels >= 1 ==> level < maxLevels
    ensures forall q :: 0 <= q < level ==> draws[q]
    ensures level == |draws| || !draws[level] || level >= maxLevels - 1
  {
    PromoteFrom(maxLevels, draws, 0)
  }

  function PromoteFrom(maxLevels: int, draws: seq<bool>, level: nat): (r: nat)
    requires level <= |draws| && forall q :: 0 <= q < level ==> draws[q]
    requires level == 0 || level < maxLevels
    ensures level <= r <= |draws|
    ensures maxLevels >= 1 ==> r < maxLevels
    ensures forall q :: 0 <= q < r ==> draws[q]
    ensures r == |draws| || !draws[r] || r >= maxLevels - 1
    decreases |draws| - level
  {
    if level < |draws| && draws[level] && level < maxLevels - 1 then
      PromoteFrom(maxLevels, draws, level + 1)
    else
      level
  }

  /** One level of the descent: from start, follow level i while the next
      key is below key (internals/skiplist.go:232-234). */
  method ScanLevel(s: SkipList, i: nat, key: int, start: nat, ghost c: seq<nat>, ghost p0: int)
    returns (current: nat, ghost p: int)
    requires Shaped(s) && i < s.maxLevels && IsChain(s, i, c)
    requires -1 <= p0 < |c| && start == NodeAt(c, p0) && s.nodes[start].key < key
    ensures PredAt(s, c, key, p) && current == NodeAt(c, p) && s.nodes[current].key < key
  {
    current := start;
    p := p0;
    while s.nodes[current].next[i] != Nil && s.nodes[s.nodes[current].next[i].index].key < key
      invariant -1 <= p < |c| && current == NodeAt(c, p)
      invariant s.nodes[current].key < key
      decreases |c| - p
    {
      current := s.nodes[current].next[i].index;
      p := p + 1;
    }
  }

  /** The descent shared by every operation: from the top active level down
      to level 0, advance while the next key is below key, and record the
      node reached on each level (internals/skiplist.go:229-236). */
  method Descend(s: SkipList, key: int) returns (update: seq<Link>, current: nat, ghost ps: seq<int>)
    requires Valid(s) && s.minKey <= key
    ensures Descent(s, key, ps) && |update| == s.maxLevels
    ensures forall j :: 0 <= j < s.maxLevels ==>
      update[j] == if j <= s.currentLevel then Ptr(PredNode(s, key, ps, j)) else Nil
    ensures current == PredNode(s, key, ps, 0)
  {
    update := seq(s.maxLevels, _ => Nil);
    ps := seq(s.maxLevels, _ => -1);
    current := Header;
    var i := s.currentLevel;
    while i >= 0
      invariant Descended(s, key, ps, update, i)
      invariant current < |s.nodes| && s.nodes[current].key < key
      invariant i >= 0 ==> current == Header || current in Chains(s)[i]
      invariant i < s.currentLevel ==> current == NodeAt(Chains(s)[i + 1], ps[i + 1])
      invariant i == s.currentLevel ==> current == Header
    {
      current, ps := DescendLevel(s, key, i, current, ps, update);
      update := update[i := Ptr(current)];
      i := i - 1;
    }
    DescentDone(s, key, ps, update);
  }

  /** One level of the descent (internals/skiplist.go:231-234): scan level
      i from current, and note where the scan stopped. */
  method DescendLevel(s: SkipList, key: int, i: nat, current: nat, ghost ps: seq<int>, ghost preds: seq<Link>)
    returns (current': nat, ghost ps': seq<int>)
    requires Valid(s) && Descended(s, key, ps, preds, i) && i <= s.currentLevel
    requires current < |s.nodes| && s.nodes[current].key < key
    requires current == Header || current in Chains(s)[i]
    ensures Descended(s, key, ps', preds[i := Ptr(current')], i - 1)
    ensures current' < |s.nodes| && s.nodes[current'].key < key
    ensures current' == NodeAt(Chains(s)[i], ps'[i])
    ensures i > 0 ==> current' == Header || current' in Chains(s)[i - 1]
    ensures s.nodes[current'].next[i].Ptr? ==> s.nodes[current'].next[i].index < |s.nodes|
  {
    ghost var c := Chains(s)[i];
    assert IsChain(s, i, c);
    ghost var p0 := -1;
    if current != Header {
      p0 :| 0 <= p0 < |c| && c[p0] == current;
    }
    ghost var p;
    current', p := ScanLevel(s, i, key, current, c, p0);
    DescendStep(s, key, ps, preds, i, p);
    assert s.nodes[current'].next[i] == LinkAt(c, p + 1);
    ps' := ps[i := p];
  }

  /** The levels above i have been descended: ps holds their predecessor
      positions and update their predecessor nodes (nil above currentLevel). */
  ghost predicate Descended(s: SkipList, key: int, ps: seq<int>, update: seq<Link>, i: int)
    requires Valid(s)
  {
    && |ps| == |update| == s.maxLevels && -1 <= i <= s.currentLevel
    && forall j :: i < j < s.maxLevels ==>
         && -1 <= ps[j] < |Chains(s)[j]| && PredAt(s, Chains(s)[j], key, ps[j])
         && update[j] == if j <= s.currentLevel then Ptr(NodeAt(Chains(s)[j], ps[j])) else Nil
  }

  /** Recording level i's predecessor extends the descent by one level, and
      the node reached lies on the level below. */
  lemma DescendStep(s: SkipList, key: int, ps: seq<int>, update: seq<Link>, i: nat, p: int)
    requires Valid(s) && Descended(s, key, ps, update, i) && i <= s.currentLevel
    requires IsChain(s, i, Chains(s)[i]) && PredAt(s, Chains(s)[i], key, p)
    ensures Descended(s, key, ps[i := p], update[i := Ptr(NodeAt(Chains(s)[i], p))], i - 1)
    ensures i > 0 ==> NodeAt(Chains(s)[i], p) == Header || NodeAt(Chains(s)[i], p) in Chains(s)[i - 1]
  {
    var W := Chains(s);
    if i > 0 && p >= 0 {
      assert Within(W[i], W[i - 1]);
      assert W[i][p] in W[i];
    }
  }

  /** The loop's invariant at its exit is a full descent. */
  lemma DescentDone(s: SkipList, key: int, ps: seq<int>, update: seq<Link>)
    requires Valid(s) && Descended(s, key, ps, update, -1)
    ensures Descent(s, key, ps)
    ensures forall j :: 0 <= j < s.maxLevels ==>
      update[j] == if j <= s.currentLevel then Ptr(PredNode(s, key, ps, j)) else Nil
  {
    assert Descent(s, key, ps);
    forall j | 0 <= j < s.maxLevels
      ensures update[j] == if j <= s.currentLevel then Ptr(PredNode(s, key, ps, j)) else Nil
    {
    }
  }

  // ---------------------------------------------------------------------
  // AddOrModify

  /** The member set stored for a key that is already present: the
      modifier's result when one is given, otherwise the new value. */
  function Merge(modifier: Option<set<string> -> set<string>>, current: set<string>, value: set<string>): set<string>
  {
    match modifier
    case Some(f) => f(current)
    case None => value
  }

  /** nodes with node k's level-j link set to l. */
  function SetNext(nodes: seq<Node>, k: nat, j: nat, l: Link): (r: seq<Node>)
    requires k < |nodes| && j < |nodes[k].next|
    ensures |r| == |nodes|
    ensures forall m :: 0 <= m < |r| ==>
      && r[m].key == nodes[m].key && r[m].values == nodes[m].values
      && |r[m].next| == |nodes[m].next|
      && forall i :: 0 <= i < |r[m].next| ==>
           r[m].next[i] == if m == k && i == j then l else nodes[m].next[i]
  {
    nodes[k := nodes[k].(next := nodes[k].next[j := l])]
  }

  /** Replaces, in place, the members of the node at position q of level 0
      (internals/skiplist.go:123, 209, 263 and 265); no link moves. */
  method SetMembers(s: SkipList, x: nat, v: set<string>, ghost q: nat) returns (s': SkipList)
    requires Valid(s) && q < |Chains(s)[0]| && x == Chains(s)[0][q]
    ensures x < |s.nodes| && Valid(s') && Chains(s') == Chains(s)
    ensures s'.maxLevels == s.maxLevels && s'.minKey == s.minKey && s'.currentLevel == s.currentLevel
    ensures Abs(s') == Abs(s)[s.nodes[x].key := v]
    ensures s'.nodes[x].values == v
  {
    SetValues(s, q, v);
    s' := WithValues(s, x, v);
  }

  /** The splice loop (internals/skiplist.go:257-260): on each level up to
      levels, the fresh last node n takes over its predecessor's link and the
      predecessor then points at n. */
  method SpliceIn(olds: seq<Node>, node: Node, update: seq<Link>, levels: nat, ghost M: nat, ghost preds: seq<nat>)
    returns (nodes: seq<Node>)
    requires levels < M && levels < |update| && |preds| == levels + 1
    requires forall j :: 0 <= j <= levels ==> update[j] == Ptr(preds[j]) && preds[j] < |olds|
    requires forall k :: 0 <= k < |olds| ==> |olds[k].next| == M
    requires |node.next| == M
    ensures SplicedArena(olds + [node], nodes, |olds|, preds, levels, M)
  {
    var base := olds + [node];
    var n := |olds|;
    nodes := base;
    var i := 0;
    while i <= levels
      invariant 0 <= i <= levels + 1
      invariant |nodes| == |base|
      invariant forall k :: 0 <= k <= n ==>
        && |nodes[k].next| == M
        && nodes[k].key == base[k].key && nodes[k].values == base[k].values
      invariant forall k, j :: 0 <= k <= n && 0 <= j < i ==>
        nodes[k].next[j] == Spliced(base, k, j, preds[j], n)
      invariant forall k, j :: 0 <= k <= n && i <= j < M ==> nodes[k].next[j] == base[k].next[j]
    {
      var pred := update[i].index;
      nodes := SetNext(nodes, n, i, nodes[pred].next[i]);
      nodes := SetNext(nodes, pred, i, Ptr(n));
      i := i + 1;
    }
  }

  /** Adds key with value, or, when key is present, replaces its member set
      by the modifier's result (or by value when there is no modifier)
      (internals/skiplist.go:222-270). A new node gets the level drawn from
      draws and appears on exactly the levels 0 to that level. */
  method AddOrModify(s: SkipList, key: int, value: set<string>,
                     modifier: Option<set<string> -> set<string>>, draws: seq<bool>)
    returns (r: Result<SkipList>)
    requires Valid(s)
    ensures r.Panic? <==> key < s.minKey
    ensures r.Panic? ==> r.error == KeyBelowMin
    ensures r.Ok? ==>
      var s' := r.value;
      && Valid(s') && s'.maxLevels == s.maxLevels && s'.minKey == s.minKey
      && Abs(s') == Abs(s)[key := if key in Abs(s) then Merge(modifier, Abs(s)[key], value) else value]
      && (key in Abs(s) ==> s'.currentLevel == s.currentLevel && Chains(s') == Chains(s))
      && (key !in Abs(s) ==>
           var level := GenerateRandLevel(s.maxLevels, draws);
           && s'.currentLevel == Max(s.currentLevel, level)
           && OnLevelsUpTo(s', key, level))
  {
    if key < s.minKey {
      return Panic(KeyBelowMin);
    }
    var update, current, ps := Descend(s, key);
    ghost var W := Chains(s);
    assert IsChain(s, 0, W[0]);
    FoundKey(s, key, ps[0]);
    var next := s.nodes[current].next[0];
    if next == Nil || s.nodes[next.index].key != key {
      var s' := InsertFresh(s, key, value, draws, update, ps);
      r := Ok(s');
    } else {
      var x := next.index;
      assert x == W[0][ps[0] + 1];
      var v := Merge(modifier, s.nodes[x].values, value);
      var s' := SetMembers(s, x, v, ps[0] + 1);
      r := Ok(s');
    }
  }

  /** The branch of AddOrModify for an absent key
      (internals/skiplist.go:245-261): draw a level, let the header stand in
      as predecessor on the newly used levels, and splice in a fresh node. */
  method InsertFresh(s: SkipList, key: int, value: set<string>, draws: seq<bool>,
                     update0: seq<Link>, ghost ps: seq<int>)
    returns (s': SkipList)
    requires Valid(s) && s.minKey <= key && key !in Abs(s)
    requires Descent(s, key, ps) && |update0| == s.maxLevels
    requires forall j :: 0 <= j < s.maxLevels ==>
      update0[j] == if j <= s.currentLevel then Ptr(PredNode(s, key, ps, j)) else Nil
    ensures var level := GenerateRandLevel(s.maxLevels, draws);
      && Valid(s') && s'.maxLevels == s.maxLevels && s'.minKey == s.minKey
      && Abs(s') == Abs(s)[key := value]
      && s'.currentLevel == Max(s.currentLevel, level)
      && OnLevelsUpTo(s', key, level)
  {
    var levels := GenerateRandLevel(s.maxLevels, draws);
    var node := CreateNewNode(s.maxLevels, key, value);
    var update := FillHeader(update0, s.currentLevel, levels);
    var level := if s.currentLevel < levels then levels else s.currentLevel;
    ghost var preds := DescentPreds(s, key, ps, update0, update, levels);
    var nodes := SpliceIn(s.nodes, node, update, levels, s.maxLevels, preds);
    s' := SkipList(nodes, s.maxLevels, level, s.minKey);
    InsertNewNode(s, s', key, value, levels, ps, preds);
  }

  /** Levels above the current top that the new node will use get the
      header as predecessor (internals/skiplist.go:249-255). */
  method FillHeader(update0: seq<Link>, currentLevel: int, levels: nat) returns (update: seq<Link>)
    requires -1 <= currentLevel && levels < |update0|
    ensures |update| == |update0|
    ensures forall j :: 0 <= j < |update| ==>
      update[j] == if currentLevel < j <= levels then Ptr(Header) else update0[j]
  {
    update := update0;
    if currentLevel < levels {
      var i := currentLevel + 1;
      while i <= levels
        invariant currentLevel + 1 <= i <= levels + 1
        invariant |update| == |update0|
        invariant forall j :: 0 <= j < |update| ==>
          update[j] == if currentLevel < j < i then Ptr(Header) else update0[j]
      {
        update := update[i := Ptr(Header)];
        i := i + 1;
      }
    }
  }

  /** After the header fill, the predecessors on levels 0..levels are the
      descent's, the header standing in on the levels that were empty. */
  ghost function DescentPreds(s: SkipList, key: int, ps: seq<int>, update0: seq<Link>, update: seq<Link>, levels: nat): (preds: seq<nat>)
    requires Valid(s) && levels < s.maxLevels && Descent(s, key, ps)
    requires |update0| == |update| == s.maxLevels
    requires forall j :: 0 <= j < s.maxLevels ==>
      update0[j] == if j <= s.currentLevel then Ptr(PredNode(s, key, ps, j)) else Nil
    requires forall j :: 0 <= j < |update| ==>
      update[j] == if s.currentLevel < j <= levels then Ptr(Header) else update0[j]
    ensures |preds| == levels + 1
    ensures forall j :: 0 <= j <= levels ==>
      preds[j] == PredNode(s, key, ps, j) && update[j] == Ptr(preds[j])
  {
    var W := Chains(s);
    assert forall j :: s.currentLevel < j <= levels ==> W[j] == [] && PredNode(s, key, ps, j) == Header;
    seq(levels + 1, j requires 0 <= j <= levels => PredNode(s, key, ps, j))
  }


  // ---------------------------------------------------------------------
  // DeleteOrModify

  /** What a deletion callback decides for a present key's members: whether
      to drop the node and, if not, the members it keeps. Without a callback
      the node is dropped (internals/skiplist.go:115-120). */
  function Verdict(decide: Option<set<string> -> (bool, set<string>)>, values: set<string>): (bool, set<string>)
  {
    match decide
    case Some(f) => f(values)
    case None => (true, {})
  }

  /** The link following l on level j, nil when l is not a node with a
      level j. */
  function NextOf(s: SkipList, l: Link, j: nat): Link
  {
    if l.Ptr? && l.index < |s.nodes| && j < |s.nodes[l.index].next| then s.nodes[l.index].next[j] else Nil
  }

  /** What DeleteOrModify's descent records for level j once it stopped at
      l: l itself when the node after it carries key, nil otherwise
      (internals/skiplist.go:105-108). */
  function Recorded(s: SkipList, key: int, l: Link, j: nat): Link
  {
    var n := NextOf(s, l, j);
    if n.Ptr? && n.index < |s.nodes| && s.nodes[n.index].key == key then l else Nil
  }

  /** On a valid list a descent's record on level j is the predecessor
      exactly when that level matches. */
  lemma RecordedMatches(s: SkipList, key: int, ps: seq<int>, j: nat)
    requires Valid(s) && Descent(s, key, ps) && j < s.maxLevels
    ensures var pred := if j <= s.currentLevel then Ptr(PredNode(s, key, ps, j)) else Nil;
      Recorded(s, key, pred, j) == if Matches(s, j, key, ps[j]) then Ptr(PredNode(s, key, ps, j)) else Nil
    ensures Matches(s, j, key, ps[j]) ==>
      NextOf(s, Ptr(PredNode(s, key, ps, j)), j) == Ptr(Chains(s)[j][ps[j] + 1])
  {
    var c := Chains(s)[j];
    var x := PredNode(s, key, ps, j);
    assert s.nodes[NodeAt(c, ps[j])].next[j] == LinkAt(c, ps[j] + 1);
    if s.currentLevel < j {
      assert c == [];
    }
  }

  /** The array of records once the levels above i are descended, preds[j]
      being where the descent stopped on level j: unvisited levels hold nil. */
  function RecordsAbove(s: SkipList, key: int, preds: seq<Link>, i: int): (update: seq<Link>)
    ensures |update| == |preds|
    ensures forall j :: 0 <= j <= i && j < |preds| ==> update[j] == Nil
  {
    seq(|preds|, j requires 0 <= j < |preds| => if i < j then Recorded(s, key, preds[j], j) else Nil)
  }

  /** The node DeleteOrModify's descent remembers once the levels above i
      are descended: the one after the record of the lowest level that has
      one, nil when none has. */
  function FoundAbove(s: SkipList, key: int, preds: seq<Link>, i: int): Link
    requires -1 <= i
    decreases |preds| - i
  {
    if i + 1 >= |preds| then Nil
    else if Recorded(s, key, preds[i + 1], i + 1).Ptr? then NextOf(s, preds[i + 1], i + 1)
    else FoundAbove(s, key, preds, i + 1)
  }

  /** Descending level i with stop l extends both records by that level. */
  lemma RecordStep(s: SkipList, key: int, preds: seq<Link>, i: nat, l: Link)
    requires i < |preds|
    ensures var update := RecordsAbove(s, key, preds, i);
      RecordsAbove(s, key, preds[i := l], i - 1) ==
        if Recorded(s, key, l, i).Ptr? then update[i := l] else update
    ensures FoundAbove(s, key, preds[i := l], i - 1) ==
      if Recorded(s, key, l, i).Ptr? then NextOf(s, l, i) else FoundAbove(s, key, preds, i)
  {
    FoundAboveFrame(s, key, preds, i, l, i);
  }

  /** FoundAbove(i') ignores the stops at levels i' and below. */
  lemma {:induction false} FoundAboveFrame(s: SkipList, key: int, preds: seq<Link>, i: nat, l: Link, i': int)
    requires i < |preds| && i <= i' + 1 && -1 <= i'
    ensures i <= i' ==> FoundAbove(s, key, preds[i := l], i') == FoundAbove(s, key, preds, i')
    decreases |preds| - i'
  {
    if i <= i' && i' + 1 < |preds| {
      FoundAboveFrame(s, key, preds, i, l, i' + 1);
    }
  }

  /** Before any level is descended nothing is remembered. */
  lemma {:induction false} FoundAboveNone(s: SkipList, key: int, preds: seq<Link>, i: int)
    requires -1 <= i && forall j :: i < j < |preds| ==> preds[j] == Nil
    ensures FoundAbove(s, key, preds, i) == Nil
    decreases |preds| - i
  {
    if i + 1 < |preds| {
      FoundAboveNone(s, key, preds, i + 1);
    }
  }

  /** The remembered node is nil exactly when no level has a record. */
  lemma {:induction false} FoundAboveNil(s: SkipList, key: int, preds: seq<Link>, i: int)
    requires -1 <= i
    ensures FoundAbove(s, key, preds, i) == Nil ==>
      forall j :: i < j < |preds| ==> Recorded(s, key, preds[j], j) == Nil
    ensures FoundAbove(s, key, preds, i) != Nil ==>
      exists j :: i < j < |preds| && Recorded(s, key, preds[j], j).Ptr?
    decreases |preds| - i
  {
    if i + 1 < |preds| {
      FoundAboveNil(s, key, preds, i + 1);
      if Recorded(s, key, preds[i + 1], i + 1).Nil? && FoundAbove(s, key, preds, i) == Nil {
        forall j | i < j < |preds|
          ensures Recorded(s, key, preds[j], j) == Nil
        {
        }
      }
    }
  }

  /** Whether DeleteOrModify's descent found a node: it did exactly when key
      is present, and then the node is the level-0 one carrying key. */
  lemma FoundMatches(s: SkipList, key: int, ps: seq<int>, update: seq<Link>, found: Link)
    requires Valid(s) && Descent(s, key, ps) && |update| == s.maxLevels
    requires forall j :: 0 <= j < s.maxLevels ==>
      update[j] == if Matches(s, j, key, ps[j]) then Ptr(PredNode(s, key, ps, j)) else Nil
    requires found.Ptr? ==> exists j :: 0 <= j < s.maxLevels && update[j].Ptr?
    requires found == Nil ==> forall j :: 0 <= j < s.maxLevels ==> update[j] == Nil
    requires update[0].Ptr? ==> found == NextOf(s, update[0], 0)
    ensures found.Ptr? <==> key in Abs(s)
    ensures found.Ptr? ==> Matches(s, 0, key, ps[0]) && found.index == Chains(s)[0][ps[0] + 1]
  {
    var W := Chains(s);
    assert IsChain(s, 0, W[0]);
    FoundKey(s, key, ps[0]);
    if found.Ptr? {
      var j :| 0 <= j < s.maxLevels && update[j].Ptr?;
      MatchesDown(s, key, 0, ps[0], j, ps[j], ps[0]);
      RecordedMatches(s, key, ps, 0);
    } else {
      assert update[0] == Nil;
    }
  }

  /** The records and the remembered node at the end of the descent, read
      against the chains. */
  lemma DescendMatchingDone(s: SkipList, key: int, ps: seq<int>, preds: seq<Link>, update: seq<Link>, found: Link)
    requires Valid(s) && Descended(s, key, ps, preds, -1)
    requires update == RecordsAbove(s, key, preds, -1) && found == FoundAbove(s, key, preds, -1)
    ensures Descent(s, key, ps) && |update| == s.maxLevels
    ensures forall j :: 0 <= j < s.maxLevels ==>
      update[j] == if Matches(s, j, key, ps[j]) then Ptr(PredNode(s, key, ps, j)) else Nil
    ensures found.Ptr? <==> key in Abs(s)
    ensures found.Ptr? ==> Matches(s, 0, key, ps[0]) && found.index == Chains(s)[0][ps[0] + 1]
  {
    DescentDone(s, key, ps, preds);
    forall j | 0 <= j < s.maxLevels
      ensures update[j] == if Matches(s, j, key, ps[j]) then Ptr(PredNode(s, key, ps, j)) else Nil
    {
      RecordedMatches(s, key, ps, j);
    }
    FoundAboveNil(s, key, preds, -1);
    FoundMatches(s, key, ps, update, found);
  }

  /** DeleteOrModify's descent (internals/skiplist.go:99-109): the common
      descent, except that a level's predecessor is recorded only when the
      node after it carries key, and that node is remembered. */
  method DescendMatching(s: SkipList, key: int) returns (update: seq<Link>, found: Link, ghost ps: seq<int>)
    requires Valid(s) && s.minKey <= key
    ensures Descent(s, key, ps) && |update| == s.maxLevels
    ensures forall j :: 0 <= j < s.maxLevels ==>
      update[j] == if Matches(s, j, key, ps[j]) then Ptr(PredNode(s, key, ps, j)) else Nil
    ensures found.Ptr? <==> key in Abs(s)
    ensures found.Ptr? ==> Matches(s, 0, key, ps[0]) && found.index == Chains(s)[0][ps[0] + 1]
  {
    update := seq(s.maxLevels, _ => Nil);
    ghost var preds: seq<Link> := seq(s.maxLevels, _ => Nil);
    ps := seq(s.maxLevels, _ => -1);
    found := Nil;
    var current: nat := Header;
    var i := s.currentLevel;
    MatchStart(s, key, ps, preds, update);
    while i >= 0
      invariant Descended(s, key, ps, preds, i)
      invariant current < |s.nodes| && s.nodes[current].key < key
      invariant i >= 0 ==> current == Header || current in Chains(s)[i]
      invariant update == RecordsAbove(s, key, preds, i)
      invariant found == FoundAbove(s, key, preds, i)
    {
      current, update, found, ps := MatchLevel(s, key, i, current, update, found, ps, preds);
      preds := preds[i := Ptr(current)];
      i := i - 1;
    }
    DescendMatchingDone(s, key, ps, preds, update, found);
  }

  /** Before the descent: nothing recorded, nothing found, and the levels
      above currentLevel are empty. */
  lemma MatchStart(s: SkipList, key: int, ps: seq<int>, preds: seq<Link>, update: seq<Link>)
    requires Valid(s) && s.minKey <= key
    requires |ps| == |preds| == |update| == s.maxLevels
    requires forall j :: 0 <= j < s.maxLevels ==> ps[j] == -1 && preds[j] == Nil && update[j] == Nil
    ensures Descended(s, key, ps, preds, s.currentLevel)
    ensures s.nodes[Header].key < key
    ensures update == RecordsAbove(s, key, preds, s.currentLevel)
    ensures Nil == FoundAbove(s, key, preds, s.currentLevel)
  {
    assert update == RecordsAbove(s, key, preds, s.currentLevel);
    FoundAboveNone(s, key, preds, s.currentLevel);
  }

  /** One level of DeleteOrModify's descent (internals/skiplist.go:101-108):
      the scan, then the record when the node after the stop carries key. */
  method MatchLevel(s: SkipList, key: int, i: nat, current: nat, update: seq<Link>, found: Link,
                    ghost ps: seq<int>, ghost preds: seq<Link>)
    returns (current': nat, update': seq<Link>, found': Link, ghost ps': seq<int>)
    requires Valid(s) && Descended(s, key, ps, preds, i) && i <= s.currentLevel
    requires current < |s.nodes| && s.nodes[current].key < key
    requires current == Header || current in Chains(s)[i]
    requires update == RecordsAbove(s, key, preds, i) && found == FoundAbove(s, key, preds, i)
    ensures Descended(s, key, ps', preds[i := Ptr(current')], i - 1)
    ensures current' < |s.nodes| && s.nodes[current'].key < key
    ensures i > 0 ==> current' == Header || current' in Chains(s)[i - 1]
    ensures update' == RecordsAbove(s, key, preds[i := Ptr(current')], i - 1)
    ensures found' == FoundAbove(s, key, preds[i := Ptr(current')], i - 1)
  {
    current', ps' := DescendLevel(s, key, i, current, ps, preds);
    RecordStep(s, key, preds, i, Ptr(current'));
    var next := s.nodes[current'].next[i];
    assert NextOf(s, Ptr(current'), i) == next;
    update', found' := update, found;
    if next != Nil && s.nodes[next.index].key == key {
      update' := update[i := Ptr(current')];
      found' := next;
    }
  }

  /** The unlink loop (internals/skiplist.go:127-129): from level 0 upwards,
      as long as a predecessor was recorded, it takes over the deleted
      node's link. e is the level the loop stops at. */
  method Unlink(nodes: seq<Node>, x: nat, update: seq<Link>, currentLevel: int, ghost M: nat)
    returns (nodes': seq<Node>, ghost e: nat)
    requires x < |nodes| && -1 <= currentLevel < M == |update|
    requires forall k :: 0 <= k < |nodes| ==> |nodes[k].next| == M
    requires forall j :: 0 <= j < M && update[j].Ptr? ==> update[j].index < |nodes|
    ensures UnsplicedArena(nodes, nodes', x, update, FirstGap(update, currentLevel, 0), M)
    ensures e == FirstGap(update, currentLevel, 0)
    ensures e <= currentLevel + 1 && (e <= currentLevel ==> update[e] == Nil)
  {
    nodes' := nodes;
    var i := 0;
    while i <= currentLevel && update[i] != Nil
      invariant 0 <= i <= currentLevel + 1
      invariant UnsplicedArena(nodes, nodes', x, update, i, M)
    {
      nodes' := SetNext(nodes', update[i].index, i, nodes'[x].next[i]);
      i := i + 1;
    }
    e := i;
    FirstGapIs(update, currentLevel, 0, e);
  }

  /** The first level from i on, up to top, without a recorded predecessor
      (top + 1 when every level has one). */
  function FirstGap(update: seq<Link>, top: int, i: nat): (g: nat)
    ensures i <= g
    decreases |update| - i
  {
    if top < i || |update| <= i || update[i] == Nil then i else FirstGap(update, top, i + 1)
  }

  lemma {:induction false} FirstGapIs(update: seq<Link>, top: int, i: nat, e: nat)
    requires i <= e <= top + 1 && e <= |update|
    requires forall j :: i <= j < e ==> update[j].Ptr?
    requires e <= top && e < |update| ==> update[e] == Nil
    ensures FirstGap(update, top, i) == e
    decreases e - i
  {
    if i < e {
      FirstGapIs(update, top, i + 1, e);
    }
  }

  /** The recomputation of currentLevel (internals/skiplist.go:131-137):
      scanning down from the old top, the result is one below the lowest
      level whose header link is nil. */
  method TopLevel(nodes: seq<Node>, currentLevel: int) returns (level: int)
    requires |nodes| >= 1 && -1 <= currentLevel < |nodes[Header].next|
    ensures -1 <= level <= currentLevel
    ensures forall j :: 0 <= j <= level ==> nodes[Header].next[j] != Nil
    ensures level < currentLevel ==> nodes[Header].next[level + 1] == Nil
  {
    level := currentLevel;
    var i := currentLevel;
    while i >= 0
      invariant -1 <= i <= level <= currentLevel
      invariant level < currentLevel ==> nodes[Header].next[level + 1] == Nil
      invariant forall j :: i < j <= level ==> nodes[Header].next[j] != Nil
    {
      if nodes[Header].next[i] == Nil {
        level := i - 1;
      }
      i := i - 1;
    }
  }

  /** The descent's record and the level the unlink loop stopped at make an
      unlink setup for the found node. */
  lemma DeleteSetup(s: SkipList, s': SkipList, key: int, ps: seq<int>, update: seq<Link>, e: nat)
    requires Valid(s) && Descent(s, key, ps) && |update| == s.maxLevels
    requires forall j :: 0 <= j < s.maxLevels ==>
      update[j] == if Matches(s, j, key, ps[j]) then Ptr(PredNode(s, key, ps, j)) else Nil
    requires Matches(s, 0, key, ps[0])
    requires e <= s.currentLevel + 1 && (e <= s.currentLevel ==> update[e] == Nil)
    requires UnsplicedArena(s.nodes, s'.nodes, Chains(s)[0][ps[0] + 1], update, e, s.maxLevels)
    requires s'.maxLevels == s.maxLevels && s'.minKey == s.minKey
    requires -1 <= s'.currentLevel < s.maxLevels
    ensures UnspliceSetup(s, s', key, ps, e, update)
  {
    UnlinkStops(s, key, ps, update, e);
  }

  /** Unlinking the found node and recomputing currentLevel leaves a valid
      list without key. */
  lemma DeleteNode(s: SkipList, s': SkipList, key: int, ps: seq<int>, update: seq<Link>, e: nat)
    requires UnspliceSetup(s, s', key, ps, e, update) && s'.currentLevel <= s.currentLevel
    requires forall j :: 0 <= j <= s'.currentLevel ==> s'.nodes[Header].next[j] != Nil
    requires s'.currentLevel < s.currentLevel ==> s'.nodes[Header].next[s'.currentLevel + 1] == Nil
    ensures Valid(s') && Abs(s') == Abs(s) - {key}
  {
    UnspliceLayered(s, s', key, ps, e, update);
    ShrinkExact(s', RemovedChains(s, ps, e), s.currentLevel);
    DeleteAbs(s, s', key, ps, update, e);
  }

  lemma DeleteAbs(s: SkipList, s': SkipList, key: int, ps: seq<int>, update: seq<Link>, e: nat)
    requires UnspliceSetup(s, s', key, ps, e, update)
    requires forall i :: 0 <= i < e ==> 0 <= ps[i] + 1 < |Chains(s)[i]|
    requires Valid(s') && Chains(s') == RemovedChains(s, ps, e)
    ensures Abs(s') == Abs(s) - {key}
  {
    UnspliceShaped(s, s', key, ps, e, update);
    RemovedAt(s, ps, e, 0);
    UnspliceAbs(s, s', ps[0] + 1);
  }

  /** Deletes key's node, or lets the callback keep it with new members
      (internals/skiplist.go:88-140). deleted is the source's result; called
      says whether the callback ran (only for a present key). */
  method DeleteOrModify(s: SkipList, key: int, decide: Option<set<string> -> (bool, set<string>)>)
    returns (r: Result<SkipList>, deleted: bool, called: bool)
    requires Valid(s)
    ensures r.Panic? <==> key < s.minKey
    ensures r.Panic? ==> r.error == KeyBelowMin && !deleted && !called
    ensures r.Ok? ==>
      var s' := r.value;
      && Valid(s') && s'.maxLevels == s.maxLevels && s'.minKey == s.minKey
      && called == (key in Abs(s) && decide.Some?)
      && deleted == (key in Abs(s) && Verdict(decide, Abs(s)[key]).0)
      && Abs(s') == (if key !in Abs(s) then Abs(s)
                     else if deleted then Abs(s) - {key}
                     else Abs(s)[key := Verdict(decide, Abs(s)[key]).1])
      && (!deleted ==> s'.currentLevel == s.currentLevel && Chains(s') == Chains(s))
  {
    if key < s.minKey {
      return Panic(KeyBelowMin), false, false;
    }
    var update, found, ps := DescendMatching(s, key);
    if found == Nil {
      return Ok(s), false, false;
    }
    var x := found.index;
    ghost var W := Chains(s);
    assert IsChain(s, 0, W[0]);
    FoundKey(s, key, ps[0]);
    var needToDelete, modifiedValue := Verdict(decide, s.nodes[x].values).0, Verdict(decide, s.nodes[x].values).1;
    called := decide.Some?;
    if !needToDelete {
      var s' := SetMembers(s, x, modifiedValue, ps[0] + 1);
      return Ok(s'), false, called;
    }
    var s' := RemoveNode(s, key, x, update, ps);
    return Ok(s'), true, called;
  }

  /** The deleting branch of DeleteOrModify (internals/skiplist.go:127-137):
      unlink the found node from every level that recorded a predecessor,
      then lower currentLevel past the levels left empty. */
  method RemoveNode(s: SkipList, key: int, x: nat, update: seq<Link>, ghost ps: seq<int>) returns (s': SkipList)
    requires Valid(s) && Descent(s, key, ps) && |update| == s.maxLevels
    requires forall j :: 0 <= j < s.maxLevels ==>
      update[j] == if Matches(s, j, key, ps[j]) then Ptr(PredNode(s, key, ps, j)) else Nil
    requires Matches(s, 0, key, ps[0]) && x == Chains(s)[0][ps[0] + 1]
    ensures Valid(s') && s'.maxLevels == s.maxLevels && s'.minKey == s.minKey
    ensures Abs(s') == Abs(s) - {key}
  {
    var nodes, e := Unlink(s.nodes, x, update, s.currentLevel, s.maxLevels);
    var level := TopLevel(nodes, s.currentLevel);
    s' := SkipList(nodes, s.maxLevels, level, s.minKey);
    DeleteSetup(s, s', key, ps, update, e);
    DeleteNode(s, s', key, ps, update, e);
  }

  // ---------------------------------------------------------------------
  // SearchOrModify

  /** The levels above i were scanned without finding key: on level i + 1
      the scan stopped at position last and the node after it does not
      carry key. */
  ghost predicate Missed(s: SkipList, key: int, i: int, last: int)
    requires Valid(s)
  {
    -1 <= i <= s.currentLevel &&
    (i < s.currentLevel ==>
      && IsChain(s, i + 1, Chains(s)[i + 1]) && PredAt(s, Chains(s)[i + 1], key, last)
      && !Matches(s, i + 1, key, last))
  }

  /** One level of the lookup: the scan stopped at position p of level i;
      either the node after it carries key and is found in the map, or the
      level is missed and the scan continues below. */
  lemma SearchStep(s: SkipList, key: int, i: nat, p: int)
    requires Valid(s) && i <= s.currentLevel
    requires IsChain(s, i, Chains(s)[i]) && PredAt(s, Chains(s)[i], key, p)
    ensures var current := NodeAt(Chains(s)[i], p);
      var next := s.nodes[current].next[i];
      && current < |s.nodes| && (next.Ptr? ==> next.index < |s.nodes|)
      && (next != Nil && s.nodes[next.index].key == key ==>
            && next.index == Chains(s)[i][p + 1]
            && key in Abs(s) && Abs(s)[key] == s.nodes[next.index].values)
      && (!(next != Nil && s.nodes[next.index].key == key) ==>
            && Missed(s, key, i - 1, p)
            && (i > 0 ==> current == Header || current in Chains(s)[i - 1]))
  {
    var W := Chains(s);
    var c := W[i];
    var current := NodeAt(c, p);
    assert s.nodes[current].next[i] == LinkAt(c, p + 1);
    if p + 1 < |c| {
      var q := LevelNodeEntry(s, i, p + 1);
    }
    if i > 0 && p >= 0 {
      assert Within(W[i], W[i - 1]);
      assert c[p] in c;
    }
  }

  /** A lookup that scanned every level without a match: key is absent. */
  lemma SearchDone(s: SkipList, key: int, last: int)
    requires Valid(s) && Missed(s, key, -1, last)
    ensures key !in Abs(s)
  {
    if s.currentLevel >= 0 {
      FoundKey(s, key, last);
    } else {
      assert Chains(s)[0] == [];
      EmptyAbs(s);
    }
  }

  /** SearchOrModify's descent (internals/skiplist.go:200-214): level by
      level from the top, it stops at the first level whose node after the
      predecessor carries key; found is that node, or nil when no level has
      one. q is the node's position on level 0. */
  method FindKey(s: SkipList, key: int) returns (found: Link, ghost q: nat)
    requires Valid(s) && s.minKey <= key
    ensures found.Ptr? <==> key in Abs(s)
    ensures found.Ptr? ==>
      && q < |Chains(s)[0]| && found.index == Chains(s)[0][q] && found.index < |s.nodes|
      && s.nodes[found.index].key == key && Abs(s)[key] == s.nodes[found.index].values
  {
    found := Nil;
    q := 0;
    var current: nat := Header;
    var i := s.currentLevel;
    ghost var last := -1;
    while i >= 0
      invariant Missed(s, key, i, last) && found == Nil
      invariant current < |s.nodes| && s.nodes[current].key < key
      invariant i >= 0 ==> current == Header || current in Chains(s)[i]
    {
      ghost var c := Chains(s)[i];
      assert IsChain(s, i, c);
      ghost var p0 := -1;
      if current != Header {
        p0 :| 0 <= p0 < |c| && c[p0] == current;
      }
      ghost var p;
      current, p := ScanLevel(s, i, key, current, c, p0);
      SearchStep(s, key, i, p);
      var next := s.nodes[current].next[i];
      if next != Nil && s.nodes[next.index].key == key {
        found := next;
        q := LevelNodeEntry(s, i, p + 1);
        break;
      }
      last := p;
      i := i - 1;
    }
    if found.Nil? {
      SearchDone(s, key, last);
    }
  }

  /** Looks key up and, when a modifier is given, replaces its members by
      the modifier's result (internals/skiplist.go:190-217). The result is
      the key's members after the call, or None (the source's nil map) when
      key is absent. */
  method SearchOrModify(s: SkipList, key: int, modifier: Option<set<string> -> set<string>>)
    returns (r: Result<Option<set<string>>>, s': SkipList)
    requires Valid(s)
    ensures r.Panic? <==> key < s.minKey
    ensures r.Panic? ==> r.error == KeyBelowMin && s' == s
    ensures r.Ok? ==>
      && (r.value.Some? <==> key in Abs(s))
      && (key in Abs(s) ==> r.value.value == Merge(modifier, Abs(s)[key], Abs(s)[key]))
      && Valid(s') && s'.maxLevels == s.maxLevels && s'.minKey == s.minKey
      && s'.currentLevel == s.currentLevel && Chains(s') == Chains(s)
      && Abs(s') == (if key in Abs(s) then Abs(s)[key := r.value.value] else Abs(s))
      && (modifier.None? || key !in Abs(s) ==> s' == s)
  {
    s' := s;
    if key < s.minKey {
      return Panic(KeyBelowMin), s';
    }
    var found, q := FindKey(s, key);
    if found == Nil {
      return Ok(None), s';
    }
    var x := found.index;
    if modifier.Some? {
      s' := SetMembers(s, x, modifier.value(s.nodes[x].values), q);
    } else {
      assert Abs(s)[key := s.nodes[x].values] == Abs(s);
    }
    r := Ok(Some(s'.nodes[x].values));
  }

  // ---------------------------------------------------------------------
  // SearchRange

  /** The member sets of the keys in [keyMin, keyMax), in ascending key
      order (internals/skiplist.go:144-186). Panics when either bound lies
      below minKey and, failing that, when keyMin >= keyMax. The sets listed
      are exactly those of the part of the list's map whose keys lie in the
      range. */
  method SearchRange(s: SkipList, keyMin: int, keyMax: int) returns (r: Result<seq<set<string>>>)
    requires Valid(s)
    ensures r.Panic? <==> keyMin < s.minKey || keyMax < s.minKey || keyMax <= keyMin
    ensures r.Panic? ==>
      r.error == if keyMin < s.minKey || keyMax < s.minKey then BoundBelowMin else EmptyRange
    ensures r.Ok? ==> r.value == ValuesOf(Window(Entries(s), keyMin, keyMax))
    ensures r.Ok? ==>
      && Ascending(Window(Entries(s), keyMin, keyMax))
      && AsMap(Window(Entries(s), keyMin, keyMax)) == Restrict(Abs(s), keyMin, keyMax)
  {
    if keyMin < s.minKey || keyMax < s.minKey {
      return Panic(BoundBelowMin);
    }
    if keyMin >= keyMax {
      return Panic(EmptyRange);
    }
    var update, current;
    ghost var ps;
    update, current, ps := Descend(s, keyMin);
    var start := StartOfRange(s, keyMin, ps, current);
    if start == Nil {
      RangeResult(s, keyMin, keyMax, ps[0], ps[0] + 1, []);
      return Ok([]);
    }
    var count := CountBelow(s, Chains(s)[0], start, ps[0] + 1, keyMax);
    var vs := CollectValues(s, Chains(s)[0], start, ps[0] + 1, count);
    RangeResult(s, keyMin, keyMax, ps[0], ps[0] + 1 + count, vs);
    r := Ok(vs);
  }

  /** The first node at or above keyMin, read off level 0 after the descent
      (internals/skiplist.go:167). */
  method StartOfRange(s: SkipList, keyMin: int, ghost ps: seq<int>, current: nat) returns (start: Link)
    requires Valid(s) && Descent(s, keyMin, ps) && current == PredNode(s, keyMin, ps, 0)
    ensures IsChain(s, 0, Chains(s)[0]) && start == LinkAt(Chains(s)[0], ps[0] + 1)
  {
    start := s.nodes[current].next[0];
  }

  /** The number of consecutive nodes of chain c, from position a on, whose
      keys lie below keyMax (internals/skiplist.go:173-178). */
  method CountBelow(s: SkipList, ghost c: seq<nat>, start: Link, ghost a: nat, keyMax: int) returns (count: nat)
    requires Shaped(s) && IsChain(s, 0, c) && a <= |c| && start == LinkAt(c, a)
    ensures a + count <= |c|
    ensures forall q :: a <= q < a + count ==> s.nodes[c[q]].key < keyMax
    ensures a + count < |c| ==> keyMax <= s.nodes[c[a + count]].key
  {
    count := 0;
    var node := start;
    while node != Nil && s.nodes[node.index].key < keyMax
      invariant a + count <= |c| && node == LinkAt(c, a + count)
      invariant forall q :: a <= q < a + count ==> s.nodes[c[q]].key < keyMax
      decreases |c| - count
    {
      assert s.nodes[NodeAt(c, a + count)].next[0] == LinkAt(c, a + count + 1);
      count := count + 1;
      node := s.nodes[node.index].next[0];
    }
  }

  /** The member sets of count consecutive nodes of chain c from position a
      on, in chain order (internals/skiplist.go:180-183). */
  method CollectValues(s: SkipList, ghost c: seq<nat>, start: Link, ghost a: nat, count: nat)
    returns (vs: seq<set<string>>)
    requires Shaped(s) && IsChain(s, 0, c) && a + count <= |c| && start == LinkAt(c, a)
    ensures |vs| == count
    ensures forall k :: 0 <= k < count ==> vs[k] == s.nodes[c[a + k]].values
  {
    vs := seq(count, _ => {});
    var node := start;
    var i := 0;
    while i < count
      invariant 0 <= i <= count && |vs| == count && node == LinkAt(c, a + i)
      invariant forall k :: 0 <= k < i ==> vs[k] == s.nodes[c[a + k]].values
    {
      assert s.nodes[NodeAt(c, a + i)].next[0] == LinkAt(c, a + i + 1);
      vs := vs[i := s.nodes[node.index].values];
      node := s.nodes[node.index].next[0];
      i := i + 1;
    }
  }

  /** When p is keyMin's predecessor on level 0, the keys from p + 1 up to
      b lie below keyMax and the key at b (if any) does not, the member sets
      of positions p + 1 to b are the window [keyMin, keyMax), which denotes
      the range's part of the list's map. */
  lemma RangeResult(s: SkipList, keyMin: int, keyMax: int, p: int, b: int, vs: seq<set<string>>)
    requires Valid(s) && keyMin < keyMax
    requires IsChain(s, 0, Chains(s)[0]) && PredAt(s, Chains(s)[0], keyMin, p) && p + 1 <= b <= |Chains(s)[0]|
    requires forall q :: p + 1 <= q < b ==> s.nodes[Chains(s)[0][q]].key < keyMax
    requires b < |Chains(s)[0]| ==> keyMax <= s.nodes[Chains(s)[0][b]].key
    requires |vs| == b - p - 1
    requires forall k :: 0 <= k < b - p - 1 ==> vs[k] == s.nodes[Chains(s)[0][p + 1 + k]].values
    ensures vs == ValuesOf(Window(Entries(s), keyMin, keyMax))
    ensures Ascending(Window(Entries(s), keyMin, keyMax))
    ensures AsMap(Window(Entries(s), keyMin, keyMax)) == Restrict(Abs(s), keyMin, keyMax)
  {
    var c := Chains(s)[0];
    var es := Entries(s);
    PredAtSplits(s, 0, c, keyMin, p);
    forall q | b < q < |c|
      ensures keyMax <= s.nodes[c[q]].key
    {
      KeyOrder(s, 0, c, b, q);
    }
    assert |es| == |c|;
    assert forall q :: 0 <= q < |c| ==> es[q] == Entry(s.nodes[c[q]].key, s.nodes[c[q]].values);
    WindowValues(es, keyMin, keyMax, p + 1, b, vs);
  }
}
