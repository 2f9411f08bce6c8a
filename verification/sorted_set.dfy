/** The sorted set of sorted_set.go: a dictionary from member to rank kept
    next to a skip list from rank to the set of members holding that rank
    (minKey 0, 32 levels). Every operation keeps the two views consistent:
    the skip list's map is exactly the dictionary grouped by rank. */
module SortedSets {
  import opened Outcomes
  import opened SortedEntries
  import opened SkipListModel
  import SkipLists

  /** The skip list parameters the sorted set fixes (sorted_set.go:9-11;
      the level-jump probability is replaced by coin outcomes). */
  const MaxLevels: int := 32
  const MinKey: int := 0

  /** The dictionary member -> rank and the skip list rank -> members. */
  datatype SortedSet = SortedSet(dict: map<string, int>, list: SkipList)

  /** The members of a dictionary grouped by rank: each rank in use maps to
      the set of members holding it. */
  ghost function Groups(dict: map<string, int>): map<int, set<string>>
  {
    map r | r in dict.Values :: set m | m in dict && dict[m] == r
  }

  /** The sorted-set invariant: a valid skip list with the fixed parameters
      whose map is exactly the dictionary grouped by rank (so a member has
      rank r iff it is in the set stored under key r, and no stored set is
      empty), all ranks being admissible keys. */
  ghost predicate Consistent(ss: SortedSet) {
    && Valid(ss.list) && ss.list.maxLevels == MaxLevels && ss.list.minKey == MinKey
    && (forall m :: m in ss.dict ==> MinKey <= ss.dict[m])
    && Abs(ss.list) == Groups(ss.dict)
  }

  /** No member occurs twice. */
  predicate Distinct(ms: seq<string>) {
    forall i, j :: 0 <= i < j < |ms| ==> ms[i] != ms[j]
  }

  // ---------------------------------------------------------------------
  // Groups

  /** A member has rank r exactly when it is in the group of r. */
  lemma GroupsHas(dict: map<string, int>, r: int, m: string)
    ensures (r in Groups(dict) && m in Groups(dict)[r]) <==> (m in dict && dict[m] == r)
  {
    if m in dict && dict[m] == r {
      assert r in dict.Values;
    }
  }

  /** No group is empty. */
  lemma GroupsNonEmpty(dict: map<string, int>, r: int)
    requires r in Groups(dict)
    ensures Groups(dict)[r] != {}
  {
    var m :| m in dict && dict[m] == r;
    assert m in Groups(dict)[r];
  }

  /** Giving a new member rank r adds it to r's group, creating the group
      when r was unused. */
  lemma GroupsAdd(dict: map<string, int>, member: string, rank: int)
    requires member !in dict
    ensures Groups(dict[member := rank]) ==
      Groups(dict)[rank := (if rank in Groups(dict) then Groups(dict)[rank] else {}) + {member}]
  {
    var d' := dict[member := rank];
    var g := Groups(dict);
    var g' := Groups(d');
    var h := g[rank := (if rank in g then g[rank] else {}) + {member}];
    assert rank in d'.Values by {
      assert d'[member] == rank;
    }
    forall r | r in g'
      ensures r in h && g'[r] == h[r]
    {
      var m :| m in d' && d'[m] == r;
      if m != member {
        assert m in dict && dict[m] == r;
        GroupsHas(dict, r, m);
      }
      forall x
        ensures x in g'[r] <==> x in h[r]
      {
        GroupsHas(dict, r, x);
        GroupsHas(d', r, x);
      }
    }
    forall r | r in h
      ensures r in g'
    {
      if r != rank {
        var m :| m in dict && dict[m] == r;
        assert m in d' && d'[m] == r;
      }
    }
  }

  /** Dropping a member takes it out of its rank's group, and drops the
      group when the member was its last. */
  lemma GroupsRemove(dict: map<string, int>, member: string)
    requires member in dict
    ensures var g := Groups(dict);
      var rank := dict[member];
      rank in g && member in g[rank]
      && Groups(dict - {member}) ==
           if g[rank] - {member} == {} then g - {rank} else g[rank := g[rank] - {member}]
  {
    var d' := dict - {member};
    var g := Groups(dict);
    var g' := Groups(d');
    var rank := dict[member];
    GroupsHas(dict, rank, member);
    var h := if g[rank] - {member} == {} then g - {rank} else g[rank := g[rank] - {member}];
    forall r | r in g'
      ensures r in h && g'[r] == h[r]
    {
      var m :| m in d' && d'[m] == r;
      GroupsHas(dict, r, m);
      assert m in g[r];
      if r == rank {
        assert m in g[rank] - {member};
      }
      forall x
        ensures x in g'[r] <==> x in h[r]
      {
        GroupsHas(dict, r, x);
        GroupsHas(d', r, x);
      }
    }
    forall r | r in h
      ensures r in g'
    {
      if r == rank {
        var m :| m in g[rank] - {member};
        GroupsHas(dict, rank, m);
        GroupsHas(d', rank, m);
      } else {
        var m :| m in dict && dict[m] == r;
        assert m in d' && d'[m] == r;
      }
    }
  }

  // ---------------------------------------------------------------------
  // Operations

  /** An empty sorted set over a skip list of 32 levels with minKey 0
      (sorted_set.go:23-28). */
  function Init(): (ss: SortedSet)
    ensures Consistent(ss)
    ensures ss.dict == map[] && Abs(ss.list) == map[]
  {
    var r := SkipLists.Init(MaxLevels, MinKey);
    assert Groups(map[]) == map[];
    SortedSet(map[], r.value)
  }

  /** Adds member with rank (sorted_set.go:32-52). Panics on a negative
      rank; a member already present keeps its rank and the call reports
      false; otherwise the member is recorded and joins the set stored
      under its rank. draws are the coin outcomes for a new node's level. */
  method Add(ss: SortedSet, member: string, rank: int, draws: seq<bool>)
    returns (r: Result<bool>, ss': SortedSet)
    requires Consistent(ss)
    ensures r.Panic? <==> rank < 0
    ensures r.Panic? ==> r.error == NegativeRank && ss' == ss
    ensures Consistent(ss')
    ensures r.Ok? ==> (r.value <==> member !in ss.dict)
    ensures r.Ok? && !r.value ==> ss' == ss
    ensures r.Ok? && r.value ==>
      && ss'.dict == ss.dict[member := rank]
      && var m := Abs(ss.list);
         Abs(ss'.list) == m[rank := (if rank in m then m[rank] else {}) + {member}]
  {
    ss' := ss;
    if rank < 0 {
      return Panic(NegativeRank), ss';
    }
    if member in ss.dict {
      return Ok(false), ss';
    }
    var dict := ss.dict[member := rank];
    var join: set<string> -> set<string> := cur => cur + {member};
    var res := SkipLists.AddOrModify(ss.list, rank, {member}, Some(join), draws);
    ss' := SortedSet(dict, res.value);
    GroupsAdd(ss.dict, member, rank);
    if rank in Abs(ss.list) {
      assert SkipLists.Merge(Some(join), Abs(ss.list)[rank], {member}) == Abs(ss.list)[rank] + {member};
    } else {
      assert {} + {member} == {member};
    }
    r := Ok(true);
  }

  /** Remove undoes Add: on a map whose sets are non-empty and do not hold
      member, removing member after adding it with rank (each as the
      skip list's map changes in Add's and Remove's contracts) gives the
      map back. */
  lemma RemoveUndoesAdd(m: map<int, set<string>>, member: string, rank: int)
    requires forall r :: r in m ==> m[r] != {} && member !in m[r]
    ensures var m' := m[rank := (if rank in m then m[rank] else {}) + {member}];
      rank in m' && member in m'[rank]
      && (if m'[rank] == {member} then m' - {rank} else m'[rank := m'[rank] - {member}]) == m
  {
  }

  /** What Remove's callback decides for the members stored under the
      removed member's rank (sorted_set.go:67-74): drop the node when the
      member was the last one, otherwise keep the others. */
  function DropMember(member: string): (decide: set<string> -> (bool, set<string>))
  {
    ms => if ms - {member} == {} then (true, {}) else (false, ms - {member})
  }

  /** Removes member (sorted_set.go:55-77). An absent member changes nothing
      and the call reports false; otherwise the member leaves the dictionary
      and the set stored under its rank, whose node goes when it empties, and
      the call reports true (the callback ran). */
  method Remove(ss: SortedSet, member: string) returns (removed: bool, ss': SortedSet)
    requires Consistent(ss)
    ensures Consistent(ss')
    ensures removed <==> member in ss.dict
    ensures !removed ==> ss' == ss
    ensures removed ==>
      && ss'.dict == ss.dict - {member}
      && var m := Abs(ss.list);
         var rank := ss.dict[member];
         rank in m && member in m[rank]
         && Abs(ss'.list) == if m[rank] == {member} then m - {rank} else m[rank := m[rank] - {member}]
  {
    ss' := ss;
    if member !in ss.dict {
      return false, ss';
    }
    var rank := ss.dict[member];
    var dict := ss.dict - {member};
    GroupsRemove(ss.dict, member);
    var res, _, called := SkipLists.DeleteOrModify(ss.list, rank, Some(DropMember(member)));
    ss' := SortedSet(dict, res.value);
    removed := called;
    ghost var g := Groups(ss.dict);
    assert g[rank] - {member} == {} <==> g[rank] == {member};
  }

  /** The members of a set in some order, each once: Go ranges over a map
      in an unspecified order (sorted_set.go:89-95). */
  method SetToSeq(xs: set<string>) returns (ms: seq<string>)
    ensures Distinct(ms) && |ms| == |xs|
    ensures forall x :: x in ms <==> x in xs
  {
    ms := [];
    var rest := xs;
    while rest != {}
      invariant rest <= xs && |ms| + |rest| == |xs| && Distinct(ms)
      invariant forall x :: x in ms <==> x in xs && x !in rest
      decreases |rest|
    {
      var x :| x in rest;
      ms := ms + [x];
      rest := rest - {x};
    }
  }

  /** The members holding rank, in unspecified order (sorted_set.go:80-98).
      Panics on a negative rank. */
  method Get(ss: SortedSet, rank: int) returns (r: Result<seq<string>>)
    requires Consistent(ss)
    ensures r.Panic? <==> rank < 0
    ensures r.Panic? ==> r.error == NegativeRank
    ensures r.Ok? ==> Distinct(r.value)
    ensures r.Ok? ==> forall m :: m in r.value <==> m in ss.dict && ss.dict[m] == rank
  {
    if rank < 0 {
      return Panic(NegativeRank);
    }
    var res, _ := SkipLists.SearchOrModify(ss.list, rank, None);
    var found := res.value;
    forall m
      ensures (rank in Abs(ss.list) && m in Abs(ss.list)[rank]) <==> (m in ss.dict && ss.dict[m] == rank)
    {
      GroupsHas(ss.dict, rank, m);
    }
    if found.None? {
      return Ok([]);
    }
    var ms := SetToSeq(found.value);
    r := Ok(ms);
  }

  /** The number of members the groups hold together, counting a member
      once for every group it is in. */
  function TotalSize(groups: seq<set<string>>): nat {
    if groups == [] then 0 else TotalSize(groups[..|groups| - 1]) + |groups[|groups| - 1]|
  }

  /** The members of the groups one after another, each group's members in
      unspecified order (sorted_set.go:116-128); grp[i] is the group the
      i-th member came from. Every group is listed in full, so a member of
      several groups appears once for each of them. */
  method Flatten(groups: seq<set<string>>) returns (ms: seq<string>, ghost grp: seq<nat>)
    ensures |grp| == |ms| && |ms| == TotalSize(groups)
    ensures forall i :: 0 <= i < |ms| ==> grp[i] < |groups| && ms[i] in groups[grp[i]]
    ensures forall t, x :: 0 <= t < |groups| && x in groups[t] ==>
      exists i :: 0 <= i < |ms| && grp[i] == t && ms[i] == x
    ensures forall t, x :: 0 <= t < |groups| && x in groups[t] ==> x in ms
    ensures forall i, j :: 0 <= i < j < |ms| ==> grp[i] <= grp[j]
    ensures forall i, j :: 0 <= i < j < |ms| && ms[i] == ms[j] ==> grp[i] < grp[j]
  {
    ms := [];
    grp := [];
    var k := 0;
    while k < |groups|
      invariant k <= |groups| && Listed(groups, k, ms, grp)
    {
      ms, grp := AppendGroup(groups, k, ms, grp);
      k := k + 1;
    }
    assert groups[..k] == groups;
    forall t, x | 0 <= t < |groups| && x in groups[t]
      ensures x in ms
    {
      var i :| 0 <= i < |ms| && grp[i] == t && ms[i] == x;
    }
  }

  /** ms lists the members of the first k groups in full, group after
      group, and grp[i] is the group the i-th member came from. */
  ghost predicate Listed(groups: seq<set<string>>, k: nat, ms: seq<string>, grp: seq<nat>)
    requires k <= |groups|
  {
    && |grp| == |ms| && |ms| == TotalSize(groups[..k])
    && (forall i :: 0 <= i < |ms| ==> grp[i] < k && ms[i] in groups[grp[i]])
    && (forall t, x :: 0 <= t < k && x in groups[t] ==>
          exists i :: 0 <= i < |ms| && grp[i] == t && ms[i] == x)
    && (forall i, j :: 0 <= i < j < |ms| ==> grp[i] <= grp[j])
    && (forall i, j :: 0 <= i < j < |ms| && ms[i] == ms[j] ==> grp[i] < grp[j])
  }

  /** One round of the flattening loop: group k's members go after the
      members already listed. */
  method AppendGroup(groups: seq<set<string>>, k: nat, ms: seq<string>, ghost grp: seq<nat>)
    returns (ms': seq<string>, ghost grp': seq<nat>)
    requires k < |groups| && Listed(groups, k, ms, grp)
    ensures Listed(groups, k + 1, ms', grp')
  {
    var part := SetToSeq(groups[k]);
    ms' := ms + part;
    grp' := grp + seq(|part|, _ => k);
    AppendOrdered(groups, k, ms, grp, part);
    AppendCovers(groups, k, ms, grp, part);
    assert groups[..k + 1][..k] == groups[..k];
  }

  /** Appending group k keeps each member tagged with its group, the tags
      non-decreasing, and a repeat coming from a later group. */
  lemma AppendOrdered(groups: seq<set<string>>, k: nat, ms: seq<string>, grp: seq<nat>, part: seq<string>)
    requires k < |groups| && |grp| == |ms|
    requires forall i :: 0 <= i < |ms| ==> grp[i] < k && ms[i] in groups[grp[i]]
    requires forall i, j :: 0 <= i < j < |ms| ==> grp[i] <= grp[j]
    requires forall i, j :: 0 <= i < j < |ms| && ms[i] == ms[j] ==> grp[i] < grp[j]
    requires Distinct(part) && forall x :: x in part <==> x in groups[k]
    ensures var ms', grp' := ms + part, grp + seq(|part|, _ => k);
      && (forall i :: 0 <= i < |ms'| ==> grp'[i] < k + 1 && ms'[i] in groups[grp'[i]])
      && (forall i, j :: 0 <= i < j < |ms'| ==> grp'[i] <= grp'[j])
      && (forall i, j :: 0 <= i < j < |ms'| && ms'[i] == ms'[j] ==> grp'[i] < grp'[j])
  {
    var ms', grp' := ms + part, grp + seq(|part|, _ => k);
    var n := |ms|;
    assert forall i :: 0 <= i < n ==> ms'[i] == ms[i] && grp'[i] == grp[i];
    assert forall i :: n <= i < |ms'| ==> ms'[i] == part[i - n] && grp'[i] == k;
  }

  /** Appending group k lists every member of groups 0 to k at a position
      tagged with its group. */
  lemma AppendCovers(groups: seq<set<string>>, k: nat, ms: seq<string>, grp: seq<nat>, part: seq<string>)
    requires k < |groups| && |grp| == |ms|
    requires forall t, x :: 0 <= t < k && x in groups[t] ==>
      exists i :: 0 <= i < |ms| && grp[i] == t && ms[i] == x
    requires forall x :: x in part <==> x in groups[k]
    ensures var ms', grp' := ms + part, grp + seq(|part|, _ => k);
      forall t, x :: 0 <= t < k + 1 && x in groups[t] ==>
        exists i :: 0 <= i < |ms'| && grp'[i] == t && ms'[i] == x
  {
    var ms', grp' := ms + part, grp + seq(|part|, _ => k);
    var n := |ms|;
    forall t, x | 0 <= t < k + 1 && x in groups[t]
      ensures exists i :: 0 <= i < |ms'| && grp'[i] == t && ms'[i] == x
    {
      if t < k {
        var i :| 0 <= i < n && grp[i] == t && ms[i] == x;
        assert grp'[i] == t && ms'[i] == x;
      } else {
        var u :| 0 <= u < |part| && part[u] == x;
        assert grp'[n + u] == t && ms'[n + u] == x;
      }
    }
  }

  /** The members whose rank lies in [rankMin, rankMax), each once, grouped
      by ascending rank (sorted_set.go:102-131). Panics when a bound is
      negative and, failing that, when rankMin >= rankMax. */
  method GetRange(ss: SortedSet, rankMin: int, rankMax: int) returns (r: Result<seq<string>>)
    requires Consistent(ss)
    ensures r.Panic? <==> rankMin < 0 || rankMax < 0 || rankMax <= rankMin
    ensures r.Panic? ==> r.error == if rankMin < 0 || rankMax < 0 then NegativeRank else EmptyRange
    ensures r.Ok? ==> Distinct(r.value)
    ensures r.Ok? ==> forall m :: m in r.value <==> m in ss.dict && rankMin <= ss.dict[m] < rankMax
    ensures r.Ok? ==> forall i, j :: 0 <= i < j < |r.value| ==>
      r.value[i] in ss.dict && r.value[j] in ss.dict && ss.dict[r.value[i]] <= ss.dict[r.value[j]]
  {
    if rankMin < 0 || rankMax < 0 {
      return Panic(NegativeRank);
    }
    if rankMin >= rankMax {
      return Panic(EmptyRange);
    }
    var res := SkipLists.SearchRange(ss.list, rankMin, rankMax);
    var ms, grp := Flatten(res.value);
    RangeMembers(ss, rankMin, rankMax, res.value, ms, grp);
    r := Ok(ms);
  }

  /** Each group of a rank window holds exactly the members of that rank,
      and every member ranked inside the window is in one of them. */
  lemma WindowGroups(ss: SortedSet, lo: int, hi: int)
    requires Consistent(ss)
    requires Ascending(Window(Entries(ss.list), lo, hi))
    requires AsMap(Window(Entries(ss.list), lo, hi)) == Restrict(Abs(ss.list), lo, hi)
    ensures var w := Window(Entries(ss.list), lo, hi);
      && (forall t :: 0 <= t < |w| ==> lo <= w[t].key < hi)
      && (forall t, x :: 0 <= t < |w| && x in w[t].values ==> x in ss.dict && ss.dict[x] == w[t].key)
      && (forall x :: x in ss.dict && lo <= ss.dict[x] < hi ==>
            exists t :: 0 <= t < |w| && x in w[t].values)
  {
    var w := Window(Entries(ss.list), lo, hi);
    WindowFrom(Entries(ss.list), lo, hi);
    assert forall t :: 0 <= t < |w| ==> w[t] in w;
    forall t, x | 0 <= t < |w| && x in w[t].values
      ensures x in ss.dict && ss.dict[x] == w[t].key
    {
      AsMapHas(w, t);
      GroupsHas(ss.dict, w[t].key, x);
    }
    forall x | x in ss.dict && lo <= ss.dict[x] < hi
      ensures exists t :: 0 <= t < |w| && x in w[t].values
    {
      var k := ss.dict[x];
      GroupsHas(ss.dict, k, x);
      assert k in AsMap(w);
      AsMapOnly(w, k);
      var t :| 0 <= t < |w| && w[t].key == k;
      AsMapHas(w, t);
    }
  }

  /** GetRange's contract from SearchRange's result and the flattening. */
  lemma RangeMembers(ss: SortedSet, lo: int, hi: int, groups: seq<set<string>>, ms: seq<string>, grp: seq<nat>)
    requires Consistent(ss)
    requires groups == ValuesOf(Window(Entries(ss.list), lo, hi))
    requires Ascending(Window(Entries(ss.list), lo, hi))
    requires AsMap(Window(Entries(ss.list), lo, hi)) == Restrict(Abs(ss.list), lo, hi)
    requires |grp| == |ms|
    requires forall i :: 0 <= i < |ms| ==> grp[i] < |groups| && ms[i] in groups[grp[i]]
    requires forall t, x :: 0 <= t < |groups| && x in groups[t] ==> x in ms
    requires forall i, j :: 0 <= i < j < |ms| ==> grp[i] <= grp[j]
    requires forall i, j :: 0 <= i < j < |ms| && ms[i] == ms[j] ==> grp[i] < grp[j]
    ensures Distinct(ms)
    ensures forall m :: m in ms <==> m in ss.dict && lo <= ss.dict[m] < hi
    ensures forall i, j :: 0 <= i < j < |ms| ==>
      ms[i] in ss.dict && ms[j] in ss.dict && ss.dict[ms[i]] <= ss.dict[ms[j]]
  {
    var w := Window(Entries(ss.list), lo, hi);
    WindowGroups(ss, lo, hi);
    FlattenRanks(w, ss.dict, lo, hi, groups, ms, grp);
  }

  /** Flattening the member sets of an ascending run of entries, each set
      holding exactly the members of its entry's rank, lists every member
      ranked in [lo, hi) once, in ascending rank. */
  lemma FlattenRanks(w: seq<Entry>, dict: map<string, int>, lo: int, hi: int,
                     groups: seq<set<string>>, ms: seq<string>, grp: seq<nat>)
    requires Ascending(w) && groups == ValuesOf(w)
    requires forall t :: 0 <= t < |w| ==> lo <= w[t].key < hi
    requires forall t, x :: 0 <= t < |w| && x in w[t].values ==> x in dict && dict[x] == w[t].key
    requires forall x :: x in dict && lo <= dict[x] < hi ==> exists t :: 0 <= t < |w| && x in w[t].values
    requires |grp| == |ms|
    requires forall i :: 0 <= i < |ms| ==> grp[i] < |groups| && ms[i] in groups[grp[i]]
    requires forall t, x :: 0 <= t < |groups| && x in groups[t] ==> x in ms
    requires forall i, j :: 0 <= i < j < |ms| ==> grp[i] <= grp[j]
    requires forall i, j :: 0 <= i < j < |ms| && ms[i] == ms[j] ==> grp[i] < grp[j]
    ensures Distinct(ms)
    ensures forall m :: m in ms <==> m in dict && lo <= dict[m] < hi
    ensures forall i, j :: 0 <= i < j < |ms| ==>
      ms[i] in dict && ms[j] in dict && dict[ms[i]] <= dict[ms[j]]
  {
    forall i | 0 <= i < |ms|
      ensures ms[i] in dict && dict[ms[i]] == w[grp[i]].key
    {
      assert ms[i] in w[grp[i]].values;
    }
    forall i, j | 0 <= i < j < |ms|
      ensures ms[i] != ms[j]
    {
      if grp[i] < grp[j] {
        assert w[grp[i]].key < w[grp[j]].key;
      }
    }
    forall i, j | 0 <= i < j < |ms|
      ensures dict[ms[i]] <= dict[ms[j]]
    {
      if grp[i] < grp[j] {
        assert w[grp[i]].key < w[grp[j]].key;
      }
    }
    forall m | m in dict && lo <= dict[m] < hi
      ensures m in ms
    {
      var t :| 0 <= t < |w| && m in w[t].values;
      assert m in groups[t];
    }
  }

  /** Whether member is in the set (sorted_set.go:134-140): on a consistent
      set, whether some rank's node in the skip list holds it. */
  function Exists(ss: SortedSet, member: string): (b: bool)
    ensures Consistent(ss) ==>
      (b <==> exists r :: r in Abs(ss.list) && member in Abs(ss.list)[r])
  {
    if member in ss.dict then
      GroupsHas(ss.dict, ss.dict[member], member);
      true
    else
      assert forall r :: r in Groups(ss.dict) ==> member !in Groups(ss.dict)[r];
      false
  }

  /** The rank of member, or -1 when it is absent (sorted_set.go:143-151):
      on a consistent set, -1 exactly when no node holds it, and otherwise
      the key of the node holding it. */
  function GetRank(ss: SortedSet, member: string): (rank: int)
    ensures Consistent(ss) ==>
      && (rank == -1 <==> forall r :: r in Abs(ss.list) ==> member !in Abs(ss.list)[r])
      && (rank != -1 ==> rank in Abs(ss.list) && member in Abs(ss.list)[rank])
  {
    if member in ss.dict then
      GroupsHas(ss.dict, ss.dict[member], member);
      ss.dict[member]
    else
      assert forall r :: r in Groups(ss.dict) ==> member !in Groups(ss.dict)[r];
      -1
  }
}
