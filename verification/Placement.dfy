/** gitmesh-network: greedy placement of shards on storage peers. */
module Placement {
  import opened Prelude
  import opened Ordering
  import opened Network

  datatype PlacementPolicy = PlacementPolicy(shardCount: nat, minOperators: nat, minRegions: nat, distinctOperators: bool) {
    /** What `PlacementPolicy::new` accepts. */
    predicate Valid() {
      0 < minOperators <= shardCount && 0 < minRegions <= shardCount
    }
  }

  datatype Assignment = Assignment(shardIndex: nat, peerId: string, operatorId: string, region: string)

  type Nodes = seq<NodeDescriptor>

  predicate CanStore(d: NodeDescriptor) {
    StorageRole in d.roles && ShardTransferV0 in d.protocols
  }

  function Eligible(ds: Nodes): (r: Nodes)
    ensures forall d :: d in r <==> d in ds && CanStore(d)
  {
    if ds == [] then []
    else if CanStore(ds[|ds| - 1]) then Eligible(ds[..|ds| - 1]) + [ds[|ds| - 1]]
    else Eligible(ds[..|ds| - 1])
  }

  // ------------------------------------------------------- sort by peer

  /** After the last node whose peer id is not greater. */
  function Insert(sorted: Nodes, d: NodeDescriptor): Nodes {
    if sorted == [] then [d]
    else if StrLe(sorted[|sorted| - 1].peerId, d.peerId) then sorted + [d]
    else Insert(sorted[..|sorted| - 1], d) + [sorted[|sorted| - 1]]
  }

  /** The stable sort. */
  function SortByPeer(ds: Nodes): Nodes {
    if ds == [] then [] else Insert(SortByPeer(ds[..|ds| - 1]), ds[|ds| - 1])
  }

  // -------------------------------------------------------------- greedy

  function Peers(ds: Nodes): set<string> { set d | d in ds :: d.peerId }

  function Operators(ds: Nodes): set<string> { set d | d in ds :: d.operatorId }

  function Regions(ds: Nodes): set<string> { set d | d in ds :: d.region }

  predicate Skips(chosen: Nodes, d: NodeDescriptor, distinctOperators: bool) {
    d.peerId in Peers(chosen) || (distinctOperators && d.operatorId in Operators(chosen))
  }

  function Greedy(cs: Nodes, policy: PlacementPolicy): Nodes {
    if cs == [] then []
    else
      var chosen := Greedy(cs[..|cs| - 1], policy);
      var d := cs[|cs| - 1];
      if |chosen| == policy.shardCount || Skips(chosen, d, policy.distinctOperators) then chosen else chosen + [d]
  }

  function Assignments(chosen: Nodes): (r: seq<Assignment>)
    ensures |r| == |chosen|
    ensures forall i :: 0 <= i < |chosen| ==> r[i] == Assignment(i, chosen[i].peerId, chosen[i].operatorId, chosen[i].region)
  {
    seq(|chosen|, i requires 0 <= i < |chosen| => Assignment(i, chosen[i].peerId, chosen[i].operatorId, chosen[i].region))
  }

  predicate Meets(chosen: Nodes, policy: PlacementPolicy) {
    && |chosen| >= policy.shardCount && |Operators(chosen)| >= policy.minOperators && |Regions(chosen)| >= policy.minRegions
  }

  function Plan(ds: Nodes, policy: PlacementPolicy): Result<seq<Assignment>, NetworkError> {
    var chosen := Greedy(SortByPeer(Eligible(ds)), policy);
    if Meets(chosen, policy) then Ok(Assignments(chosen)) else Err(InsufficientStoragePeers)
  }

  /** `plan_shard_placement`. */
  method PlanShardPlacement(ds: Nodes, policy: PlacementPolicy) returns (r: Result<seq<Assignment>, NetworkError>)
    ensures r == Plan(ds, policy)
  {
    hide CanStore, Insert, Peers, Operators, Regions;
    NoneChosen();
    var candidates := SortByPeer(Eligible(ds));
    var assignments: seq<Assignment> := [];
    var usedPeers: set<string>, usedOperators: set<string>, usedRegions: set<string> := {}, {}, {};
    ghost var chosen: Nodes := [];
    var k := 0;
    while k < |candidates|
      invariant k <= |candidates|
      invariant chosen == Greedy(candidates[..k], policy)
      invariant assignments == Assignments(chosen)
      invariant usedPeers == Peers(chosen) && usedOperators == Operators(chosen) && usedRegions == Regions(chosen)
    {
      if |assignments| == policy.shardCount { break; }
      var d := candidates[k];
      assert candidates[..k + 1][..k] == candidates[..k];
      k := k + 1;
      if d.peerId in usedPeers { continue; }
      if policy.distinctOperators && d.operatorId in usedOperators { continue; }
      ChosenPush(chosen, d);
      usedPeers, usedOperators, usedRegions := usedPeers + {d.peerId}, usedOperators + {d.operatorId}, usedRegions + {d.region};
      assignments := assignments + [Assignment(|assignments|, d.peerId, d.operatorId, d.region)];
      chosen := chosen + [d];
    }
    GreedyStops(candidates, policy, k);
    if |assignments| < policy.shardCount || |usedOperators| < policy.minOperators || |usedRegions| < policy.minRegions {
      return Err(InsufficientStoragePeers);
    }
    return Ok(assignments);
  }

  lemma NoneChosen()
    ensures Peers([]) == {} && Operators([]) == {} && Regions([]) == {}
  {
  }

  lemma ChosenPush(chosen: Nodes, d: NodeDescriptor)
    ensures Peers(chosen + [d]) == Peers(chosen) + {d.peerId}
    ensures Operators(chosen + [d]) == Operators(chosen) + {d.operatorId}
    ensures Regions(chosen + [d]) == Regions(chosen) + {d.region}
  {
    assert forall x :: x in chosen + [d] <==> x in chosen || x == d;
  }

  /** Once the count is reached the rest changes nothing. */
  lemma {:induction false} GreedyStops(cs: Nodes, policy: PlacementPolicy, k: nat)
    requires k <= |cs|
    requires k == |cs| || |Greedy(cs[..k], policy)| == policy.shardCount
    ensures Greedy(cs, policy) == Greedy(cs[..k], policy)
    decreases |cs|
  {
    hide Skips;
    if k < |cs| {
      assert cs[..|cs| - 1][..k] == cs[..k];
      GreedyStops(cs[..|cs| - 1], policy, k);
    } else {
      assert cs[..k] == cs;
    }
  }

  // ------------------------------------------------------------ sorting

  predicate PeerBefore(a: NodeDescriptor, b: NodeDescriptor) {
    a.peerId != b.peerId && StrLe(a.peerId, b.peerId)
  }

  predicate AscendingPeers(ds: Nodes) {
    forall i, j :: 0 <= i < j < |ds| ==> PeerBefore(ds[i], ds[j])
  }

  /** The nodes that can store have distinct peer ids. */
  predicate DistinctPeers(ds: Nodes) {
    forall i, j :: 0 <= i < j < |ds| && CanStore(ds[i]) && CanStore(ds[j]) ==> ds[i].peerId != ds[j].peerId
  }

  lemma {:induction false} InsertSorted(sorted: Nodes, d: NodeDescriptor)
    requires AscendingPeers(sorted) && forall x :: x in sorted ==> x.peerId != d.peerId
    ensures AscendingPeers(Insert(sorted, d))
    ensures forall x :: x in Insert(sorted, d) <==> x in sorted || x == d
  {
    hide StrLe;
    StrOrder();
    if sorted != [] {
      var p, last := sorted[..|sorted| - 1], sorted[|sorted| - 1];
      assert sorted == p + [last];
      assert last in sorted;
      if StrLe(last.peerId, d.peerId) {
        forall i | 0 <= i < |sorted|
          ensures PeerBefore(sorted[i], d)
        {
          assert sorted[i] in sorted;
          assert i < |sorted| - 1 ==> PeerBefore(sorted[i], last);
        }
      } else {
        InsertSorted(p, d);
        var r := Insert(p, d);
        forall i | 0 <= i < |r|
          ensures PeerBefore(r[i], last)
        {
          assert r[i] in r;
          if r[i] != d {
            var k :| 0 <= k < |p| && p[k] == r[i];
            assert sorted[k] == r[i];
          }
        }
      }
    }
  }

  lemma {:induction false} SortedByPeer(ds: Nodes)
    requires forall i, j :: 0 <= i < j < |ds| ==> ds[i].peerId != ds[j].peerId
    ensures AscendingPeers(SortByPeer(ds))
    ensures forall x :: x in SortByPeer(ds) <==> x in ds
  {
    hide Insert, AscendingPeers;
    if ds == [] {
      assert AscendingPeers([]) by { NothingAscends(); }
    } else {
      var p, d := ds[..|ds| - 1], ds[|ds| - 1];
      assert ds == p + [d];
      SortedByPeer(p);
      InsertSorted(SortByPeer(p), d);
    }
  }

  lemma NothingAscends()
    ensures AscendingPeers([])
  {
  }

  lemma {:induction false} EligibleDistinct(ds: Nodes)
    requires DistinctPeers(ds)
    ensures forall i, j :: 0 <= i < j < |Eligible(ds)| ==> Eligible(ds)[i].peerId != Eligible(ds)[j].peerId
  {
    hide CanStore;
    if ds != [] {
      var p, d := ds[..|ds| - 1], ds[|ds| - 1];
      EligibleDistinct(p);
      if CanStore(d) {
        var e := Eligible(p);
        forall i | 0 <= i < |e|
          ensures e[i].peerId != d.peerId
        {
          assert e[i] in e;
          var k :| 0 <= k < |p| && p[k] == e[i];
          assert ds[k] == e[i] && ds[|ds| - 1] == d;
        }
      }
    }
  }

  // ------------------------------------- who is chosen, without any order

  /** A node that can store and, where operators must differ, has the least peer
      id among those of its operator. */
  ghost predicate Represents(ds: Nodes, d: NodeDescriptor, distinctOperators: bool) {
    d in ds && CanStore(d) &&
    (distinctOperators ==> forall e :: e in ds && CanStore(e) && e.operatorId == d.operatorId ==> StrLe(d.peerId, e.peerId))
  }

  ghost function Representatives(ds: Nodes, distinctOperators: bool): (r: set<NodeDescriptor>)
    ensures forall d :: d in r <==> Represents(ds, d, distinctOperators)
  {
    set d | d in ds && Represents(ds, d, distinctOperators)
  }

  ghost function Before(reps: set<NodeDescriptor>, d: NodeDescriptor): set<NodeDescriptor> {
    set e | e in reps && PeerBefore(e, d)
  }

  /** The first `n` representatives by peer id. */
  ghost function First(ds: Nodes, policy: PlacementPolicy): set<NodeDescriptor> {
    set d | d in Representatives(ds, policy.distinctOperators) &&
            |Before(Representatives(ds, policy.distinctOperators), d)| < policy.shardCount
  }

  /** The greedy choice without a limit. */
  function Unlimited(cs: Nodes, distinctOperators: bool): Nodes {
    if cs == [] then []
    else
      var chosen := Unlimited(cs[..|cs| - 1], distinctOperators);
      if Skips(chosen, cs[|cs| - 1], distinctOperators) then chosen else chosen + [cs[|cs| - 1]]
  }

  lemma {:induction false} GreedyIsPrefix(cs: Nodes, policy: PlacementPolicy)
    ensures var all := Unlimited(cs, policy.distinctOperators);
            Greedy(cs, policy) == if |all| <= policy.shardCount then all else all[..policy.shardCount]
  {
    hide Skips;
    if cs != [] { GreedyIsPrefix(cs[..|cs| - 1], policy); }
  }

  lemma {:induction false} UnlimitedExact(cs: Nodes, distinctOperators: bool)
    requires AscendingPeers(cs) && forall d :: d in cs ==> CanStore(d)
    ensures AscendingPeers(Unlimited(cs, distinctOperators))
    ensures forall d :: d in Unlimited(cs, distinctOperators) <==> Represents(cs, d, distinctOperators)
  {
    hide StrLe, CanStore;
    if cs != [] {
      var p, last := cs[..|cs| - 1], cs[|cs| - 1];
      assert cs == p + [last];
      UnlimitedExact(p, distinctOperators);
      var chosen := Unlimited(p, distinctOperators);
      forall d | d in p
        ensures PeerBefore(d, last)
      {
        var k :| 0 <= k < |p| && p[k] == d;
        assert cs[k] == d;
      }
      forall i | 0 <= i < |chosen|
        ensures PeerBefore(chosen[i], last)
      {
        assert chosen[i] in chosen;
      }
      forall d
        ensures Represents(cs, d, distinctOperators) <==>
                Represents(p, d, distinctOperators) || (d == last && !Skips(chosen, last, distinctOperators))
      {
        RepresentsStep(p, last, chosen, d, distinctOperators);
      }
    }
  }

  lemma RepresentsStep(p: Nodes, last: NodeDescriptor, chosen: Nodes, d: NodeDescriptor, distinctOperators: bool)
    requires forall x :: x in p + [last] ==> CanStore(x)
    requires forall x :: x in p ==> PeerBefore(x, last)
    requires forall x :: x in chosen <==> Represents(p, x, distinctOperators)
    ensures Represents(p + [last], d, distinctOperators) <==>
            Represents(p, d, distinctOperators) || (d == last && !Skips(chosen, last, distinctOperators))
  {
    hide StrLe, CanStore;
    StrOrder();
    var cs := p + [last];
    assert forall x :: x in cs <==> x in p || x == last;
    if distinctOperators && exists e :: e in p && e.operatorId == last.operatorId {
      var e :| e in p && e.operatorId == last.operatorId;
      var r := OperatorRepresented(p, e);
      assert r in chosen;
      assert last.operatorId in Operators(chosen);
    }
  }

  /** Each operator's node of least peer id. */
  lemma OperatorRepresented(p: Nodes, e: NodeDescriptor) returns (r: NodeDescriptor)
    requires e in p && forall x :: x in p ==> CanStore(x)
    ensures Represents(p, r, true) && r.operatorId == e.operatorId
  {
    hide StrLe, CanStore;
    StrOrder();
    var ids := set d | d in p && d.operatorId == e.operatorId :: d.peerId;
    assert e.peerId in ids;
    var least := Least(ids, StrLe);
    r :| r in p && r.operatorId == e.operatorId && r.peerId == least;
    forall x | x in p && x.operatorId == r.operatorId
      ensures StrLe(r.peerId, x.peerId)
    {
      assert x.peerId in ids;
    }
  }

  function Members(ds: Nodes): set<NodeDescriptor> { set d | d in ds }

  lemma {:induction false} MembersSize(ds: Nodes)
    requires AscendingPeers(ds)
    ensures |Members(ds)| == |ds|
  {
    hide StrLe;
    if ds == [] {
      assert Members(ds) == {};
    } else {
      var p, last := ds[..|ds| - 1], ds[|ds| - 1];
      MembersSize(p);
      assert ds == p + [last];
      assert forall i :: 0 <= i < |p| ==> p[i] != last;
      assert Members(ds) == Members(p) + {last};
    }
  }

  lemma BeforeIsPrefix(all: Nodes, k: nat)
    requires AscendingPeers(all) && k < |all|
    ensures |Before(Members(all), all[k])| == k
  {
    hide StrLe;
    StrOrder();
    assert forall j :: k < j < |all| ==> PeerBefore(all[k], all[j]);
    forall d
      ensures d in Before(Members(all), all[k]) <==> d in Members(all[..k])
    {
      if d in Before(Members(all), all[k]) {
        var i :| 0 <= i < |all| && all[i] == d;
        assert i < k;
        assert all[..k][i] == d;
      }
      if d in Members(all[..k]) {
        var i :| 0 <= i < k && all[i] == d;
      }
    }
    assert Before(Members(all), all[k]) == Members(all[..k]);
    MembersSize(all[..k]);
  }

  lemma PrefixIsFirst(ds: Nodes, policy: PlacementPolicy, all: Nodes)
    requires AscendingPeers(all) && forall d :: d in all <==> Represents(ds, d, policy.distinctOperators)
    ensures |all| == |Representatives(ds, policy.distinctOperators)|
    ensures forall d :: d in (if |all| <= policy.shardCount then all else all[..policy.shardCount]) <==> d in First(ds, policy)
  {
    hide AscendingPeers, Represents;
    var reps := Representatives(ds, policy.distinctOperators);
    MembersSize(all);
    assert reps == Members(all);
    var taken := if |all| <= policy.shardCount then all else all[..policy.shardCount];
    forall d
      ensures d in taken <==> d in First(ds, policy)
    {
      if d in taken {
        var k :| 0 <= k < |taken| && taken[k] == d;
        BeforeIsPrefix(all, k);
      }
      if d in First(ds, policy) {
        var k :| 0 <= k < |all| && all[k] == d;
        BeforeIsPrefix(all, k);
        assert taken[k] == d;
      }
    }
  }

  lemma RepresentsEligible(ds: Nodes, cs: Nodes, d: NodeDescriptor, distinctOperators: bool)
    requires forall x :: x in cs <==> x in ds && CanStore(x)
    ensures Represents(cs, d, distinctOperators) <==> Represents(ds, d, distinctOperators)
  {
  }

  /** The nodes chosen are the first representatives by peer id, in that order. */
  lemma GreedyExact(ds: Nodes, policy: PlacementPolicy)
    requires DistinctPeers(ds)
    ensures var chosen := Greedy(SortByPeer(Eligible(ds)), policy);
            && AscendingPeers(chosen)
            && (forall d :: d in chosen <==> d in First(ds, policy))
            && |chosen| == if |Representatives(ds, policy.distinctOperators)| <= policy.shardCount
                           then |Representatives(ds, policy.distinctOperators)| else policy.shardCount
  {
    hide Greedy, SortByPeer, Represents, First, Unlimited, PeerBefore, CanStore;
    EligibleDistinct(ds);
    SortedByPeer(Eligible(ds));
    var cs := SortByPeer(Eligible(ds));
    UnlimitedExact(cs, policy.distinctOperators);
    GreedyIsPrefix(cs, policy);
    forall d
      ensures Represents(cs, d, policy.distinctOperators) <==> Represents(ds, d, policy.distinctOperators)
    {
      RepresentsEligible(ds, cs, d, policy.distinctOperators);
    }
    PrefixIsFirst(ds, policy, Unlimited(cs, policy.distinctOperators));
  }

  // --------------------------------------------------------- the theorems

  ghost function FirstOperators(ds: Nodes, policy: PlacementPolicy): set<string> {
    set d | d in First(ds, policy) :: d.operatorId
  }

  ghost function FirstRegions(ds: Nodes, policy: PlacementPolicy): set<string> {
    set d | d in First(ds, policy) :: d.region
  }

  /** For any policy: a plan exists exactly when there are enough representatives
      and the first of them span enough operators and regions. */
  lemma PlanExact(ds: Nodes, policy: PlacementPolicy)
    requires DistinctPeers(ds)
    ensures Plan(ds, policy).Ok? <==>
            && |Representatives(ds, policy.distinctOperators)| >= policy.shardCount
            && |FirstOperators(ds, policy)| >= policy.minOperators
            && |FirstRegions(ds, policy)| >= policy.minRegions
  {
    hide Greedy, SortByPeer, First, Representatives, AscendingPeers;
    GreedyExact(ds, policy);
    var chosen := Greedy(SortByPeer(Eligible(ds)), policy);
    assert Operators(chosen) == FirstOperators(ds, policy);
    assert Regions(chosen) == FirstRegions(ds, policy);
  }

  /** Indices 0..n-1, distinct peers, distinct operators where required, and both minima. */
  lemma PlanSound(ds: Nodes, policy: PlacementPolicy)
    requires Plan(ds, policy).Ok?
    ensures var plan := Plan(ds, policy).value;
            && |plan| == policy.shardCount
            && (forall i :: 0 <= i < |plan| ==> plan[i].shardIndex == i)
            && (forall i, j :: 0 <= i < j < |plan| ==> plan[i].peerId != plan[j].peerId)
            && (policy.distinctOperators ==> forall i, j :: 0 <= i < j < |plan| ==> plan[i].operatorId != plan[j].operatorId)
            && (forall a :: a in plan ==> exists d :: d in ds && StorageRole in d.roles && ShardTransferV0 in d.protocols &&
                                                      a == Assignment(a.shardIndex, d.peerId, d.operatorId, d.region))
            && |set a | a in plan :: a.operatorId| >= policy.minOperators
            && |set a | a in plan :: a.region| >= policy.minRegions
  {
    hide Greedy, SortByPeer, Eligible;
    var cs := SortByPeer(Eligible(ds));
    var chosen := Greedy(cs, policy);
    GreedySound(cs, policy);
    SortKeepsMembers(Eligible(ds));
    EligibleMembers(ds);
    var plan := Assignments(chosen);
    forall a | a in plan
      ensures exists d :: d in ds && StorageRole in d.roles && ShardTransferV0 in d.protocols &&
                          a == Assignment(a.shardIndex, d.peerId, d.operatorId, d.region)
    {
      var i :| 0 <= i < |plan| && plan[i] == a;
      assert chosen[i] in chosen;
    }
    PlanSets(chosen);
  }

  lemma PlanSets(chosen: Nodes)
    ensures (set a | a in Assignments(chosen) :: a.operatorId) == Operators(chosen)
    ensures (set a | a in Assignments(chosen) :: a.region) == Regions(chosen)
  {
    var plan := Assignments(chosen);
    forall d | d in chosen
      ensures exists a :: a in plan && a.operatorId == d.operatorId && a.region == d.region
    {
      var i :| 0 <= i < |chosen| && chosen[i] == d;
      assert plan[i] in plan;
    }
  }

  lemma EligibleMembers(ds: Nodes)
    ensures forall d :: d in Eligible(ds) <==> d in ds && CanStore(d)
  {
  }

  lemma {:induction false} InsertMembers(sorted: Nodes, d: NodeDescriptor)
    ensures forall x :: x in Insert(sorted, d) <==> x in sorted || x == d
  {
    hide StrLe;
    if sorted != [] {
      var p, last := sorted[..|sorted| - 1], sorted[|sorted| - 1];
      assert sorted == p + [last];
      InsertMembers(p, d);
    }
  }

  lemma {:induction false} SortKeepsMembers(ds: Nodes)
    ensures forall x :: x in SortByPeer(ds) <==> x in ds
  {
    hide Insert;
    if ds != [] {
      var p, d := ds[..|ds| - 1], ds[|ds| - 1];
      assert ds == p + [d];
      SortKeepsMembers(p);
      InsertMembers(SortByPeer(p), d);
    }
  }

  lemma {:induction false} GreedySound(cs: Nodes, policy: PlacementPolicy)
    ensures var chosen := Greedy(cs, policy);
            && |chosen| <= policy.shardCount
            && (forall d :: d in chosen ==> d in cs)
            && (forall i, j :: 0 <= i < j < |chosen| ==> chosen[i].peerId != chosen[j].peerId)
            && (policy.distinctOperators ==> forall i, j :: 0 <= i < j < |chosen| ==> chosen[i].operatorId != chosen[j].operatorId)
  {
    if cs != [] {
      GreedySound(cs[..|cs| - 1], policy);
      var chosen := Greedy(cs[..|cs| - 1], policy);
      assert forall i :: 0 <= i < |chosen| ==> chosen[i] in chosen;
    }
  }

  // ---------------------------------------------------- one region suffices

  lemma {:induction false} DistinctOperatorsSize(chosen: Nodes)
    requires forall i, j :: 0 <= i < j < |chosen| ==> chosen[i].operatorId != chosen[j].operatorId
    ensures |Operators(chosen)| == |chosen|
  {
    if chosen == [] {
      assert Operators(chosen) == {};
    } else {
      var p, last := chosen[..|chosen| - 1], chosen[|chosen| - 1];
      assert chosen == p + [last];
      DistinctOperatorsSize(p);
      ChosenPush(p, last);
      assert last.operatorId !in Operators(p);
    }
  }

  /** Every operator that can store is represented among the unlimited choice. */
  lemma UnlimitedOperators(cs: Nodes)
    requires AscendingPeers(cs) && forall d :: d in cs ==> CanStore(d)
    ensures |Unlimited(cs, true)| == |Operators(cs)|
  {
    hide StrLe, CanStore;
    UnlimitedExact(cs, true);
    var all := Unlimited(cs, true);
    UnlimitedDistinct(cs);
    DistinctOperatorsSize(all);
    forall d | d in cs
      ensures d.operatorId in Operators(all)
    {
      var r := OperatorRepresented(cs, d);
      assert r in all;
    }
    assert Operators(all) == Operators(cs);
  }

  lemma {:induction false} UnlimitedDistinct(cs: Nodes)
    ensures forall i, j :: 0 <= i < j < |Unlimited(cs, true)| ==> Unlimited(cs, true)[i].operatorId != Unlimited(cs, true)[j].operatorId
  {
    if cs != [] {
      UnlimitedDistinct(cs[..|cs| - 1]);
      var chosen := Unlimited(cs[..|cs| - 1], true);
      assert forall i :: 0 <= i < |chosen| ==> chosen[i] in chosen;
    }
  }

  /** With one region and distinct operators required, planning succeeds exactly
      when the eligible nodes have at least `shardCount` operators. */
  lemma OneRegionComplete(ds: Nodes, policy: PlacementPolicy)
    requires DistinctPeers(ds) && policy.Valid() && policy.distinctOperators && policy.minRegions == 1
    ensures Plan(ds, policy).Ok? <==>
            |set d | d in ds && StorageRole in d.roles && ShardTransferV0 in d.protocols :: d.operatorId| >= policy.shardCount
  {
    hide Greedy, SortByPeer, PeerBefore, Unlimited;
    EligibleDistinct(ds);
    SortedByPeer(Eligible(ds));
    var cs := SortByPeer(Eligible(ds));
    UnlimitedOperators(cs);
    GreedyIsPrefix(cs, policy);
    GreedySound(cs, policy);
    var chosen := Greedy(cs, policy);
    DistinctOperatorsSize(chosen);
    assert Operators(cs) == set d | d in ds && StorageRole in d.roles && ShardTransferV0 in d.protocols :: d.operatorId;
    if |chosen| == policy.shardCount {
      assert chosen[0].region in Regions(chosen);
      SubsetSize({chosen[0].region}, Regions(chosen));
    }
  }

  // --------------------------------------------------- order is irrelevant

  lemma {:induction false} AscendingPeersUnique(a: Nodes, b: Nodes)
    requires AscendingPeers(a) && AscendingPeers(b) && forall x :: x in a <==> x in b
    ensures a == b
    decreases |a|
  {
    hide StrLe;
    StrOrder();
    if a == [] {
      assert forall k :: 0 <= k < |b| ==> b[k] in b;
    } else {
      assert a[0] in b && b[0] in a;
      var i :| 0 <= i < |b| && b[i] == a[0];
      var j :| 0 <= j < |a| && a[j] == b[0];
      assert forall k :: 0 < k < |a| ==> PeerBefore(a[0], a[k]);
      assert forall k :: 0 < k < |b| ==> PeerBefore(b[0], b[k]);
      assert i == 0;
      var x := a[0];
      assert forall k :: 0 < k < |a| ==> a[k] != x;
      assert forall k :: 0 < k < |b| ==> b[k] != x;
      assert a == [x] + a[1..] && b == [x] + b[1..];
      forall y
        ensures y in a[1..] <==> y in b[1..]
      {
        assert y in a <==> y == x || y in a[1..];
        assert y in b <==> y == x || y in b[1..];
      }
      AscendingPeersUnique(a[1..], b[1..]);
    }
  }

  /** The plan depends on which nodes there are, not on the order they are listed in. */
  lemma OrderIrrelevant(ds: Nodes, fs: Nodes, policy: PlacementPolicy)
    requires DistinctPeers(ds) && DistinctPeers(fs) && forall d :: d in ds <==> d in fs
    ensures Plan(ds, policy) == Plan(fs, policy)
  {
    hide Greedy, SortByPeer, AscendingPeers, Meets;
    EligibleDistinct(ds);
    EligibleDistinct(fs);
    SortedByPeer(Eligible(ds));
    SortedByPeer(Eligible(fs));
    AscendingPeersUnique(SortByPeer(Eligible(ds)), SortByPeer(Eligible(fs)));
  }

  // --------------------------------------------- several regions can fail

  function Node(peer: string, region: string): NodeDescriptor {
    NodeDescriptor(peer, peer, {StorageRole}, region, {ShardTransferV0})
  }

  /** The greedy choice never revisits: two nodes of one region come first by peer
      id, so a third that would complete a two-region plan is not looked at. */
  lemma TwoRegionsMissed()
    ensures var ds := [Node("a", "east"), Node("b", "east"), Node("c", "west")];
            var policy := PlacementPolicy(2, 2, 2, true);
            && policy.Valid() && DistinctPeers(ds)
            && Plan(ds, policy) == Err(InsufficientStoragePeers)
            && Plan([ds[0], ds[2]], policy).Ok?
  {
    hide Greedy, SortByPeer, Eligible, Operators, Regions;
    var a, b, c := Node("a", "east"), Node("b", "east"), Node("c", "west");
    var policy := PlacementPolicy(2, 2, 2, true);
    EligibleUnchanged([a, b, c]);
    EligibleUnchanged([a, c]);
    SortedUnchanged([a, b, c]);
    SortedUnchanged([a, c]);
    SmallGreedy(a, b, policy);
    SmallGreedy(a, c, policy);
    assert [a, b, c][..2] == [a, b];
    GreedyStops([a, b, c], policy, 2);
    PairSets(a, b);
    PairSets(a, c);
    assert {"east", "east"} == {"east"};
  }

  lemma PairSets(a: NodeDescriptor, b: NodeDescriptor)
    ensures Operators([a, b]) == {a.operatorId, b.operatorId}
    ensures Regions([a, b]) == {a.region, b.region}
  {
    assert forall x :: x in [a, b] <==> x == a || x == b;
  }

  lemma {:induction false} SortedUnchanged(ds: Nodes)
    requires AscendingPeers(ds)
    ensures SortByPeer(ds) == ds
  {
    hide StrLe;
    if ds != [] {
      var p, d := ds[..|ds| - 1], ds[|ds| - 1];
      assert ds == p + [d];
      SortedUnchanged(p);
      assert p != [] ==> PeerBefore(p[|p| - 1], d);
    }
  }

  lemma {:induction false} EligibleUnchanged(ds: Nodes)
    requires forall d :: d in ds ==> CanStore(d)
    ensures Eligible(ds) == ds
  {
    hide CanStore;
    if ds != [] {
      EligibleUnchanged(ds[..|ds| - 1]);
    }
  }

  lemma SmallGreedy(a: NodeDescriptor, b: NodeDescriptor, policy: PlacementPolicy)
    requires policy.shardCount == 2 && a.peerId != b.peerId && a.operatorId != b.operatorId
    ensures Greedy([a, b], policy) == [a, b]
  {
    assert [a, b][..1] == [a] && [a][..0] == [];
    assert Greedy([a], policy) == [a];
  }
}
