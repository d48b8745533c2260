/** When a transport repair succeeds: among reachable storage peers, exactly when
    enough shards are still served. */
module TransportLiveness {
  import opened Prelude
  import opened Core
  import opened Ordering
  import opened Erasure
  import opened Network
  import Directory
  import opened Peer
  import opened TransportRepair
  import opened TransportSafety

  /** The peer is there and may hold shards. */
  predicate StoragePeer(swarm: Swarm, id: string) {
    id in swarm && swarm[id].descriptor.Valid() && StorageRole in swarm[id].descriptor.roles && ShardTransferV0 in swarm[id].descriptor.protocols
  }

  /** What a peer serves carries the shard counts of the policy, which the
      identifier of a shard does not pin. */
  predicate PolicyCounts(lib: Library, swarm: Swarm, client: string, p: ProviderRecord, policy: StoragePolicy) {
    Serves(lib, swarm, client, p.peerId, p.shard) ==>
      var e := swarm[p.peerId].shards[p.shard.shardCid]; e.shardCount == policy.Total() && e.dataShards == policy.dataShards
  }

  predicate Reachable(swarm: Swarm, client: string, providers: seq<ProviderRecord>) {
    client in swarm && forall k :: 0 <= k < |providers| ==> StoragePeer(swarm, providers[k].peerId) && ValidRegion(providers[k].region)
  }

  /** Every listed peer is a reachable storage peer, and no directory is published to. */
  ghost predicate Healthy(lib: Library, q: RepairRequest, swarm: Swarm) {
    && q.directoryPeer.None? && Reachable(swarm, q.client, q.providers)
    && forall k :: 0 <= k < |q.providers| ==> PolicyCounts(lib, swarm, q.client, q.providers[k], q.policy)
  }

  predicate SameDescriptors(a: Swarm, b: Swarm) {
    a.Keys == b.Keys && forall id :: id in a ==> b[id].descriptor == a[id].descriptor
  }

  lemma ReachableKept(a: Swarm, b: Swarm, client: string, providers: seq<ProviderRecord>)
    requires SameDescriptors(a, b) && Reachable(a, client, providers)
    ensures Reachable(b, client, providers)
  {
    assert forall id :: id in a <==> id in a.Keys;
    assert forall id :: id in b <==> id in b.Keys;
  }

  // --------------------------------------------------------------- auditing

  lemma ProbeAnswers(lib: Library, swarm: Swarm, client: string, p: ProviderRecord)
    requires client in swarm && StoragePeer(swarm, p.peerId)
    ensures Probe(lib, swarm, client, p).Ok?
  {
    hide VerifyEnvelope;
  }

  lemma {:induction false} TallyAnswers(lib: Library, swarm: Swarm, client: string, segment: Cid, providers: seq<ProviderRecord>, now: nat)
    requires forall k :: 0 <= k < |providers| ==> Probe(lib, swarm, client, providers[k]).Ok?
    ensures TallyAll(lib, swarm, client, segment, providers, now).Ok?
  {
    hide Probe, Audited;
    if providers != [] {
      TallyAnswers(lib, swarm, client, segment, providers[..|providers| - 1], now);
    }
  }

  // --------------------------------------------------------------- fetching

  /** A served shard is fetched whole and passes `verify_shard`. */
  lemma FetchServed(lib: Library, swarm: Swarm, client: string, p: ProviderRecord, s: Segment, policy: StoragePolicy)
    requires Serves(lib, swarm, client, p.peerId, p.shard) && PolicyCounts(lib, swarm, client, p, policy)
    requires p.shard.segmentCid == s.cid && p.shard.shardIndex < policy.Total()
    ensures FetchOne(lib, swarm, client, p).Ok?
    ensures FetchOne(lib, swarm, client, p).value.index == p.shard.shardIndex && VerifyShard(lib.hash, s, policy, FetchOne(lib, swarm, client, p).value)
  {
    hide ShardCid;
  }

  function StoredIndices(stored: seq<Shard>): set<nat> { set x | x in stored :: x.index }

  predicate AllFetchable(lib: Library, swarm: Swarm, client: string, providers: seq<ProviderRecord>, s: Segment, policy: StoragePolicy) {
    forall p :: p in providers ==>
      && Serves(lib, swarm, client, p.peerId, p.shard) && PolicyCounts(lib, swarm, client, p, policy)
      && p.shard.segmentCid == s.cid && p.shard.shardIndex < policy.Total()
  }

  lemma {:induction false} FetchAllServed(lib: Library, swarm: Swarm, client: string, providers: seq<ProviderRecord>, now: nat,
                                          s: Segment, policy: StoragePolicy)
    requires AllFetchable(lib, swarm, client, providers, s, policy) && forall p :: p in providers ==> p.ActiveAt(now)
    ensures FetchAll(lib, swarm, client, providers, now).Ok?
    ensures var stored := FetchAll(lib, swarm, client, providers, now).value;
            && (forall x :: x in stored ==> VerifyShard(lib.hash, s, policy, x))
            && (forall p :: p in providers ==> p.shard.shardIndex in StoredIndices(stored))
  {
    hide FetchOne, VerifyShard, Serves, PolicyCounts;
    if providers != [] {
      var before, last := providers[..|providers| - 1], providers[|providers| - 1];
      assert providers == before + [last] && last in providers;
      FetchAllServed(lib, swarm, client, before, now, s, policy);
      FetchServed(lib, swarm, client, last, s, policy);
      var stored, more := FetchAll(lib, swarm, client, before, now).value, FetchOne(lib, swarm, client, last).value;
      assert StoredIndices(stored + [more]) == StoredIndices(stored) + {more.index};
    }
  }

  lemma {:induction false} SlotsHold(hash: Hash, s: Segment, p: StoragePolicy, stored: seq<Shard>)
    requires forall x :: x in stored ==> VerifyShard(hash, s, p, x)
    ensures StoredIndices(stored) <= Present(VerifiedSlots(hash, s, p, stored))
    ensures |StoredIndices(stored)| <= |stored|
  {
    hide VerifyShard;
    if stored != [] {
      var before, last := stored[..|stored| - 1], stored[|stored| - 1];
      assert stored == before + [last] && last in stored;
      SlotsHold(hash, s, p, before);
      VerifiedInRange(hash, s, p, last);
      assert StoredIndices(stored) == StoredIndices(before) + {last.index};
      SubsetSize(StoredIndices(stored), StoredIndices(before) + {last.index});
    } else {
      assert StoredIndices(stored) == {};
    }
  }

  lemma ReconstructSucceeds(hash: Hash, rs: ReedSolomon, s: Segment, p: StoragePolicy, stored: seq<Shard>)
    requires LawfulCode(rs, s, p) && BytesInPlace(Codeword(rs, s, p).value, stored)
    requires (forall x :: x in stored ==> VerifyShard(hash, s, p, x)) && |StoredIndices(stored)| >= p.dataShards
    ensures ReconstructAll(hash, rs, s, p, stored).Ok?
  {
    hide Codeword, Mds, DivCeil, VerifyShard, VerifiedSlots, Present, PartOf, BytesInPlace, RebuiltShards;
    CodewordFacts(rs, s, p);
    SlotsHold(hash, s, p, stored);
    SlotsInPlace(hash, s, p, Codeword(rs, s, p).value, stored);
    SubsetSize(StoredIndices(stored), Present(VerifiedSlots(hash, s, p, stored)));
  }

  lemma RebuildSucceeds(lib: Library, rs: ReedSolomon, q: RepairRequest, swarm: Swarm, verified: set<nat>)
    requires Setting(lib, rs, q, swarm) && Healthy(lib, q, swarm)
    requires verified == ServedIndices(lib, swarm, q.client, q.providers) && |verified| >= q.policy.dataShards
    ensures Rebuild(lib, rs, q, swarm, verified).Ok?
  {
    hide Codeword, NoCollisions, FetchAll, ReconstructAll, LawfulCode, BytesInPlace, VerifyShard, StoredIndices, Serves, PolicyCounts, ShardCid;
    LawfulCodeword(rs, q.segment, q.policy);
    var word := Codeword(rs, q.segment, q.policy).value;
    var providers := VerifiedProviders(q.providers, verified);
    VerifiedSublist(q.providers, verified, lib.hash, q.segment.cid, word);
    VerifiedFetchable(lib, q, swarm, verified, word);
    FetchAllServed(lib, swarm, q.client, providers, q.now, q.segment, q.policy);
    FetchedInPlace(lib, swarm, q.client, providers, q.now, q.segment.cid, word);
    var stored := FetchAll(lib, swarm, q.client, providers, q.now).value;
    forall i | i in verified
      ensures i in StoredIndices(stored)
    {
      var k :| 0 <= k < |q.providers| && q.providers[k].shard.shardIndex == i;
      assert q.providers[k] in providers;
    }
    SubsetSize(verified, StoredIndices(stored));
    ReconstructSucceeds(lib.hash, rs, q.segment, q.policy, stored);
  }

  lemma VerifiedFetchable(lib: Library, q: RepairRequest, swarm: Swarm, verified: set<nat>, word: seq<Bytes>)
    requires GenuineProviders(lib.hash, q.segment.cid, word, q.providers) && |word| == q.policy.Total()
    requires OnePerIndex(q.providers) && AllActive(q.providers, q.now) && Healthy(lib, q, swarm)
    requires verified == ServedIndices(lib, swarm, q.client, q.providers)
    ensures var providers := VerifiedProviders(q.providers, verified);
            AllFetchable(lib, swarm, q.client, providers, q.segment, q.policy) && forall p :: p in providers ==> p.ActiveAt(q.now)
  {
    hide Serves, PolicyCounts, ShardCid;
    forall p | p in VerifiedProviders(q.providers, verified)
      ensures Serves(lib, swarm, q.client, p.peerId, p.shard) && PolicyCounts(lib, swarm, q.client, p, q.policy)
      ensures p.shard.segmentCid == q.segment.cid && p.shard.shardIndex < q.policy.Total() && p.ActiveAt(q.now)
    {
      var k :| 0 <= k < |q.providers| && q.providers[k] == p;
      var m :| 0 <= m < |q.providers| && Serves(lib, swarm, q.client, q.providers[m].peerId, q.providers[m].shard)
               && q.providers[m].shard.shardIndex == p.shard.shardIndex;
      assert m == k;
    }
  }

  // ---------------------------------------------------------------- storing

  lemma PutFrame(lib: Library, swarm: Swarm, client: string, to: string, e: Envelope, leaseEpoch: nat, expiresAt: nat)
    ensures SameDescriptors(swarm, SwarmRequest(lib, swarm, client, to, PutShard(e, leaseEpoch, expiresAt)).1)
  {
    hide VerifyEnvelope, Directory.Published, OwnRecord;
  }

  lemma DescriptorsTransitive(a: Swarm, b: Swarm, c: Swarm)
    requires SameDescriptors(a, b) && SameDescriptors(b, c)
    ensures SameDescriptors(a, c)
  {
    assert forall id :: id in a <==> id in a.Keys;
    assert forall id :: id in b <==> id in b.Keys;
  }

  lemma StoreFrame(lib: Library, swarm: Swarm, client: string, p: ProviderRecord, shard: Shard, leaseEpoch: nat, expiresAt: nat)
    ensures SameDescriptors(swarm, StoreRepaired(lib, swarm, client, p, shard, leaseEpoch, expiresAt).1)
  {
    hide SwarmRequest, StoredRecord;
    var envelope := ToEnvelope(lib.hash, shard);
    if envelope.Ok? { PutFrame(lib, swarm, client, p.peerId, envelope.value, leaseEpoch, expiresAt); }
  }

  /** A reachable storage peer takes any genuine shard. */
  lemma StoreSucceeds(lib: Library, swarm: Swarm, client: string, p: ProviderRecord, s: Segment, policy: StoragePolicy, j: nat, bytes: Bytes,
                      leaseEpoch: nat, expiresAt: nat)
    requires client in swarm && StoragePeer(swarm, p.peerId) && ValidRegion(p.region)
    requires policy.dataShards > 0 && j < policy.Total() && expiresAt > 0
    ensures StoreRepaired(lib, swarm, client, p, MakeShard(lib.hash, s, policy, j, bytes), leaseEpoch, expiresAt).0.Ok?
  {
    hide ShardCid, Respond, ValidRegion, ValidPeerId, ValidOperatorId;
    var envelope := ToEnvelope(lib.hash, MakeShard(lib.hash, s, policy, j, bytes)).value;
    assert VerifyEnvelope(lib.hash, envelope).Ok?;
    PutExact(lib, swarm[p.peerId], envelope, leaseEpoch, expiresAt);
  }

  lemma StoreSomewhereSucceeds(lib: Library, q: RepairRequest, swarm: Swarm, after: seq<ProviderRecord>, target: ProviderRecord,
                               isMissing: bool, j: nat, bytes: Bytes)
    requires q.client in swarm && StoragePeer(swarm, target.peerId) && ValidRegion(target.region)
    requires q.policy.dataShards > 0 && j < q.policy.Total() && q.expiresAt > 0 && target.peerId in PeersOf(after)
    ensures var (record, swarm1) := StoreSomewhere(lib, q, swarm, after, target, isMissing, MakeShard(lib.hash, q.segment, q.policy, j, bytes));
            record.Ok? && SameDescriptors(swarm, swarm1)
  {
    hide StoreRepaired, SameDescriptors, StoragePeer, MakeShard, ValidRegion;
    var shard := MakeShard(lib.hash, q.segment, q.policy, j, bytes);
    var preferred := if isMissing then ChooseRepairTarget(after, target, q.replacements) else target;
    var (first, swarm1) := StoreRepaired(lib, swarm, q.client, preferred, shard, q.leaseEpoch, q.expiresAt);
    StoreFrame(lib, swarm, q.client, preferred, shard, q.leaseEpoch, q.expiresAt);
    if first.Err? {
      StoreErrors(lib, swarm, q.client, preferred, shard, q.leaseEpoch, q.expiresAt);
      if preferred.peerId == target.peerId {
        SamePeerSameTarget(lib, q, swarm, after, target, isMissing, j, bytes);
      } else {
        PeerKept(swarm, swarm1, q.client, target.peerId);
        StoreSucceeds(lib, swarm1, q.client, target, q.segment, q.policy, j, bytes, q.leaseEpoch, q.expiresAt);
        StoreFrame(lib, swarm1, q.client, target, shard, q.leaseEpoch, q.expiresAt);
        DescriptorsTransitive(swarm, swarm1, StoreRepaired(lib, swarm1, q.client, target, shard, q.leaseEpoch, q.expiresAt).1);
      }
    }
  }

  /** While the target's peer is in use, no replacement shares it. */
  lemma SamePeerSameTarget(lib: Library, q: RepairRequest, swarm: Swarm, after: seq<ProviderRecord>, target: ProviderRecord,
                           isMissing: bool, j: nat, bytes: Bytes)
    requires q.client in swarm && StoragePeer(swarm, target.peerId) && ValidRegion(target.region) && target.peerId in PeersOf(after)
    requires q.policy.dataShards > 0 && j < q.policy.Total() && q.expiresAt > 0
    requires (if isMissing then ChooseRepairTarget(after, target, q.replacements) else target).peerId == target.peerId
    ensures StoreRepaired(lib, swarm, q.client, if isMissing then ChooseRepairTarget(after, target, q.replacements) else target,
                          MakeShard(lib.hash, q.segment, q.policy, j, bytes), q.leaseEpoch, q.expiresAt).0.Ok?
  {
    hide StoreRepaired, StoragePeer, ValidRegion, MakeShard;
    StoreSucceeds(lib, swarm, q.client, target, q.segment, q.policy, j, bytes, q.leaseEpoch, q.expiresAt);
  }

  lemma PeerKept(a: Swarm, b: Swarm, client: string, id: string)
    requires SameDescriptors(a, b) && client in a && StoragePeer(a, id)
    ensures client in b && StoragePeer(b, id)
  {
    assert client in a.Keys && id in a.Keys;
  }

  lemma StoreErrors(lib: Library, swarm: Swarm, client: string, p: ProviderRecord, shard: Shard, leaseEpoch: nat, expiresAt: nat)
    requires StoreRepaired(lib, swarm, client, p, shard, leaseEpoch, expiresAt).0.Err?
    ensures StoreRepaired(lib, swarm, client, p, shard, leaseEpoch, expiresAt).0 == Err(NetworkFailed)
  {
    hide SwarmRequest;
  }

  // ------------------------------------------------------------- the loop

  lemma LoopSucceeds(lib: Library, q: RepairRequest, word: seq<Bytes>, rebuilt: seq<Shard>, missing: set<nat>, targets: seq<nat>, swarm: Swarm)
    requires DistinctRefs(lib.hash, q.segment.cid, word) && GenuineShards(lib.hash, q.segment, q.policy, word, rebuilt)
    requires OnePerIndex(q.providers) && GenuineProviders(lib.hash, q.segment.cid, word, q.providers)
    requires Distinct(targets) && Listed(q.providers, targets) && Reachable(swarm, q.client, q.providers)
    requires |word| == q.policy.Total() && q.policy.dataShards > 0 && q.expiresAt > 0
    ensures RepairLoop(lib, q, rebuilt, missing, targets, swarm).0.Ok?
    ensures SameDescriptors(swarm, RepairLoop(lib, q, rebuilt, missing, targets, swarm).1)
    decreases |targets|
  {
    hide RepairOne, DistinctRefs, GenuineShards, GenuineProviders, OnePerIndex, Distinct, Listed, Reachable;
    if targets != [] {
      var p, index := targets[..|targets| - 1], targets[|targets| - 1];
      assert targets == p + [index];
      SplitTargets(q.providers, p, index);
      LoopSucceeds(lib, q, word, rebuilt, missing, p, swarm);
      LoopFacts(lib, q, word, rebuilt, missing, p, swarm);
      var (before, swarm1) := RepairLoop(lib, q, rebuilt, missing, p, swarm);
      ReachableKept(swarm, swarm1, q.client, q.providers);
      OneSucceeds(lib, q, word, rebuilt, missing, p, index, before.value, swarm1);
      DescriptorsTransitive(swarm, swarm1, RepairOne(lib, q, rebuilt, missing, before.value, index, swarm1).1);
    }
  }

  lemma OneSucceeds(lib: Library, q: RepairRequest, word: seq<Bytes>, rebuilt: seq<Shard>, missing: set<nat>, done: seq<nat>, index: nat,
                    st: Progress, swarm: Swarm)
    requires GenuineShards(lib.hash, q.segment, q.policy, word, rebuilt) && |word| == q.policy.Total()
    requires OnePerIndex(q.providers) && GenuineProviders(lib.hash, q.segment.cid, word, q.providers)
    requires RepairedListing(lib, q, done, st.providers, swarm) && index !in done && Listed(q.providers, [index])
    requires Reachable(swarm, q.client, q.providers) && q.policy.dataShards > 0 && q.expiresAt > 0
    ensures RepairOne(lib, q, rebuilt, missing, st, index, swarm).0.Ok?
    ensures SameDescriptors(swarm, RepairOne(lib, q, rebuilt, missing, st, index, swarm).1)
  {
    hide StoreSomewhere, MakeShard, Relist, ShardCid, Serves, SameDescriptors, StoragePeer, ValidRegion;
    assert index in [index];
    var k :| 0 <= k < |q.providers| && q.providers[k].shard.shardIndex == index;
    ByIndexAt(q.providers, k);
    assert st.providers[k] == q.providers[k];
    assert q.providers[k].peerId in PeersOf(st.providers);
    StoreSomewhereSucceeds(lib, q, swarm, st.providers, q.providers[k], index in missing, index, word[index]);
  }

  // ---------------------------------------------------------- the theorem

  lemma AuditAnswers(lib: Library, q: RepairRequest, swarm: Swarm, providers: seq<ProviderRecord>)
    requires Reachable(swarm, q.client, providers) || ServesAll(lib, swarm, q.client, providers)
    ensures AuditFor(lib, q, swarm, providers).Ok?
  {
    hide Probe, TallyAll, TransportRepair.ReportOf, StoragePeer, Serves;
    forall k | 0 <= k < |providers|
      ensures Probe(lib, swarm, q.client, providers[k]).Ok?
    {
      if Reachable(swarm, q.client, providers) {
        ProbeAnswers(lib, swarm, q.client, providers[k]);
      } else {
        ProbeExact(lib, swarm, q.client, providers[k]);
      }
    }
    TallyAnswers(lib, swarm, q.client, q.segment.cid, providers, q.now);
  }

  /** The work of a repair, when the first audit found some and enough is served. */
  lemma WorkSucceeds(lib: Library, rs: ReedSolomon, q: RepairRequest, swarm: Swarm, before: TransportReport)
    requires Setting(lib, rs, q, swarm) && Healthy(lib, q, swarm)
    requires AuditFor(lib, q, swarm, q.providers) == Ok(before) && |before.verified| >= q.policy.dataShards && before.repairNeeded
    ensures Repair(lib, rs, q, swarm).0.Ok?
  {
    hide AuditFor, Rebuild, RepairLoop, LawfulCode, Codeword, NoCollisions, GenuineProviders, OnePerIndex, AllActive, Members, InOrder,
         IndicesOf, ServedIndices, KeepsServed, ServesAll, GenuineShards, DistinctRefs, Listed, Distinct, AllAudited, Serves, Reachable,
         PolicyCounts, RepairedListing, Relet, SameDescriptors;
    LawfulCodeword(rs, q.segment, q.policy);
    CountsPositive(rs, q.segment, q.policy);
    var word := Codeword(rs, q.segment, q.policy).value;
    GenuineAudited(lib.hash, q.segment.cid, word, q.providers, q.now);
    AuditExact(lib, q, swarm, q.providers);
    AuditNumbers(lib, q, swarm, q.providers);
    var verified := Members(before.verified);
    RebuildSucceeds(lib, rs, q, swarm, verified);
    RebuildGenuine(lib, rs, q, swarm, verified);
    var rebuilt := Rebuild(lib, rs, q, swarm, verified).value;
    var targets := InOrder(Members(before.missing) + Members(before.corrupt));
    RefsDistinct(lib.hash, q.segment.cid, word, swarm);
    forall i
      ensures i in targets <==> i in IndicesOf(q.providers) && i !in ServedIndices(lib, swarm, q.client, q.providers)
    {
      TargetsAreUnserved(before, IndicesOf(q.providers), i);
    }
    InOrderDistinct(Members(before.missing) + Members(before.corrupt));
    TargetsListed(q.providers, targets);
    LoopSucceeds(lib, q, word, rebuilt, Members(before.missing), targets, swarm);
    LoopFacts(lib, q, word, rebuilt, Members(before.missing), targets, swarm);
    var (looped, swarm1) := RepairLoop(lib, q, rebuilt, Members(before.missing), targets, swarm);
    ListingServesAll(lib, q, word, targets, looped.value.providers, swarm, swarm1);
    ServesAllRelet(lib, swarm1, q.client, looped.value.providers, q.leaseEpoch, q.expiresAt);
    AuditAnswers(lib, q, swarm1, Relet(looped.value.providers, q.leaseEpoch, q.expiresAt));
  }

  lemma CountsPositive(rs: ReedSolomon, s: Segment, p: StoragePolicy)
    requires LawfulCode(rs, s, p)
    ensures p.dataShards > 0
  {
  }

  lemma ServesAllRelet(lib: Library, swarm: Swarm, client: string, providers: seq<ProviderRecord>, leaseEpoch: nat, expiresAt: nat)
    requires ServesAll(lib, swarm, client, providers)
    ensures ServesAll(lib, swarm, client, Relet(providers, leaseEpoch, expiresAt))
  {
    hide Serves;
  }

  /** With every listed peer a reachable storage peer, repair succeeds exactly when
      at least `k` genuine shards are still served. */
  lemma RepairSucceedsExact(lib: Library, rs: ReedSolomon, q: RepairRequest, swarm: Swarm)
    requires Setting(lib, rs, q, swarm) && Healthy(lib, q, swarm)
    ensures Repair(lib, rs, q, swarm).0.Ok? <==> |ServedIndices(lib, swarm, q.client, q.providers)| >= q.policy.dataShards
  {
    hide AuditFor, Rebuild, RepairLoop, Conclude, LawfulCode, Codeword, NoCollisions, GenuineProviders, OnePerIndex, AllActive, Members,
         InOrder, ServedIndices, IndicesOf, AllAudited, Reachable, PolicyCounts;
    AuditAnswers(lib, q, swarm, q.providers);
    LawfulCodeword(rs, q.segment, q.policy);
    GenuineAudited(lib.hash, q.segment.cid, Codeword(rs, q.segment, q.policy).value, q.providers, q.now);
    AuditExact(lib, q, swarm, q.providers);
    AuditNumbers(lib, q, swarm, q.providers);
    var before := AuditFor(lib, q, swarm, q.providers).value;
    if |before.verified| >= q.policy.dataShards && before.repairNeeded {
      WorkSucceeds(lib, rs, q, swarm, before);
    }
  }
}
