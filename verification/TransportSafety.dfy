/** What a successful transport repair guarantees: nothing verified is lost, exactly
    the missing and corrupt shards are repaired, and peers stay distinct. */
module TransportSafety {
  import opened Prelude
  import opened Core
  import opened Ordering
  import opened Erasure
  import opened Network
  import Directory
  import opened Peer
  import opened TransportRepair

  // ------------------------------------------------------------- the setting

  function PlaceTranscript(segment: Cid, i: nat, bytes: Bytes): Bytes {
    CidTranscript(ShardKind, ShardTranscript(segment, i, bytes))
  }

  /** The reference of the genuine shard of a place. */
  function PlaceRef(hash: Hash, segment: Cid, word: seq<Bytes>, i: nat): ShardRef
    requires i < |word|
  {
    ShardRef(segment, ShardCid(hash, segment, i, word[i]), i)
  }

  /** The hash separates the genuine shards from each other and from the bytes held. */
  ghost predicate NoCollisions(hash: Hash, segment: Cid, word: seq<Bytes>, swarm: Swarm) {
    && (forall i, j :: 0 <= i < |word| && 0 <= j < |word| ==>
          CollisionFree(hash, {PlaceTranscript(segment, i, word[i]), PlaceTranscript(segment, j, word[j])}))
    && (forall i, id, c :: 0 <= i < |word| && id in swarm && c in swarm[id].shards ==>
          CollisionFree(hash, {PlaceTranscript(segment, i, word[i]), PlaceTranscript(segment, i, swarm[id].shards[c].bytes)}))
  }

  predicate OnePerIndex(providers: seq<ProviderRecord>) {
    forall a, b :: 0 <= a < b < |providers| ==> providers[a].shard.shardIndex != providers[b].shard.shardIndex
  }

  predicate GenuineProviders(hash: Hash, segment: Cid, word: seq<Bytes>, providers: seq<ProviderRecord>) {
    forall k :: 0 <= k < |providers| ==>
      providers[k].shard.shardIndex < |word| && providers[k].shard == PlaceRef(hash, segment, word, providers[k].shard.shardIndex)
  }

  predicate AllActive(providers: seq<ProviderRecord>, now: nat) {
    forall k :: 0 <= k < |providers| ==> providers[k].ActiveAt(now)
  }

  /** One provider per index, each naming the genuine shard and active now. */
  ghost predicate Setting(lib: Library, rs: ReedSolomon, q: RepairRequest, swarm: Swarm) {
    && LawfulCode(rs, q.segment, q.policy) && q.policy.Total() <= TWO_TO_64
    && var word := Codeword(rs, q.segment, q.policy).value;
       && NoCollisions(lib.hash, q.segment.cid, word, swarm)
       && GenuineProviders(lib.hash, q.segment.cid, word, q.providers)
       && OnePerIndex(q.providers) && AllActive(q.providers, q.now) && q.expiresAt > q.now
  }

  predicate DistinctPeers(providers: seq<ProviderRecord>) {
    forall a, b :: 0 <= a < b < |providers| ==> providers[a].peerId != providers[b].peerId
  }

  // ------------------------------------------------------------- verified

  /** The peer serves a shard that passes its audit. */
  predicate Serves(lib: Library, swarm: Swarm, client: string, peerId: string, shard: ShardRef) {
    && client in swarm && peerId in swarm && ShardTransferV0 in swarm[peerId].descriptor.protocols
    && shard.shardCid in swarm[peerId].shards && swarm[peerId].shards[shard.shardCid].shard == shard
    && VerifyEnvelope(lib.hash, swarm[peerId].shards[shard.shardCid]).Ok?
  }

  lemma ProbeExact(lib: Library, swarm: Swarm, client: string, p: ProviderRecord)
    ensures Probe(lib, swarm, client, p) == Ok(Verified) <==> Serves(lib, swarm, client, p.peerId, p.shard)
  {
    hide VerifyEnvelope;
  }

  lemma PlaceCidsDistinct(hash: Hash, segment: Cid, word: seq<Bytes>, swarm: Swarm, i: nat, j: nat)
    requires NoCollisions(hash, segment, word, swarm) && i < |word| && j < |word| && |word| <= TWO_TO_64
    requires PlaceRef(hash, segment, word, i).shardCid == PlaceRef(hash, segment, word, j).shardCid
    ensures i == j
  {
    hide CidTranscript, ShardTranscript;
    assert CollisionFree(hash, {PlaceTranscript(segment, i, word[i]), PlaceTranscript(segment, j, word[j])});
    NewCidInjective(hash, ShardKind, ShardTranscript(segment, i, word[i]), ShardKind, ShardTranscript(segment, j, word[j]));
    ShardTranscriptInjective(segment, i, word[i], segment, j, word[j]);
  }

  /** Different genuine shards have different identifiers. */
  predicate DistinctRefs(hash: Hash, segment: Cid, word: seq<Bytes>) {
    forall i, j ::
      0 <= i < |word| && 0 <= j < |word| && PlaceRef(hash, segment, word, i).shardCid == PlaceRef(hash, segment, word, j).shardCid
      ==> i == j
  }

  lemma RefsDistinct(hash: Hash, segment: Cid, word: seq<Bytes>, swarm: Swarm)
    requires NoCollisions(hash, segment, word, swarm) && |word| <= TWO_TO_64
    ensures DistinctRefs(hash, segment, word)
  {
    hide NoCollisions, PlaceRef;
    forall i, j | 0 <= i < |word| && 0 <= j < |word| &&
      PlaceRef(hash, segment, word, i).shardCid == PlaceRef(hash, segment, word, j).shardCid
      ensures i == j
    {
      PlaceCidsDistinct(hash, segment, word, swarm, i, j);
    }
  }

  /** Whatever genuine shard a peer served before, it still serves. */
  predicate KeepsServed(lib: Library, client: string, segment: Cid, word: seq<Bytes>, before: Swarm, after: Swarm) {
    forall id, i :: id in before && 0 <= i < |word| && Serves(lib, before, client, id, PlaceRef(lib.hash, segment, word, i)) ==>
      Serves(lib, after, client, id, PlaceRef(lib.hash, segment, word, i))
  }

  lemma KeepsTransitive(lib: Library, client: string, segment: Cid, word: seq<Bytes>, a: Swarm, b: Swarm, c: Swarm)
    requires KeepsServed(lib, client, segment, word, a, b) && KeepsServed(lib, client, segment, word, b, c)
    ensures KeepsServed(lib, client, segment, word, a, c)
  {
    hide PlaceRef, VerifyEnvelope;
  }

  lemma KeepsSelf(lib: Library, client: string, segment: Cid, word: seq<Bytes>, a: Swarm)
    ensures KeepsServed(lib, client, segment, word, a, a)
  {
    hide Serves, PlaceRef;
  }

  // --------------------------------------------------------------- one put

  lemma PutKeeps(lib: Library, swarm: Swarm, client: string, to: string, segment: Cid, word: seq<Bytes>, j: nat, e: Envelope,
                 leaseEpoch: nat, expiresAt: nat)
    requires DistinctRefs(lib.hash, segment, word) && j < |word| && e.shard == PlaceRef(lib.hash, segment, word, j)
    ensures var (answer, after) := SwarmRequest(lib, swarm, client, to, PutShard(e, leaseEpoch, expiresAt));
            && KeepsServed(lib, client, segment, word, swarm, after)
            && (answer.Ok? ==> answer == Ok(ShardStored(e.shard)) && Serves(lib, after, client, to, e.shard))
  {
    hide VerifyEnvelope, PlaceRef, Directory.Published, OwnRecord;
  }

  lemma StoreFacts(lib: Library, swarm: Swarm, client: string, p: ProviderRecord, s: Segment, policy: StoragePolicy, word: seq<Bytes>,
                   j: nat, leaseEpoch: nat, expiresAt: nat)
    requires DistinctRefs(lib.hash, s.cid, word) && j < |word|
    ensures var (record, after) := StoreRepaired(lib, swarm, client, p, MakeShard(lib.hash, s, policy, j, word[j]), leaseEpoch, expiresAt);
            && KeepsServed(lib, client, s.cid, word, swarm, after)
            && (record.Ok? ==> record.value.shard == PlaceRef(lib.hash, s.cid, word, j) && record.value.peerId == p.peerId
                               && Serves(lib, after, client, p.peerId, record.value.shard))
  {
    hide SwarmRequest, KeepsServed, DistinctRefs, Serves, ShardCid;
    var shard := MakeShard(lib.hash, s, policy, j, word[j]);
    KeepsSelf(lib, client, s.cid, word, swarm);
    var envelope := ToEnvelope(lib.hash, shard);
    if envelope.Ok? {
      PutKeeps(lib, swarm, client, p.peerId, s.cid, word, j, envelope.value, leaseEpoch, expiresAt);
    }
  }

  /** Wherever a rebuilt shard ends up, nothing is lost and no listed peer is reused. */
  lemma StoreSomewhereFacts(lib: Library, q: RepairRequest, swarm: Swarm, after: seq<ProviderRecord>, target: ProviderRecord,
                            isMissing: bool, word: seq<Bytes>, j: nat)
    requires DistinctRefs(lib.hash, q.segment.cid, word) && j < |word|
    ensures var (record, swarm1) := StoreSomewhere(lib, q, swarm, after, target, isMissing, MakeShard(lib.hash, q.segment, q.policy, j, word[j]));
            && KeepsServed(lib, q.client, q.segment.cid, word, swarm, swarm1)
            && (record.Ok? ==>
                  && record.value.shard == PlaceRef(lib.hash, q.segment.cid, word, j)
                  && Serves(lib, swarm1, q.client, record.value.peerId, record.value.shard)
                  && (record.value.peerId == target.peerId || record.value.peerId !in PeersOf(after)))
  {
    hide StoreRepaired, KeepsServed, DistinctRefs, Serves, PlaceRef, MakeShard, PeersOf, BestReplacement;
    var shard := MakeShard(lib.hash, q.segment, q.policy, j, word[j]);
    var chosen := ChooseRepairTarget(after, target, q.replacements);
    var preferred := if isMissing then chosen else target;
    var swarm1 := StoreRepaired(lib, swarm, q.client, preferred, shard, q.leaseEpoch, q.expiresAt).1;
    StoreFacts(lib, swarm, q.client, preferred, q.segment, q.policy, word, j, q.leaseEpoch, q.expiresAt);
    StoreFacts(lib, swarm1, q.client, target, q.segment, q.policy, word, j, q.leaseEpoch, q.expiresAt);
    StoreFacts(lib, swarm1, q.client, chosen, q.segment, q.policy, word, j, q.leaseEpoch, q.expiresAt);
    KeepsTransitive(lib, q.client, q.segment.cid, word, swarm, swarm1,
                    StoreRepaired(lib, swarm1, q.client, target, shard, q.leaseEpoch, q.expiresAt).1);
    KeepsTransitive(lib, q.client, q.segment.cid, word, swarm, swarm1,
                    StoreRepaired(lib, swarm1, q.client, chosen, shard, q.leaseEpoch, q.expiresAt).1);
  }

  // ------------------------------------------------------------- the loop

  lemma {:induction false} RelistAt(providers: seq<ProviderRecord>, k: nat, record: ProviderRecord)
    requires k < |providers| && OnePerIndex(providers)
    ensures Relist(providers, providers[k].shard.shardIndex, record) == providers[k := record]
  {
    if k > 0 {
      RelistAt(providers[1..], k - 1, record);
    }
  }

  function Distinct(targets: seq<nat>): bool {
    forall a, b :: 0 <= a < b < |targets| ==> targets[a] != targets[b]
  }

  predicate SameShards(a: seq<ProviderRecord>, b: seq<ProviderRecord>) {
    |a| == |b| && forall k :: 0 <= k < |a| ==> a[k].shard == b[k].shard
  }

  /** The providers after some targets were repaired. */
  predicate RepairedListing(lib: Library, q: RepairRequest, targets: seq<nat>, providers: seq<ProviderRecord>, swarm: Swarm) {
    && SameShards(providers, q.providers)
    && (forall k :: 0 <= k < |providers| && q.providers[k].shard.shardIndex !in targets ==> providers[k] == q.providers[k])
    && (forall k :: 0 <= k < |providers| && q.providers[k].shard.shardIndex in targets ==>
          Serves(lib, swarm, q.client, providers[k].peerId, providers[k].shard))
    && (DistinctPeers(q.providers) ==> DistinctPeers(providers))
  }

  lemma ListingAfterOne(lib: Library, q: RepairRequest, word: seq<Bytes>, done: seq<nat>, index: nat, k: nat, providers: seq<ProviderRecord>,
                        before: Swarm, after: Swarm, record: ProviderRecord)
    requires RepairedListing(lib, q, done, providers, before) && index !in done
    requires OnePerIndex(q.providers) && GenuineProviders(lib.hash, q.segment.cid, word, q.providers)
    requires k < |q.providers| && q.providers[k].shard.shardIndex == index
    requires KeepsServed(lib, q.client, q.segment.cid, word, before, after)
    requires record.shard == q.providers[k].shard && Serves(lib, after, q.client, record.peerId, record.shard)
    requires record.peerId == q.providers[k].peerId || record.peerId !in PeersOf(providers)
    ensures RepairedListing(lib, q, done + [index], providers[k := record], after)
  {
    hide PlaceRef, VerifyEnvelope;
    var listed := providers[k := record];
    assert providers[k] == q.providers[k];
    forall m | 0 <= m < |listed| && q.providers[m].shard.shardIndex in done + [index]
      ensures Serves(lib, after, q.client, listed[m].peerId, listed[m].shard)
    {
      if m != k {
        assert q.providers[m].shard.shardIndex in done;
        assert Serves(lib, before, q.client, providers[m].peerId, providers[m].shard);
      }
    }
    if DistinctPeers(q.providers) {
      forall a | 0 <= a < |providers| && a != k
        ensures providers[a].peerId != record.peerId
      {
        assert providers[a].peerId in PeersOf(providers);
      }
    }
  }

  lemma ByIndexAt(providers: seq<ProviderRecord>, k: nat)
    requires OnePerIndex(providers) && k < |providers|
    ensures ByIndex(providers, providers[k].shard.shardIndex) == Some(providers[k])
  {
  }

  predicate Listed(providers: seq<ProviderRecord>, targets: seq<nat>) {
    forall t :: t in targets ==> exists k :: 0 <= k < |providers| && providers[k].shard.shardIndex == t
  }

  predicate GenuineShards(hash: Hash, s: Segment, p: StoragePolicy, word: seq<Bytes>, rebuilt: seq<Shard>) {
    |rebuilt| == |word| && forall j :: 0 <= j < |word| ==> rebuilt[j] == MakeShard(hash, s, p, j, word[j])
  }

  lemma OneFacts(lib: Library, q: RepairRequest, word: seq<Bytes>, rebuilt: seq<Shard>, missing: set<nat>, done: seq<nat>, index: nat,
                 st: Progress, swarm: Swarm)
    requires DistinctRefs(lib.hash, q.segment.cid, word) && GenuineShards(lib.hash, q.segment, q.policy, word, rebuilt)
    requires OnePerIndex(q.providers) && GenuineProviders(lib.hash, q.segment.cid, word, q.providers)
    requires RepairedListing(lib, q, done, st.providers, swarm) && index !in done && Listed(q.providers, [index])
    ensures var (r, after) := RepairOne(lib, q, rebuilt, missing, st, index, swarm);
            r.Ok? ==>
              && RepairedListing(lib, q, done + [index], r.value.providers, after)
              && r.value.repaired == st.repaired + [index]
              && KeepsServed(lib, q.client, q.segment.cid, word, swarm, after)
  {
    hide StoreSomewhere, KeepsServed, DistinctRefs, Serves, MakeShard, PeersOf, Relist, ShardCid, RepairedListing;
    assert index in [index];
    var k :| 0 <= k < |q.providers| && q.providers[k].shard.shardIndex == index;
    ByIndexAt(q.providers, k);
    var (stored, after) := StoreSomewhere(lib, q, swarm, st.providers, q.providers[k], index in missing, rebuilt[index]);
    StoreSomewhereFacts(lib, q, swarm, st.providers, q.providers[k], index in missing, word, index);
    if stored.Ok? {
      ListingKeepsIndices(lib, q, done, st.providers, swarm);
      RelistAt(st.providers, k, stored.value);
      ListingAfterOne(lib, q, word, done, index, k, st.providers, swarm, after, stored.value);
    }
  }

  lemma ListingKeepsIndices(lib: Library, q: RepairRequest, done: seq<nat>, providers: seq<ProviderRecord>, swarm: Swarm)
    requires RepairedListing(lib, q, done, providers, swarm) && OnePerIndex(q.providers)
    ensures SameShards(providers, q.providers) && OnePerIndex(providers)
  {
    hide Serves;
  }

  lemma SplitTargets(providers: seq<ProviderRecord>, p: seq<nat>, index: nat)
    requires Distinct(p + [index]) && Listed(providers, p + [index])
    ensures Distinct(p) && Listed(providers, p) && index !in p && Listed(providers, [index])
  {
    var targets := p + [index];
    assert targets[|p|] == index;
    assert forall k :: 0 <= k < |p| ==> targets[k] == p[k];
    assert index in targets;
    assert forall t :: t in p ==> t in targets;
  }

  lemma {:induction false} LoopFacts(lib: Library, q: RepairRequest, word: seq<Bytes>, rebuilt: seq<Shard>, missing: set<nat>,
                                     targets: seq<nat>, swarm: Swarm)
    requires DistinctRefs(lib.hash, q.segment.cid, word) && GenuineShards(lib.hash, q.segment, q.policy, word, rebuilt)
    requires OnePerIndex(q.providers) && GenuineProviders(lib.hash, q.segment.cid, word, q.providers)
    requires Distinct(targets) && Listed(q.providers, targets)
    ensures var (r, after) := RepairLoop(lib, q, rebuilt, missing, targets, swarm);
            r.Ok? ==>
              && RepairedListing(lib, q, targets, r.value.providers, after)
              && r.value.repaired == targets
              && KeepsServed(lib, q.client, q.segment.cid, word, swarm, after)
  {
    hide RepairOne, KeepsServed, DistinctRefs, Serves, GenuineShards, GenuineProviders, OnePerIndex, Distinct, Listed;
    if targets == [] {
      KeepsSelf(lib, q.client, q.segment.cid, word, swarm);
    } else {
      var p, index := targets[..|targets| - 1], targets[|targets| - 1];
      assert targets == p + [index];
      SplitTargets(q.providers, p, index);
      LoopFacts(lib, q, word, rebuilt, missing, p, swarm);
      var (before, swarm1) := RepairLoop(lib, q, rebuilt, missing, p, swarm);
      if before.Ok? {
        OneFacts(lib, q, word, rebuilt, missing, p, index, before.value, swarm1);
        var (r, swarm2) := RepairOne(lib, q, rebuilt, missing, before.value, index, swarm1);
        if r.Ok? { KeepsTransitive(lib, q.client, q.segment.cid, word, swarm, swarm1, swarm2); }
      }
    }
  }

  // -------------------------------------------------------------- the audit

  predicate ServesAll(lib: Library, swarm: Swarm, client: string, providers: seq<ProviderRecord>) {
    forall k :: 0 <= k < |providers| ==> Serves(lib, swarm, client, providers[k].peerId, providers[k].shard)
  }

  function IndicesOf(providers: seq<ProviderRecord>): set<nat> {
    set k | 0 <= k < |providers| :: providers[k].shard.shardIndex
  }

  function ServedIndices(lib: Library, swarm: Swarm, client: string, providers: seq<ProviderRecord>): set<nat> {
    set k | 0 <= k < |providers| && Serves(lib, swarm, client, providers[k].peerId, providers[k].shard) :: providers[k].shard.shardIndex
  }

  predicate AllAudited(segment: Cid, now: nat, providers: seq<ProviderRecord>) {
    forall k :: 0 <= k < |providers| ==> Audited(segment, now, providers[k])
  }

  /** The three sets of a tally split what was audited; the first is what is served. */
  predicate TallyFits(t: Tally, served: set<nat>, all: set<nat>) {
    && t.verified == served && t.verified + t.missing + t.corrupt == all
    && t.verified * t.missing == {} && t.verified * t.corrupt == {} && t.missing * t.corrupt == {}
  }

  lemma CountFits(t: Tally, served: set<nat>, all: set<nat>, index: nat, status: Status)
    requires TallyFits(t, served, all) && index !in all
    ensures TallyFits(t.Count(index, status), if status == Verified then served + {index} else served, all + {index})
  {
    assert index !in t.verified && index !in t.missing && index !in t.corrupt;
  }

  /** With one provider per index the audit splits the indices in three. */
  lemma {:induction false} TallyExact(lib: Library, swarm: Swarm, client: string, segment: Cid, providers: seq<ProviderRecord>, now: nat)
    requires OnePerIndex(providers) && AllAudited(segment, now, providers)
    requires TallyAll(lib, swarm, client, segment, providers, now).Ok?
    ensures TallyFits(TallyAll(lib, swarm, client, segment, providers, now).value, ServedIndices(lib, swarm, client, providers), IndicesOf(providers))
    ensures TallyAll(lib, swarm, client, segment, providers, now).value.checked == |providers|
  {
    hide Probe, Serves, TallyFits, ServedIndices, IndicesOf;
    if providers == [] {
      NothingTallied(lib, swarm, client);
    } else {
      var p, last := providers[..|providers| - 1], providers[|providers| - 1];
      assert providers == p + [last];
      TallyExact(lib, swarm, client, segment, p, now);
      ProbeExact(lib, swarm, client, last);
      IndicesPush(lib, swarm, client, p, last);
      CountFits(TallyAll(lib, swarm, client, segment, p, now).value, ServedIndices(lib, swarm, client, p), IndicesOf(p),
                last.shard.shardIndex, Probe(lib, swarm, client, last).value);
    }
  }

  lemma NothingTallied(lib: Library, swarm: Swarm, client: string)
    ensures TallyFits(Tally({}, {}, {}, 0), ServedIndices(lib, swarm, client, []), IndicesOf([]))
  {
  }

  lemma IndicesPush(lib: Library, swarm: Swarm, client: string, p: seq<ProviderRecord>, last: ProviderRecord)
    requires OnePerIndex(p + [last])
    ensures IndicesOf(p + [last]) == IndicesOf(p) + {last.shard.shardIndex} && last.shard.shardIndex !in IndicesOf(p)
    ensures ServedIndices(lib, swarm, client, p + [last]) ==
            if Serves(lib, swarm, client, last.peerId, last.shard) then ServedIndices(lib, swarm, client, p) + {last.shard.shardIndex}
            else ServedIndices(lib, swarm, client, p)
  {
    hide Serves;
    var all := p + [last];
    assert all[|p|] == last;
    assert forall k :: 0 <= k < |p| ==> all[k] == p[k];
    var index := last.shard.shardIndex;
    forall i
      ensures i in IndicesOf(all) <==> i in IndicesOf(p) + {index}
    {
      if i in IndicesOf(p) {
        var k :| 0 <= k < |p| && p[k].shard.shardIndex == i;
        assert all[k].shard.shardIndex == i;
      }
    }
    forall i
      ensures i in ServedIndices(lib, swarm, client, all) <==>
              i in ServedIndices(lib, swarm, client, p) || (i == index && Serves(lib, swarm, client, last.peerId, last.shard))
    {
      if i in ServedIndices(lib, swarm, client, p) {
        var k :| 0 <= k < |p| && Serves(lib, swarm, client, p[k].peerId, p[k].shard) && p[k].shard.shardIndex == i;
        assert all[k].shard.shardIndex == i && Serves(lib, swarm, client, all[k].peerId, all[k].shard);
      }
    }
  }

  // ------------------------------------------------------------ rebuilding

  /** A fetched shard carries the bytes of its place. */
  lemma FetchedGenuine(lib: Library, swarm: Swarm, client: string, p: ProviderRecord, segment: Cid, word: seq<Bytes>)
    requires NoCollisions(lib.hash, segment, word, swarm)
    requires p.shard.shardIndex < |word| && p.shard == PlaceRef(lib.hash, segment, word, p.shard.shardIndex)
    requires FetchOne(lib, swarm, client, p).Ok?
    ensures var x := FetchOne(lib, swarm, client, p).value;
            x.index < |word| && x.bytes == word[x.index]
  {
    hide CidTranscript, ShardTranscript;
    var e := swarm[p.peerId].shards[p.shard.shardCid];
    var i := p.shard.shardIndex;
    assert CollisionFree(lib.hash, {PlaceTranscript(segment, i, word[i]), PlaceTranscript(segment, i, e.bytes)});
    EqualShardCidEqualBytes(lib.hash, segment, i, word[i], e.bytes);
  }

  predicate BytesInPlace(word: seq<Bytes>, stored: seq<Shard>) {
    forall x :: x in stored ==> x.index < |word| && x.bytes == word[x.index]
  }

  lemma {:induction false} FetchedInPlace(lib: Library, swarm: Swarm, client: string, providers: seq<ProviderRecord>, now: nat,
                                          segment: Cid, word: seq<Bytes>)
    requires NoCollisions(lib.hash, segment, word, swarm) && GenuineProviders(lib.hash, segment, word, providers)
    requires FetchAll(lib, swarm, client, providers, now).Ok?
    ensures BytesInPlace(word, FetchAll(lib, swarm, client, providers, now).value)
  {
    hide FetchOne, NoCollisions, PlaceRef;
    if providers != [] {
      var p, last := providers[..|providers| - 1], providers[|providers| - 1];
      FetchedInPlace(lib, swarm, client, p, now, segment, word);
      if last.ActiveAt(now) { FetchedGenuine(lib, swarm, client, last, segment, word); }
    }
  }

  lemma {:induction false} SlotsInPlace(hash: Hash, s: Segment, p: StoragePolicy, word: seq<Bytes>, stored: seq<Shard>)
    requires |word| == p.Total() && BytesInPlace(word, stored)
    ensures PartOf(VerifiedSlots(hash, s, p, stored), word)
  {
    hide VerifyShard;
    if stored != [] {
      assert stored[|stored| - 1] in stored;
      SlotsInPlace(hash, s, p, word, stored[..|stored| - 1]);
    }
  }

  lemma RebuiltGenuine(hash: Hash, rs: ReedSolomon, s: Segment, p: StoragePolicy, stored: seq<Shard>)
    requires LawfulCode(rs, s, p) && BytesInPlace(Codeword(rs, s, p).value, stored)
    requires ReconstructAll(hash, rs, s, p, stored).Ok?
    ensures GenuineShards(hash, s, p, Codeword(rs, s, p).value, ReconstructAll(hash, rs, s, p, stored).value)
  {
    hide Codeword, Mds, DivCeil, MakeShard, VerifiedSlots, Present, PartOf, BytesInPlace;
    CodewordFacts(rs, s, p);
    var word := Codeword(rs, s, p).value;
    SlotsInPlace(hash, s, p, word, stored);
    var length := DivCeil(|s.ciphertext|, p.dataShards);
    forall i | 0 <= i < |word|
      ensures Resize(word[i], length) == word[i]
    {
      assert word[i] in word;
    }
  }

  lemma VerifiedSublist(providers: seq<ProviderRecord>, verified: set<nat>, hash: Hash, segment: Cid, word: seq<Bytes>)
    requires GenuineProviders(hash, segment, word, providers)
    ensures GenuineProviders(hash, segment, word, VerifiedProviders(providers, verified))
  {
    hide PlaceRef;
    var r := VerifiedProviders(providers, verified);
    forall k | 0 <= k < |r|
      ensures r[k].shard.shardIndex < |word| && r[k].shard == PlaceRef(hash, segment, word, r[k].shard.shardIndex)
    {
      assert r[k] in r;
    }
  }

  lemma RebuildGenuine(lib: Library, rs: ReedSolomon, q: RepairRequest, swarm: Swarm, verified: set<nat>)
    requires Setting(lib, rs, q, swarm) && Rebuild(lib, rs, q, swarm, verified).Ok?
    ensures GenuineShards(lib.hash, q.segment, q.policy, Codeword(rs, q.segment, q.policy).value, Rebuild(lib, rs, q, swarm, verified).value)
  {
    hide Codeword, FetchAll, ReconstructAll, NoCollisions, GenuineProviders, VerifiedProviders, LawfulCode, BytesInPlace, GenuineShards;
    LawfulCodeword(rs, q.segment, q.policy);
    var word := Codeword(rs, q.segment, q.policy).value;
    VerifiedSublist(q.providers, verified, lib.hash, q.segment.cid, word);
    FetchedInPlace(lib, swarm, q.client, VerifiedProviders(q.providers, verified), q.now, q.segment.cid, word);
    RebuiltGenuine(lib.hash, rs, q.segment, q.policy, FetchAll(lib, swarm, q.client, VerifiedProviders(q.providers, verified), q.now).value);
  }

  // ------------------------------------------------------------ publishing

  lemma PublishKeepsShards(lib: Library, s: PeerState, tx: string, p: ProviderRecord)
    ensures var after := Respond(lib, s, Idempotent(tx, PublishProvider(p))).1;
            after.shards == s.shards && after.descriptor == s.descriptor
  {
    hide ValidTransactionId, Directory.Published;
  }

  lemma {:induction false} PublishKeeps(lib: Library, swarm: Swarm, client: string, directory: string, providers: seq<ProviderRecord>,
                                        segment: Cid, word: seq<Bytes>)
    ensures KeepsServed(lib, client, segment, word, swarm, PublishAll(lib, swarm, client, directory, providers).1)
  {
    hide Respond, PublishTransactionId, ValidTransactionId, KeepsServed;
    KeepsSelf(lib, client, segment, word, swarm);
    if providers != [] {
      var before := providers[..|providers| - 1];
      var p := providers[|providers| - 1];
      PublishKeeps(lib, swarm, client, directory, before, segment, word);
      var swarm1 := PublishAll(lib, swarm, client, directory, before).1;
      var request := Idempotent(PublishTransactionId(p), PublishProvider(p));
      RequestKeeps(lib, swarm1, client, directory, PublishTransactionId(p), p, segment, word);
      KeepsTransitive(lib, client, segment, word, swarm, swarm1, SwarmRequest(lib, swarm1, client, directory, request).1);
    }
  }

  lemma RequestKeeps(lib: Library, swarm: Swarm, client: string, directory: string, tx: string, p: ProviderRecord,
                     segment: Cid, word: seq<Bytes>)
    ensures KeepsServed(lib, client, segment, word, swarm, SwarmRequest(lib, swarm, client, directory, Idempotent(tx, PublishProvider(p))).1)
  {
    hide Respond, VerifyEnvelope, PlaceRef;
    if directory in swarm { PublishKeepsShards(lib, swarm[directory], tx, p); }
  }

  // ---------------------------------------------------------- the theorem

  lemma AuditExact(lib: Library, q: RepairRequest, swarm: Swarm, providers: seq<ProviderRecord>)
    requires OnePerIndex(providers) && AllAudited(q.segment.cid, q.now, providers)
    requires AuditFor(lib, q, swarm, providers).Ok?
    ensures var a := AuditFor(lib, q, swarm, providers).value;
            && Members(a.verified) == ServedIndices(lib, swarm, q.client, providers)
            && Members(a.verified) + Members(a.missing) + Members(a.corrupt) == IndicesOf(providers)
            && Members(a.verified) * Members(a.missing) == {} && Members(a.verified) * Members(a.corrupt) == {}
            && Members(a.missing) * Members(a.corrupt) == {}
            && a.checked == |providers|
  {
    hide TallyAll, ServedIndices, IndicesOf, Ascending, AllAudited, OnePerIndex;
    TallyExact(lib, swarm, q.client, q.segment.cid, providers, q.now);
    var t := TallyAll(lib, swarm, q.client, q.segment.cid, providers, q.now).value;
    assert Members(InOrder(t.verified)) == t.verified;
    assert Members(InOrder(t.missing)) == t.missing;
    assert Members(InOrder(t.corrupt)) == t.corrupt;
  }

  lemma GenuineAudited(hash: Hash, segment: Cid, word: seq<Bytes>, providers: seq<ProviderRecord>, now: nat)
    requires GenuineProviders(hash, segment, word, providers) && AllActive(providers, now)
    ensures AllAudited(segment, now, providers)
  {
  }

  lemma InOrderDistinct(s: set<nat>)
    ensures Distinct(InOrder(s))
  {
  }

  lemma TargetsListed(providers: seq<ProviderRecord>, targets: seq<nat>)
    requires forall t :: t in targets ==> t in IndicesOf(providers)
    ensures Listed(providers, targets)
  {
  }

  /** The loop's listing serves every index, once its targets are all the unserved ones. */
  lemma ListingServesAll(lib: Library, q: RepairRequest, word: seq<Bytes>, targets: seq<nat>, providers: seq<ProviderRecord>,
                         swarm: Swarm, after: Swarm)
    requires RepairedListing(lib, q, targets, providers, after)
    requires OnePerIndex(q.providers) && GenuineProviders(lib.hash, q.segment.cid, word, q.providers)
    requires forall i :: i in targets <==> i in IndicesOf(q.providers) && i !in ServedIndices(lib, swarm, q.client, q.providers)
    requires KeepsServed(lib, q.client, q.segment.cid, word, swarm, after)
    ensures ServesAll(lib, after, q.client, providers)
  {
    hide PlaceRef, VerifyEnvelope;
    forall k | 0 <= k < |providers|
      ensures Serves(lib, after, q.client, providers[k].peerId, providers[k].shard)
    {
      var index := q.providers[k].shard.shardIndex;
      assert index in IndicesOf(q.providers);
      if index !in targets {
        assert index in ServedIndices(lib, swarm, q.client, q.providers);
        assert Serves(lib, swarm, q.client, q.providers[k].peerId, q.providers[k].shard);
      }
    }
  }

  lemma ServesAllKept(lib: Library, client: string, segment: Cid, word: seq<Bytes>, providers: seq<ProviderRecord>, before: Swarm, after: Swarm)
    requires ServesAll(lib, before, client, providers) && GenuineProviders(lib.hash, segment, word, providers)
    requires KeepsServed(lib, client, segment, word, before, after)
    ensures ServesAll(lib, after, client, providers)
  {
    hide PlaceRef, VerifyEnvelope;
    assert forall k :: 0 <= k < |providers| ==> Serves(lib, before, client, providers[k].peerId, providers[k].shard);
  }

  lemma ServesAllIndices(lib: Library, swarm: Swarm, client: string, providers: seq<ProviderRecord>)
    requires ServesAll(lib, swarm, client, providers)
    ensures ServedIndices(lib, swarm, client, providers) == IndicesOf(providers)
  {
    hide Serves;
  }

  /** What a successful repair leaves. */
  predicate FullyRepaired(lib: Library, q: RepairRequest, swarm: Swarm, outcome: TransportOutcome) {
    && SameShards(outcome.providers, q.providers)
    && ServesAll(lib, swarm, q.client, outcome.providers)
    && Members(outcome.after.verified) == IndicesOf(q.providers)
    && outcome.after.missing == [] && outcome.after.corrupt == []
    && Members(outcome.repaired) == Members(outcome.before.missing) + Members(outcome.before.corrupt)
    && AllActive(outcome.providers, q.now)
    && (DistinctPeers(q.providers) ==> DistinctPeers(outcome.providers))
  }

  lemma ConcludeFacts(lib: Library, q: RepairRequest, word: seq<Bytes>, before: TransportReport, st: Progress, swarm: Swarm)
    requires SameShards(st.providers, q.providers) && ServesAll(lib, swarm, q.client, st.providers)
    requires OnePerIndex(q.providers) && GenuineProviders(lib.hash, q.segment.cid, word, q.providers) && q.expiresAt > q.now
    requires Members(st.repaired) == Members(before.missing) + Members(before.corrupt)
    requires DistinctPeers(q.providers) ==> DistinctPeers(st.providers)
    requires Conclude(lib, q, before, st, swarm).0.Ok?
    ensures FullyRepaired(lib, q, Conclude(lib, q, before, st, swarm).1, Conclude(lib, q, before, st, swarm).0.value)
    ensures Conclude(lib, q, before, st, swarm).0.value.before == before
    ensures KeepsServed(lib, q.client, q.segment.cid, word, swarm, Conclude(lib, q, before, st, swarm).1)
  {
    hide PublishAll, AuditFor, Serves, KeepsServed, PlaceRef, Members, ServedIndices, IndicesOf;
    var providers := Relet(st.providers, q.leaseEpoch, q.expiresAt);
    var swarm1 := Conclude(lib, q, before, st, swarm).1;
    if q.directoryPeer.Some? {
      PublishKeeps(lib, swarm, q.client, q.directoryPeer.value, providers, q.segment.cid, word);
    } else {
      KeepsSelf(lib, q.client, q.segment.cid, word, swarm);
    }
    assert GenuineProviders(lib.hash, q.segment.cid, word, providers);
    assert ServesAll(lib, swarm, q.client, providers);
    ServesAllKept(lib, q.client, q.segment.cid, word, providers, swarm, swarm1);
    GenuineAudited(lib.hash, q.segment.cid, word, providers, q.now);
    AuditExact(lib, q, swarm1, providers);
    ServesAllIndices(lib, swarm1, q.client, providers);
    SameIndices(providers, q.providers);
    AllVerifiedNoneLeft(AuditFor(lib, q, swarm1, providers).value, IndicesOf(providers));
  }

  lemma SameIndices(a: seq<ProviderRecord>, b: seq<ProviderRecord>)
    requires SameShards(a, b)
    ensures IndicesOf(a) == IndicesOf(b)
  {
  }

  lemma AllVerifiedNoneLeft(a: TransportReport, all: set<nat>)
    requires Members(a.verified) == all
    requires Members(a.verified) + Members(a.missing) + Members(a.corrupt) == all
    requires Members(a.verified) * Members(a.missing) == {} && Members(a.verified) * Members(a.corrupt) == {}
    ensures a.missing == [] && a.corrupt == []
  {
    SomeMember(a.missing);
    SomeMember(a.corrupt);
    assert Members(a.missing) <= Members(a.verified) * Members(a.missing);
    assert Members(a.corrupt) <= Members(a.verified) * Members(a.corrupt);
  }

  lemma SomeMember(s: seq<nat>)
    ensures s == [] || s[0] in Members(s)
  {
  }

  lemma AuditNumbers(lib: Library, q: RepairRequest, swarm: Swarm, providers: seq<ProviderRecord>)
    requires AuditFor(lib, q, swarm, providers).Ok?
    ensures var a := AuditFor(lib, q, swarm, providers).value;
            && a.durable == (|a.verified| >= q.policy.dataShards)
            && a.repairNeeded == (|a.verified| < q.policy.Total() || |a.missing| + |a.corrupt| > 0 || a.checked < q.policy.Total())
            && |a.verified| == |Members(a.verified)|
            && a.verified == InOrder(Members(a.verified))
  {
    hide TallyAll, Sorted, Ascending;
    var t := TallyAll(lib, swarm, q.client, q.segment.cid, providers, q.now).value;
    assert Members(InOrder(t.verified)) == t.verified;
  }

  lemma AllServed(lib: Library, swarm: Swarm, client: string, providers: seq<ProviderRecord>)
    requires OnePerIndex(providers) && ServedIndices(lib, swarm, client, providers) == IndicesOf(providers)
    ensures ServesAll(lib, swarm, client, providers)
  {
    hide Serves;
    forall k | 0 <= k < |providers|
      ensures Serves(lib, swarm, client, providers[k].peerId, providers[k].shard)
    {
      assert providers[k].shard.shardIndex in IndicesOf(providers);
    }
  }

  /** Nothing to repair: everything listed is served already. */
  lemma NothingToRepair(lib: Library, q: RepairRequest, swarm: Swarm)
    requires OnePerIndex(q.providers) && AllAudited(q.segment.cid, q.now, q.providers) && AllActive(q.providers, q.now)
    requires AuditFor(lib, q, swarm, q.providers).Ok? && !AuditFor(lib, q, swarm, q.providers).value.repairNeeded
    ensures var a := AuditFor(lib, q, swarm, q.providers).value;
            FullyRepaired(lib, q, swarm, TransportOutcome(a, a, [], q.providers, true))
  {
    hide AuditFor, ServedIndices, IndicesOf, ServesAll, OnePerIndex, AllAudited, DistinctPeers;
    AuditExact(lib, q, swarm, q.providers);
    AuditNumbers(lib, q, swarm, q.providers);
    AllServed(lib, swarm, q.client, q.providers);
  }

  lemma TargetsAreUnserved(a: TransportReport, all: set<nat>, i: nat)
    requires Members(a.verified) + Members(a.missing) + Members(a.corrupt) == all
    requires Members(a.verified) * Members(a.missing) == {} && Members(a.verified) * Members(a.corrupt) == {}
    ensures i in InOrder(Members(a.missing) + Members(a.corrupt)) <==> i in all && i !in Members(a.verified)
  {
    hide Members, Ascending;
    assert i !in Members(a.verified) * Members(a.missing);
    assert i !in Members(a.verified) * Members(a.corrupt);
  }

  lemma MembersInOrder(s: set<nat>)
    ensures Members(InOrder(s)) == s
  {
    hide Ascending;
  }

  /** The loop and the conclusion, after a first audit that found work to do. */
  lemma WorkDone(lib: Library, rs: ReedSolomon, q: RepairRequest, swarm: Swarm, before: TransportReport, rebuilt: seq<Shard>)
    requires Setting(lib, rs, q, swarm) && AuditFor(lib, q, swarm, q.providers) == Ok(before)
    requires Rebuild(lib, rs, q, swarm, Members(before.verified)) == Ok(rebuilt)
    ensures var targets := InOrder(Members(before.missing) + Members(before.corrupt));
            var (looped, swarm1) := RepairLoop(lib, q, rebuilt, Members(before.missing), targets, swarm);
            looped.Ok? && Conclude(lib, q, before, looped.value, swarm1).0.Ok? ==>
              && FullyRepaired(lib, q, Conclude(lib, q, before, looped.value, swarm1).1, Conclude(lib, q, before, looped.value, swarm1).0.value)
              && Conclude(lib, q, before, looped.value, swarm1).0.value.before == before
              && KeepsServed(lib, q.client, q.segment.cid, Codeword(rs, q.segment, q.policy).value, swarm, Conclude(lib, q, before, looped.value, swarm1).1)
  {
    hide AuditFor, Rebuild, RepairLoop, Conclude, LawfulCode, Codeword, NoCollisions, GenuineProviders, OnePerIndex, AllActive,
         Members, InOrder, IndicesOf, ServedIndices, KeepsServed, ServesAll, FullyRepaired, DistinctPeers, GenuineShards, DistinctRefs,
         Listed, Distinct, AllAudited, Serves, SameShards;
    LawfulCodeword(rs, q.segment, q.policy);
    var word := Codeword(rs, q.segment, q.policy).value;
    var targets := InOrder(Members(before.missing) + Members(before.corrupt));
    GenuineAudited(lib.hash, q.segment.cid, word, q.providers, q.now);
    AuditExact(lib, q, swarm, q.providers);
    RefsDistinct(lib.hash, q.segment.cid, word, swarm);
    RebuildGenuine(lib, rs, q, swarm, Members(before.verified));
    forall i
      ensures i in targets <==> i in IndicesOf(q.providers) && i !in ServedIndices(lib, swarm, q.client, q.providers)
    {
      TargetsAreUnserved(before, IndicesOf(q.providers), i);
    }
    InOrderDistinct(Members(before.missing) + Members(before.corrupt));
    MembersInOrder(Members(before.missing) + Members(before.corrupt));
    TargetsListed(q.providers, targets);
    LoopFacts(lib, q, word, rebuilt, Members(before.missing), targets, swarm);
    var (looped, swarm1) := RepairLoop(lib, q, rebuilt, Members(before.missing), targets, swarm);
    if looped.Ok? && Conclude(lib, q, before, looped.value, swarm1).0.Ok? {
      ListingServesAll(lib, q, word, targets, looped.value.providers, swarm, swarm1);
      ConcludeFacts(lib, q, word, before, looped.value, swarm1);
      KeepsTransitive(lib, q.client, q.segment.cid, word, swarm, swarm1, Conclude(lib, q, before, looped.value, swarm1).1);
    }
  }

  /** A successful repair keeps what was verified, repairs exactly the missing and
      corrupt indices, ends with every listed index verified, and keeps pairwise
      distinct peers distinct. */
  lemma RepairSafe(lib: Library, rs: ReedSolomon, q: RepairRequest, swarm: Swarm)
    requires Setting(lib, rs, q, swarm) && Repair(lib, rs, q, swarm).0.Ok?
    ensures FullyRepaired(lib, q, Repair(lib, rs, q, swarm).1, Repair(lib, rs, q, swarm).0.value)
    ensures Codeword(rs, q.segment, q.policy).Ok?
    ensures KeepsServed(lib, q.client, q.segment.cid, Codeword(rs, q.segment, q.policy).value, swarm, Repair(lib, rs, q, swarm).1)
  {
    hide AuditFor, Rebuild, RepairLoop, Conclude, LawfulCode, Codeword, NoCollisions, GenuineProviders, OnePerIndex, AllActive,
         Members, InOrder, KeepsServed, FullyRepaired, AllAudited;
    LawfulCodeword(rs, q.segment, q.policy);
    var word := Codeword(rs, q.segment, q.policy).value;
    GenuineAudited(lib.hash, q.segment.cid, word, q.providers, q.now);
    var before := AuditFor(lib, q, swarm, q.providers).value;
    if !before.repairNeeded {
      NothingToRepair(lib, q, swarm);
      KeepsSelf(lib, q.client, q.segment.cid, word, swarm);
    } else {
      WorkDone(lib, rs, q, swarm, before, Rebuild(lib, rs, q, swarm, Members(before.verified)).value);
    }
  }

  function UpTo(n: nat): (r: set<nat>)
    ensures forall i: nat :: i in r <==> i < n
  {
    if n == 0 then {} else UpTo(n - 1) + {n - 1}
  }

  lemma {:induction false} UpToSize(n: nat)
    ensures |UpTo(n)| == n
  {
    if n > 0 { UpToSize(n - 1); }
  }

  lemma {:induction false} IndicesSize(providers: seq<ProviderRecord>)
    requires OnePerIndex(providers)
    ensures |IndicesOf(providers)| == |providers|
  {
    if providers == [] {
      assert IndicesOf(providers) == {};
    } else {
      var p, last := providers[..|providers| - 1], providers[|providers| - 1];
      IndicesSize(p);
      assert IndicesOf(providers) == IndicesOf(p) + {last.shard.shardIndex};
      assert last.shard.shardIndex !in IndicesOf(p);
    }
  }

  lemma FullIndices(providers: seq<ProviderRecord>, n: nat)
    requires OnePerIndex(providers) && |providers| == n && forall k :: 0 <= k < n ==> providers[k].shard.shardIndex < n
    ensures IndicesOf(providers) == UpTo(n)
  {
    IndicesSize(providers);
    UpToSize(n);
    var a, b := IndicesOf(providers), UpTo(n);
    assert a <= b;
    if x :| x in b && x !in a {
      SubsetSize(a, b - {x});
    }
  }

  lemma OutcomeAudited(lib: Library, rs: ReedSolomon, q: RepairRequest, swarm: Swarm)
    requires Repair(lib, rs, q, swarm).0.Ok?
    ensures var outcome := Repair(lib, rs, q, swarm).0.value;
            && AuditFor(lib, q, Repair(lib, rs, q, swarm).1, outcome.providers) == Ok(outcome.after)
            && (outcome.durable || outcome.durable == outcome.after.durable)
  {
    hide AuditFor, Rebuild, RepairLoop, PublishAll, Members, InOrder, Relet;
  }

  /** With a provider for every index, a successful repair ends with all of them
      verified and nothing left to repair. */
  lemma RepairComplete(lib: Library, rs: ReedSolomon, q: RepairRequest, swarm: Swarm)
    requires Setting(lib, rs, q, swarm) && |q.providers| == q.policy.Total()
    requires Repair(lib, rs, q, swarm).0.Ok?
    ensures var outcome := Repair(lib, rs, q, swarm).0.value;
            && outcome.after.verified == InOrder(UpTo(q.policy.Total()))
            && !outcome.after.repairNeeded && outcome.durable
  {
    hide AuditFor, Repair, LawfulCode, Codeword, NoCollisions, OnePerIndex, Members, InOrder, IndicesOf, UpTo, ServesAll, ServedIndices,
         AllActive, AllAudited, DistinctPeers, PlaceRef;
    var s, p := q.segment, q.policy;
    LawfulCodeword(rs, s, p);
    var word := Codeword(rs, s, p).value;
    RepairSafe(lib, rs, q, swarm);
    OutcomeAudited(lib, rs, q, swarm);
    var (r, after) := Repair(lib, rs, q, swarm);
    var outcome := r.value;
    AuditNumbers(lib, q, after, outcome.providers);
    FullIndices(q.providers, p.Total());
    UpToSize(p.Total());
    SameShardsSameIndices(outcome.providers, q.providers);
    GenuineAudited(lib.hash, s.cid, word, outcome.providers, q.now);
    AuditExact(lib, q, after, outcome.providers);
  }

  lemma SameShardsSameIndices(a: seq<ProviderRecord>, b: seq<ProviderRecord>)
    requires SameShards(a, b) && OnePerIndex(b)
    ensures OnePerIndex(a)
  {
  }
}
