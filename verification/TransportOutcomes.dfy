/** The steps of a transport audit and repair, for any swarm and any list of
    providers: what an audit reports, and where a rebuilt shard ends up. */
module TransportOutcomes {
  import opened Prelude
  import opened Core
  import opened Ordering
  import opened Erasure
  import opened Network
  import Directory
  import RefModel
  import opened Peer
  import opened TransportRepair
  import opened TransportSafety
  import opened TransportLiveness

  // --------------------------------------------------------------- audit

  /** The provider's peer can be reached and transfers shards. */
  predicate Answers(swarm: Swarm, client: string, p: ProviderRecord) {
    client in swarm && p.peerId in swarm && ShardTransferV0 in swarm[p.peerId].descriptor.protocols
  }

  predicate HasShard(swarm: Swarm, p: ProviderRecord) {
    p.peerId in swarm && p.shard.shardCid in swarm[p.peerId].shards
  }

  predicate HasGoodShard(lib: Peer.Library, swarm: Swarm, p: ProviderRecord) {
    HasShard(swarm, p) && var e := swarm[p.peerId].shards[p.shard.shardCid]; e.shard == p.shard && Intact(lib.hash, e)
  }

  /** What the audit of one provider finds: a good shard, a bad one, or none, where
      an unknown peer holds none; a peer that does not transfer shards is an error. */
  lemma StatusExact(lib: Peer.Library, swarm: Swarm, client: string, p: ProviderRecord)
    ensures var r := Probe(lib, swarm, client, p);
            var known := client in swarm && p.peerId in swarm;
            && (r == Ok(Verified) <==> Answers(swarm, client, p) && HasGoodShard(lib, swarm, p))
            && (r == Ok(Corrupt) <==> Answers(swarm, client, p) && HasShard(swarm, p) && !HasGoodShard(lib, swarm, p))
            && (r == Ok(Missing) <==> !known || (Answers(swarm, client, p) && !HasShard(swarm, p)))
            && (r == Err(NetworkFailed) <==> known && !Answers(swarm, client, p))
            && (r.Err? ==> r == Err(NetworkFailed))
  {
    hide ShardCid;
  }

  /** The providers an audit looks at. */
  function Relevant(providers: seq<ProviderRecord>, segment: Cid, now: nat): seq<ProviderRecord> {
    if providers == [] then []
    else
      var n := |providers| - 1;
      Relevant(providers[..n], segment, now) +
      if providers[n].shard.segmentCid == segment && providers[n].expiresAt > now then [providers[n]] else []
  }

  function Found(lib: Peer.Library, swarm: Swarm, client: string, providers: seq<ProviderRecord>, status: Status): set<nat> {
    set p | p in providers && Probe(lib, swarm, client, p) == Ok(status) :: p.shard.shardIndex
  }

  /** However many providers an index has: it is verified if one of them is, else
      corrupt if one is, else missing. */
  predicate Sorts(lib: Peer.Library, swarm: Swarm, client: string, providers: seq<ProviderRecord>, t: Tally) {
    && t.verified == Found(lib, swarm, client, providers, Verified)
    && t.corrupt == Found(lib, swarm, client, providers, Corrupt) - t.verified
    && t.missing == Found(lib, swarm, client, providers, Missing) - t.verified - t.corrupt
    && t.checked == |providers|
  }

  lemma FoundPush(lib: Peer.Library, swarm: Swarm, client: string, providers: seq<ProviderRecord>, p: ProviderRecord, status: Status)
    ensures Found(lib, swarm, client, providers + [p], status) ==
            Found(lib, swarm, client, providers, status) +
            if Probe(lib, swarm, client, p) == Ok(status) then {p.shard.shardIndex} else {}
  {
    hide Probe;
    assert forall x :: x in providers + [p] <==> x in providers || x == p;
  }

  lemma CountSorts(lib: Peer.Library, swarm: Swarm, client: string, providers: seq<ProviderRecord>, t: Tally, p: ProviderRecord, status: Status)
    requires Sorts(lib, swarm, client, providers, t) && Probe(lib, swarm, client, p) == Ok(status)
    ensures Sorts(lib, swarm, client, providers + [p], t.Count(p.shard.shardIndex, status))
  {
    hide Probe, Found;
    FoundPush(lib, swarm, client, providers, p, Verified);
    FoundPush(lib, swarm, client, providers, p, Corrupt);
    FoundPush(lib, swarm, client, providers, p, Missing);
  }

  lemma NothingFound(lib: Peer.Library, swarm: Swarm, client: string)
    ensures Sorts(lib, swarm, client, [], Tally({}, {}, {}, 0))
  {
    assert forall status :: Found(lib, swarm, client, [], status) == {};
  }

  lemma {:induction false} TallySorts(lib: Peer.Library, swarm: Swarm, client: string, segment: Cid, providers: seq<ProviderRecord>, now: nat)
    ensures var relevant := Relevant(providers, segment, now);
            var t := TallyAll(lib, swarm, client, segment, providers, now);
            && (t.Ok? <==> forall p :: p in relevant ==> Probe(lib, swarm, client, p).Ok?)
            && (t.Ok? ==> Sorts(lib, swarm, client, relevant, t.value))
            && (t.Err? ==> t == Err(NetworkFailed))
  {
    hide Probe, Found, Sorts;
    if providers == [] {
      NothingFound(lib, swarm, client);
    } else {
      var n := |providers| - 1;
      var p, before := providers[n], Relevant(providers[..n], segment, now);
      TallySorts(lib, swarm, client, segment, providers[..n], now);
      StatusExact(lib, swarm, client, p);
      assert before + [] == before;
      assert forall x :: x in before + [p] <==> x in before || x == p;
      var t := TallyAll(lib, swarm, client, segment, providers[..n], now);
      if t.Ok? && Audited(segment, now, p) && Probe(lib, swarm, client, p).Ok? {
        CountSorts(lib, swarm, client, before, t.value, p, Probe(lib, swarm, client, p).value);
      }
    }
  }

  /** An audit for any list of providers, with any number for each index: it fails
      exactly when a provider of the segment that has not expired is a known peer that
      does not transfer shards, and otherwise sorts the indices by their best copy,
      in increasing order, and draws its conclusions from the counts. */
  lemma TransportAuditExact(lib: Peer.Library, swarm: Swarm, client: string, segment: Cid, total: nat, required: nat,
                            providers: seq<ProviderRecord>, now: nat)
    ensures var relevant := Relevant(providers, segment, now);
            var r := TransportAudit(lib, swarm, client, segment, total, required, providers, now);
            && (r.Err? <==> exists p :: p in relevant && client in swarm && p.peerId in swarm && !Answers(swarm, client, p))
            && (r.Ok? ==>
                  && Sorts(lib, swarm, client, relevant,
                           Tally(Members(r.value.verified), Members(r.value.missing), Members(r.value.corrupt), r.value.checked))
                  && Ascending(r.value.verified, NatLe) && Ascending(r.value.missing, NatLe) && Ascending(r.value.corrupt, NatLe)
                  && (r.value.durable <==> |r.value.verified| >= required)
                  && (r.value.repairNeeded <==>
                        |r.value.verified| < total || r.value.missing != [] || r.value.corrupt != [] || r.value.checked < total))
  {
    hide Probe, Sorts, TallyAll, Ascending, Answers, Audited, InOrder;
    TallySorts(lib, swarm, client, segment, providers, now);
    forall p
      ensures Probe(lib, swarm, client, p).Err? <==> client in swarm && p.peerId in swarm && !Answers(swarm, client, p)
    {
      StatusExact(lib, swarm, client, p);
    }
    var t := TallyAll(lib, swarm, client, segment, providers, now);
    if t.Ok? {
      InOrderMembers(t.value.verified);
      InOrderMembers(t.value.missing);
      InOrderMembers(t.value.corrupt);
    }
  }

  lemma InOrderMembers(s: set<nat>)
    ensures Members(InOrder(s)) == s && Ascending(InOrder(s), NatLe) && |InOrder(s)| == |s|
  {
    hide Ascending;
  }

  // ---------------------------------------------------------------- places

  /** The provider that counts for an index is the last one listed for it. */
  lemma {:induction false} ByIndexExact(providers: seq<ProviderRecord>, i: nat)
    requires i < |providers| && forall j :: i < j < |providers| ==> providers[j].shard.shardIndex != providers[i].shard.shardIndex
    ensures ByIndex(providers, providers[i].shard.shardIndex) == Some(providers[i])
  {
    if i < |providers| - 1 { ByIndexExact(providers[..|providers| - 1], i); }
  }

  /** A peer that takes shards: known, with the storage role and shard transfer. */
  predicate Takes(swarm: Swarm, client: string, id: string) {
    && client in swarm && id in swarm
    && StorageRole in swarm[id].descriptor.roles && ShardTransferV0 in swarm[id].descriptor.protocols
  }

  predicate ValidPeers(swarm: Swarm) {
    forall id :: id in swarm ==> swarm[id].descriptor.Valid()
  }

  lemma StoreExactly(lib: Peer.Library, swarm: Swarm, client: string, p: ProviderRecord, s: Segment, policy: StoragePolicy, j: nat, bytes: Bytes,
                     leaseEpoch: nat, expiresAt: nat)
    requires ValidPeers(swarm) && ValidRegion(p.region) && expiresAt > 0
    requires policy.dataShards > 0 && j < policy.Total()
    ensures var shard := MakeShard(lib.hash, s, policy, j, bytes);
            var (r, after) := StoreRepaired(lib, swarm, client, p, shard, leaseEpoch, expiresAt);
            && ValidPeers(after) && SameDescriptors(swarm, after)
            && (Takes(swarm, client, p.peerId) ==>
                  r == Ok(p.(shard := ShardRef(s.cid, shard.cid, j), leaseEpoch := leaseEpoch, expiresAt := expiresAt)))
            && (!Takes(swarm, client, p.peerId) ==> r == Err(NetworkFailed) && after == swarm)
  {
    hide ShardCid, Directory.Put, ValidRegion, ValidPeerId, ValidOperatorId;
    var envelope := ToEnvelope(lib.hash, MakeShard(lib.hash, s, policy, j, bytes)).value;
    assert Intact(lib.hash, envelope);
    if client in swarm && p.peerId in swarm { StoreExact(lib, swarm[p.peerId], envelope, leaseEpoch, expiresAt); }
    StoreFrame(lib, swarm, client, p, MakeShard(lib.hash, s, policy, j, bytes), leaseEpoch, expiresAt);
  }

  /** A rebuilt shard goes to the first of its two places that takes it: a missing
      one to the replacement and then to its own provider, a corrupt one the other
      way round; and if neither takes it, that is the error and nothing is stored. */
  lemma StorePlacesExact(lib: Peer.Library, q: RepairRequest, swarm: Swarm, after: seq<ProviderRecord>, target: ProviderRecord,
                         isMissing: bool, j: nat, bytes: Bytes)
    requires ValidPeers(swarm) && ValidRegion(target.region) && q.expiresAt > 0
    requires forall d :: d in q.replacements ==> ValidRegion(d.region)
    requires q.policy.dataShards > 0 && j < q.policy.Total()
    ensures var shard := MakeShard(lib.hash, q.segment, q.policy, j, bytes);
            var chosen := ChooseRepairTarget(after, target, q.replacements);
            var first, second := if isMissing then chosen else target, if isMissing then target else chosen;
            var (r, swarm1) := StoreSomewhere(lib, q, swarm, after, target, isMissing, shard);
            if Takes(swarm, q.client, first.peerId) then (r, swarm1) == StoreRepaired(lib, swarm, q.client, first, shard, q.leaseEpoch, q.expiresAt) && r.Ok?
            else if Takes(swarm, q.client, second.peerId) then
              (r, swarm1) == StoreRepaired(lib, swarm, q.client, second, shard, q.leaseEpoch, q.expiresAt) && r.Ok?
            else r == Err(NetworkFailed) && swarm1 == swarm
  {
    hide StoreRepaired, MakeShard, Takes, ValidRegion, ValidPeers, SameDescriptors, BestReplacement;
    var chosen := ChooseRepairTarget(after, target, q.replacements);
    ChosenRegion(after, target, q.replacements);
    StoreExactly(lib, swarm, q.client, chosen, q.segment, q.policy, j, bytes, q.leaseEpoch, q.expiresAt);
    StoreExactly(lib, swarm, q.client, target, q.segment, q.policy, j, bytes, q.leaseEpoch, q.expiresAt);
    if q.replacements == [] { NoChoice(after, target); }
  }

  lemma ChosenRegion(after: seq<ProviderRecord>, target: ProviderRecord, replacements: seq<NodeDescriptor>)
    requires ValidRegion(target.region) && forall d :: d in replacements ==> ValidRegion(d.region)
    ensures ValidRegion(ChooseRepairTarget(after, target, replacements).region)
  {
    hide ValidRegion, Replacement;
  }

  lemma NoChoice(after: seq<ProviderRecord>, target: ProviderRecord)
    ensures ChooseRepairTarget(after, target, []) == target
  {
  }

  // --------------------------------------------------------------- rebuild

  /** A fetched envelope is taken exactly when it is intact, and becomes the same shard. */
  lemma EnvelopeExact(hash: Hash, e: Envelope)
    ensures FromEnvelope(hash, e).Ok? <==> Intact(hash, e)
    ensures Intact(hash, e) ==>
              FromEnvelope(hash, e).value == Shard(e.shard.segmentCid, e.shard.shardIndex, e.shardCount, e.dataShards, e.bytes, e.shard.shardCid)
    ensures FromEnvelope(hash, e).Err? ==> FromEnvelope(hash, e) == Err(NetworkFailed)
  {
    hide ShardCid;
  }

  /** A shard with sound counts is sent under the identifier of its own bytes,
      whatever identifier it came with; others are not sent. */
  lemma SentIntact(hash: Hash, x: Shard)
    ensures ToEnvelope(hash, x).Ok? <==> 0 < x.dataShards <= x.count && x.index < x.count
    ensures ToEnvelope(hash, x).Ok? ==>
              var e := ToEnvelope(hash, x).value;
              && Intact(hash, e) && e.shard.segmentCid == x.segmentCid && e.shard.shardIndex == x.index
              && e.shardCount == x.count && e.dataShards == x.dataShards && e.bytes == x.bytes
  {
    hide ShardCid;
  }

  /** A shard that is used: of this segment and policy, in range, and under the
      identifier of its own bytes. */
  predicate Usable(hash: Hash, s: Segment, p: StoragePolicy, x: Shard) {
    && x.segmentCid == s.cid && x.count == p.dataShards + p.parityShards && x.dataShards == p.dataShards
    && x.index < p.dataShards + p.parityShards && x.cid == ShardCid(hash, s.cid, x.index, x.bytes)
  }

  function UsablePlaces(hash: Hash, s: Segment, p: StoragePolicy, stored: seq<Shard>): set<nat> {
    set x | x in stored && Usable(hash, s, p, x) :: x.index
  }

  lemma UsablePush(hash: Hash, s: Segment, p: StoragePolicy, stored: seq<Shard>, x: Shard)
    ensures UsablePlaces(hash, s, p, stored + [x]) == UsablePlaces(hash, s, p, stored) + if Usable(hash, s, p, x) then {x.index} else {}
    ensures UsablePlaces(hash, s, p, []) == {}
  {
    hide Usable;
    assert forall y :: y in stored + [x] <==> y in stored || y == x;
  }

  lemma UsableIsVerified(hash: Hash, s: Segment, p: StoragePolicy, x: Shard)
    ensures VerifyShard(hash, s, p, x) <==> Usable(hash, s, p, x)
    ensures Usable(hash, s, p, x) ==> x.index < p.Total()
  {
    hide ShardCid;
  }

  lemma {:induction false} UsableSlots(hash: Hash, s: Segment, p: StoragePolicy, word: seq<Bytes>, stored: seq<Shard>)
    requires |word| == p.Total() && forall x :: x in stored && Usable(hash, s, p, x) ==> x.index < |word| && x.bytes == word[x.index]
    ensures PartOf(VerifiedSlots(hash, s, p, stored), word)
    ensures Present(VerifiedSlots(hash, s, p, stored)) == UsablePlaces(hash, s, p, stored)
    ensures |UsablePlaces(hash, s, p, stored)| <= |stored|
  {
    hide VerifyShard, Usable, UsablePlaces;
    if stored == [] {
      UsablePush(hash, s, p, [], Shard(s.cid, 0, 0, 0, [], s.cid));
      assert Present(VerifiedSlots(hash, s, p, stored)) == {};
    } else {
      var before, last := stored[..|stored| - 1], stored[|stored| - 1];
      assert stored == before + [last];
      UsableSlots(hash, s, p, word, before);
      UsablePush(hash, s, p, before, last);
      UsableIsVerified(hash, s, p, last);
      if Usable(hash, s, p, last) {
        assert Present(VerifiedSlots(hash, s, p, stored)) == Present(VerifiedSlots(hash, s, p, before)) + {last.index};
      }
    }
  }

  /** All shards are rebuilt from any list, in any order and with any others mixed in,
      exactly when the usable ones fill at least `k` places; the result is then
      exactly the encoder's shards, and otherwise the count that was too small. */
  lemma RebuildExact(hash: Hash, rs: ReedSolomon, s: Segment, p: StoragePolicy, stored: seq<Shard>)
    requires LawfulCode(rs, s, p)
    requires forall x :: x in stored && Usable(hash, s, p, x) && x.index < |Codeword(rs, s, p).value| ==> x.bytes == Codeword(rs, s, p).value[x.index]
    ensures var places := |UsablePlaces(hash, s, p, stored)|;
            ReconstructAll(hash, rs, s, p, stored) ==
              if places >= p.dataShards then Encode(hash, rs, s, p)
              else Err(NotEnoughShards(if |stored| < p.dataShards then |stored| else places, p.dataShards))
  {
    hide Codeword, Mds, DivCeil, MakeShard, VerifiedSlots, Present, PartOf, Usable, UsablePlaces;
    CodewordFacts(rs, s, p);
    LawfulCodeword(rs, s, p);
    var word := Codeword(rs, s, p).value;
    assert forall x :: x in stored && Usable(hash, s, p, x) ==> x.index < |word| by { UsableInRange(hash, s, p, stored); }
    UsableSlots(hash, s, p, word, stored);
    if |UsablePlaces(hash, s, p, stored)| >= p.dataShards {
      var length := DivCeil(|s.ciphertext|, p.dataShards);
      forall i | 0 <= i < |word|
        ensures Resize(word[i], length) == word[i]
      {
        assert word[i] in word;
      }
      assert RebuiltShards(hash, s, p, word) == ShardsOf(hash, s, p, word);
    }
  }

  lemma UsableInRange(hash: Hash, s: Segment, p: StoragePolicy, stored: seq<Shard>)
    ensures forall x :: x in stored && Usable(hash, s, p, x) ==> x.index < p.Total()
  {
  }

  // --------------------------------------------------------- transaction ids

  /** Two publications share a transaction id exactly when they are for the same
      segment, shard, peer and lease, so renewing a lease is never taken for a repeat. */
  lemma PublishIdsExact(a: ProviderRecord, b: ProviderRecord)
    requires ValidPeerId(a.peerId) && ValidPeerId(b.peerId)
    ensures PublishTransactionId(a) == PublishTransactionId(b) <==>
            && a.shard.segmentCid == b.shard.segmentCid && a.shard.shardCid == b.shard.shardCid && a.peerId == b.peerId
            && a.leaseEpoch == b.leaseEpoch && a.expiresAt == b.expiresAt
  {
    hide CidText, Dec;
    if PublishTransactionId(a) == PublishTransactionId(b) {
      IdUnfold(a);
      IdUnfold(b);
      var a3, b3 := Dec(a.leaseEpoch) + [':'] + Dec(a.expiresAt), Dec(b.leaseEpoch) + [':'] + Dec(b.expiresAt);
      var a2, b2 := a.peerId + [':'] + a3, b.peerId + [':'] + b3;
      var a1, b1 := CidText(a.shard.shardCid) + [':'] + a2, CidText(b.shard.shardCid) + [':'] + b2;
      SeparatorCancel("publish-provider", CidText(a.shard.segmentCid) + [':'] + a1, "publish-provider", CidText(b.shard.segmentCid) + [':'] + b1, ':');
      RefModel.CidTextCancel(a.shard.segmentCid, a1, b.shard.segmentCid, b1);
      RefModel.CidTextCancel(a.shard.shardCid, a2, b.shard.shardCid, b2);
      assert ':' !in a.peerId && ':' !in b.peerId;
      SeparatorCancel(a.peerId, a3, b.peerId, b3, ':');
      assert forall c :: c in Dec(a.leaseEpoch) || c in Dec(b.leaseEpoch) ==> IsDigit(c);
      SeparatorCancel(Dec(a.leaseEpoch), Dec(a.expiresAt), Dec(b.leaseEpoch), Dec(b.expiresAt), ':');
      DecInjective(a.leaseEpoch, b.leaseEpoch);
      DecInjective(a.expiresAt, b.expiresAt);
    }
  }

  lemma IdUnfold(p: ProviderRecord)
    ensures PublishTransactionId(p) ==
            "publish-provider" + [':'] + (CidText(p.shard.segmentCid) + [':'] + (CidText(p.shard.shardCid) + [':'] +
              (p.peerId + [':'] + (Dec(p.leaseEpoch) + [':'] + Dec(p.expiresAt)))))
  {
    hide CidText, Dec;
    var f := ["publish-provider", CidText(p.shard.segmentCid), CidText(p.shard.shardCid), p.peerId, Dec(p.leaseEpoch), Dec(p.expiresAt)];
    assert f[1..][0] == f[1] && f[1..][1..][0] == f[2] && f[1..][1..][1..][0] == f[3];
    assert f[1..][1..][1..][1..] == [f[4], f[5]];
    assert Join([f[4], f[5]], ':') == f[4] + [':'] + f[5];
    assert Join(f[1..][1..][1..], ':') == f[3] + [':'] + Join([f[4], f[5]], ':');
    assert Join(f[1..][1..], ':') == f[2] + [':'] + Join(f[1..][1..][1..], ':');
    assert Join(f[1..], ':') == f[1] + [':'] + Join(f[1..][1..], ':');
  }

  // --------------------------------------------------------------- outcomes

  /** What a successful repair reports, whatever the swarm: the audit it began with;
      without work to do, the providers as they were and an untouched swarm; with
      work, the audit of the providers it returns in the swarm it leaves, and whether
      they then verify at least `k` places. */
  lemma RepairReports(lib: Peer.Library, rs: ReedSolomon, q: RepairRequest, swarm: Swarm)
    requires Repair(lib, rs, q, swarm).0.Ok?
    ensures var (r, after) := Repair(lib, rs, q, swarm);
            var o := r.value;
            var total, k := q.policy.dataShards + q.policy.parityShards, q.policy.dataShards;
            && Ok(o.before) == TransportAudit(lib, swarm, q.client, q.segment.cid, total, k, q.providers, q.now)
            && |o.before.verified| >= k
            && (if o.before.repairNeeded then
                  && Ok(o.after) == TransportAudit(lib, after, q.client, q.segment.cid, total, k, o.providers, q.now)
                  && (o.durable <==> |o.after.verified| >= k)
                  && forall i :: i in o.repaired ==> i in o.before.missing || i in o.before.corrupt
                else o.after == o.before && o.durable && o.repaired == [] && o.providers == q.providers && after == swarm)
  {
    hide TallyAll, Rebuild, RepairLoop, PublishAll, Relet, InOrder;
    var before := AuditFor(lib, q, swarm, q.providers).value;
    if before.repairNeeded {
      var rebuilt := Rebuild(lib, rs, q, swarm, Members(before.verified)).value;
      var targets := InOrder(Members(before.missing) + Members(before.corrupt));
      LoopRepairs(lib, q, rebuilt, Members(before.missing), targets, swarm);
      var st := RepairLoop(lib, q, rebuilt, Members(before.missing), targets, swarm).0.value;
      assert Repair(lib, rs, q, swarm).0.value.repaired == st.repaired;
      forall i | i in st.repaired
        ensures i in before.missing || i in before.corrupt
      {
        assert i in targets;
        assert i in Members(before.missing) + Members(before.corrupt);
      }
    }
  }

  lemma {:induction false} LoopRepairs(lib: Peer.Library, q: RepairRequest, rebuilt: seq<Shard>, missing: set<nat>, targets: seq<nat>, swarm: Swarm)
    ensures var r := RepairLoop(lib, q, rebuilt, missing, targets, swarm).0;
            r.Ok? ==> forall i :: i in r.value.repaired ==> i in targets
  {
    hide StoreSomewhere, Relist, ByIndex;
    if targets != [] {
      var n := |targets| - 1;
      LoopRepairs(lib, q, rebuilt, missing, targets[..n], swarm);
      assert targets == targets[..n] + [targets[n]];
      var (before, swarm1) := RepairLoop(lib, q, rebuilt, missing, targets[..n], swarm);
      var after := RepairLoop(lib, q, rebuilt, missing, targets, swarm).0;
      if after.Ok? { assert forall i :: i in after.value.repaired ==> i in before.value.repaired || i == targets[n]; }
    }
  }
}
