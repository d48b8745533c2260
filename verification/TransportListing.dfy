/** What a transport repair tells the directory peer: every record it returns is
    covered there, whatever was published before and however often it is repeated. */
module TransportListing {
  import opened Prelude
  import opened Core
  import opened Ordering
  import opened Erasure
  import opened Network
  import opened Directory
  import opened Peer
  import opened TransportRepair

  // ---------------------------------------------------- receipts are backed

  /** Every receipt for a publication stands for an entry that is covered. */
  ghost predicate Backed(s: PeerState) {
    && Filed(s.directory)
    && forall tx :: tx in s.receipts && s.receipts[tx].0.PublishProvider? ==> Covers(s.directory, s.receipts[tx].0.record)
  }

  lemma FreshBacked(descriptor: NodeDescriptor)
    ensures Backed(FreshPeer(descriptor))
  {
  }

  lemma PutBacked(s: PeerState, e: Entry)
    requires Backed(s)
    ensures Backed(s.(directory := Put(s.directory, e)))
  {
    hide Put, Covers, Filed;
    PutCovers(s.directory, e);
    forall tx | tx in s.receipts && s.receipts[tx].0.PublishProvider?
      ensures Covers(Put(s.directory, e), s.receipts[tx].0.record)
    {
      PutKeepsCovered(s.directory, e, s.receipts[tx].0.record);
    }
  }

  /** A request that is not wrapped publishes at most one entry. */
  lemma DirectBacked(lib: Peer.Library, s: PeerState, request: Request)
    requires Backed(s) && !request.Idempotent?
    ensures Backed(Respond(lib, s, request).1)
    ensures request.PublishProvider? && Respond(lib, s, request).0.Ok? ==> Covers(Respond(lib, s, request).1.directory, request.record)
  {
    hide Put, Covers, Filed, VerifyEnvelope, HandleRead, SigningTranscript;
    match request
    case PublishProvider(r) =>
      PutCovers(s.directory, Entry(r, None));
      PutBacked(s, Entry(r, None));
    case PublishSigned(r, evidence, _) => PutBacked(s, Entry(r, Some(evidence)));
    case PutShard(e, leaseEpoch, expiresAt) =>
      var record := OwnRecord(s.descriptor, e.shard, leaseEpoch, expiresAt);
      if record.Ok? { PutBacked(s, Entry(record.value, None)); }
    case _ =>
  }

  /** Whatever is requested, in any order and however often, receipts stay backed,
      and a successful publication is covered even if it was only answered from a receipt. */
  lemma RequestBacked(lib: Peer.Library, s: PeerState, request: Request)
    requires Backed(s)
    ensures Backed(Respond(lib, s, request).1)
    ensures request.Idempotent? && request.inner.PublishProvider? && Respond(lib, s, request).0.Ok? ==>
              Covers(Respond(lib, s, request).1.directory, request.inner.record)
  {
    hide Covers, Filed, HandlePut, HandlePublish, HandleRead;
    if request.Idempotent? {
      if !request.inner.Idempotent? {
        DirectBacked(lib, s, request.inner);
        DirectKeepsReceipts(lib, s, request.inner);
      }
    } else {
      DirectBacked(lib, s, request);
    }
  }

  ghost predicate BackedAt(swarm: Swarm, id: string) {
    id in swarm && Backed(swarm[id])
  }

  lemma SwarmBacked(lib: Peer.Library, swarm: Swarm, sender: string, to: string, request: Request, id: string)
    requires BackedAt(swarm, id)
    ensures BackedAt(SwarmRequest(lib, swarm, sender, to, request).1, id)
  {
    hide Backed, Respond;
    if to in swarm && to == id { RequestBacked(lib, swarm[id], request); }
  }

  // --------------------------------------------------------- publications

  lemma {:induction false} StaysCovered(lib: Peer.Library, s: PeerState, request: Request, r: ProviderRecord)
    requires Backed(s) && Covers(s.directory, r)
    ensures Covers(Respond(lib, s, request).1.directory, r)
    decreases request
  {
    hide Put, Covers, Filed, VerifyEnvelope, HandleRead, SigningTranscript, ValidTransactionId;
    match request
    case Idempotent(tx, inner) => StaysCovered(lib, s, inner, r);
    case PublishProvider(record) => PutKeepsCovered(s.directory, Entry(record, None), r);
    case PublishSigned(record, evidence, _) => PutKeepsCovered(s.directory, Entry(record, Some(evidence)), r);
    case PutShard(e, leaseEpoch, expiresAt) =>
      var record := OwnRecord(s.descriptor, e.shard, leaseEpoch, expiresAt);
      if record.Ok? { PutKeepsCovered(s.directory, Entry(record.value, None), r); }
    case _ =>
  }

  /** After a successful publication of a list every record of it is covered. */
  lemma {:induction false} PublishedCovered(lib: Peer.Library, swarm: Swarm, client: string, directory: string, providers: seq<ProviderRecord>)
    requires BackedAt(swarm, directory) && PublishAll(lib, swarm, client, directory, providers).0.Ok?
    ensures var after := PublishAll(lib, swarm, client, directory, providers).1;
            BackedAt(after, directory) && forall p :: p in providers ==> Covers(after[directory].directory, p)
  {
    hide Backed, Covers, Respond, PublishTransactionId, ValidTransactionId;
    if providers != [] {
      var p, before := providers[|providers| - 1], providers[..|providers| - 1];
      PublishedCovered(lib, swarm, client, directory, before);
      var swarm1 := PublishAll(lib, swarm, client, directory, before).1;
      var request := Idempotent(PublishTransactionId(p), PublishProvider(p));
      RequestBacked(lib, swarm1[directory], request);
      forall r | r in before
        ensures Covers(Respond(lib, swarm1[directory], request).1.directory, r)
      {
        StaysCovered(lib, swarm1[directory], request, r);
      }
      assert providers == before + [p];
    }
  }

  lemma StoreBacked(lib: Peer.Library, swarm: Swarm, client: string, p: ProviderRecord, shard: Shard, leaseEpoch: nat, expiresAt: nat, id: string)
    requires BackedAt(swarm, id)
    ensures BackedAt(StoreRepaired(lib, swarm, client, p, shard, leaseEpoch, expiresAt).1, id)
  {
    hide BackedAt, SwarmRequest, StoredRecord;
    if ToEnvelope(lib.hash, shard).Ok? {
      SwarmBacked(lib, swarm, client, p.peerId, PutShard(ToEnvelope(lib.hash, shard).value, leaseEpoch, expiresAt), id);
    }
  }

  lemma {:induction false} LoopBacked(lib: Peer.Library, q: RepairRequest, rebuilt: seq<Shard>, missing: set<nat>, targets: seq<nat>, swarm: Swarm, id: string)
    requires BackedAt(swarm, id)
    ensures BackedAt(RepairLoop(lib, q, rebuilt, missing, targets, swarm).1, id)
  {
    hide BackedAt, StoreRepaired, ChooseRepairTarget, Relist;
    if targets != [] {
      var index := targets[|targets| - 1];
      LoopBacked(lib, q, rebuilt, missing, targets[..|targets| - 1], swarm, id);
      var (before, swarm1) := RepairLoop(lib, q, rebuilt, missing, targets[..|targets| - 1], swarm);
      if before.Ok? && ByIndex(q.providers, index).Some? && index < |rebuilt| {
        SomewhereBacked(lib, q, swarm1, before.value.providers, ByIndex(q.providers, index).value, index in missing, rebuilt[index], id);
      }
    }
  }

  lemma SomewhereBacked(lib: Peer.Library, q: RepairRequest, swarm: Swarm, after: seq<ProviderRecord>, target: ProviderRecord,
                        isMissing: bool, shard: Shard, id: string)
    requires BackedAt(swarm, id)
    ensures BackedAt(StoreSomewhere(lib, q, swarm, after, target, isMissing, shard).1, id)
  {
    hide BackedAt, StoreRepaired, ChooseRepairTarget;
    var chosen := ChooseRepairTarget(after, target, q.replacements);
    var preferred := if isMissing then chosen else target;
    StoreBacked(lib, swarm, q.client, preferred, shard, q.leaseEpoch, q.expiresAt, id);
    var swarm1 := StoreRepaired(lib, swarm, q.client, preferred, shard, q.leaseEpoch, q.expiresAt).1;
    StoreBacked(lib, swarm1, q.client, target, shard, q.leaseEpoch, q.expiresAt, id);
    StoreBacked(lib, swarm1, q.client, chosen, shard, q.leaseEpoch, q.expiresAt, id);
  }

  /** After a repair that had work to do, every provider it returns carries the new
      lease and is covered at the directory peer. */
  lemma RepairPublished(lib: Peer.Library, rs: ReedSolomon, q: RepairRequest, swarm: Swarm)
    requires q.directoryPeer.Some? && BackedAt(swarm, q.directoryPeer.value)
    requires var r := Repair(lib, rs, q, swarm).0; r.Ok? && r.value.before.repairNeeded
    ensures var (r, after) := Repair(lib, rs, q, swarm);
            && BackedAt(after, q.directoryPeer.value)
            && forall p :: p in r.value.providers ==>
                 p.leaseEpoch == q.leaseEpoch && p.expiresAt == q.expiresAt && Covers(after[q.directoryPeer.value].directory, p)
  {
    hide BackedAt, Covers, AuditFor, Rebuild, RepairLoop, PublishAll, Relet, InOrder, Members;
    var before := AuditFor(lib, q, swarm, q.providers).value;
    var rebuilt := Rebuild(lib, rs, q, swarm, Members(before.verified)).value;
    var targets := InOrder(Members(before.missing) + Members(before.corrupt));
    LoopBacked(lib, q, rebuilt, Members(before.missing), targets, swarm, q.directoryPeer.value);
    var (looped, swarm1) := RepairLoop(lib, q, rebuilt, Members(before.missing), targets, swarm);
    var providers := Relet(looped.value.providers, q.leaseEpoch, q.expiresAt);
    PublishedCovered(lib, swarm1, q.client, q.directoryPeer.value, providers);
    ReletMembers(looped.value.providers, q.leaseEpoch, q.expiresAt);
  }

  lemma ReletMembers(providers: seq<ProviderRecord>, leaseEpoch: nat, expiresAt: nat)
    ensures forall p :: p in Relet(providers, leaseEpoch, expiresAt) ==> p.leaseEpoch == leaseEpoch && p.expiresAt == expiresAt
  {
  }

  // ------------------------------------------------------ the replacement

  /** The least by peer id, of an unused operator if there is one. */
  predicate LeastOf(d: NodeDescriptor, candidates: set<NodeDescriptor>, used: set<string>) {
    forall e :: e in candidates ==>
      if d.operatorId in used then e.operatorId in used && StrLe(d.peerId, e.peerId)
      else e.operatorId !in used ==> StrLe(d.peerId, e.peerId)
  }

  /** The node chosen to take a shard can store, is not among the current providers,
      and is the least by peer id among the candidates of unused operators, or among
      all if every operator is used; without candidates the old place is kept. */
  lemma ChoiceExact(after: seq<ProviderRecord>, fallback: ProviderRecord, ds: seq<NodeDescriptor>)
    ensures var candidates := set d | d in ds && StorageRole in d.roles && ShardTransferV0 in d.protocols && forall p :: p in after ==> p.peerId != d.peerId;
            var used := set p | p in after :: p.operatorId;
            var choice := ChooseRepairTarget(after, fallback, ds);
            && (candidates == {} ==> choice == fallback)
            && (candidates != {} ==>
                  exists d :: d in candidates && LeastOf(d, candidates, used) &&
                    choice == fallback.(peerId := d.peerId, operatorId := d.operatorId, region := d.region, roles := d.roles))
  {
    hide StrLe;
    var best := BestReplacement(ds, PeersOf(after), OperatorsOf(after));
    BestIsLeast(ds, PeersOf(after), OperatorsOf(after));
    var candidates := set d | d in ds && StorageRole in d.roles && ShardTransferV0 in d.protocols && forall p :: p in after ==> p.peerId != d.peerId;
    assert forall d :: d in candidates <==> d in ds && Replacement(d, PeersOf(after));
    if best.Some? { assert best.value in candidates && LeastOf(best.value, candidates, OperatorsOf(after)); }
  }
}
