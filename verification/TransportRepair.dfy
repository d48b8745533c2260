/** gitmesh-storage: audit and repair of a segment's shards over a transport.  The
    transport is the in-memory swarm. */
module TransportRepair {
  import opened Prelude
  import opened Core
  import opened Ordering
  import opened Erasure
  import opened Network
  import opened Directory
  import opened Peer

  // --------------------------------------------------------------- audit

  /** What the audit of one provider finds; an unknown peer holds nothing. */
  function Probe(lib: Library, swarm: Swarm, client: string, p: ProviderRecord): Result<Status, StorageError> {
    match SwarmRequest(lib, swarm, client, p.peerId, AuditShard(p.shard)).0
    case Ok(ShardAudited(_, present, valid)) => Ok(if valid then Verified else if present then Corrupt else Missing)
    case Ok(_) => Err(NetworkFailed)
    case Err(UnknownPeer) => Ok(Missing)
    case Err(ShardNotFound) => Ok(Missing)
    case Err(_) => Err(NetworkFailed)
  }

  datatype Tally = Tally(verified: set<nat>, missing: set<nat>, corrupt: set<nat>, checked: nat) {
    /** A verified copy of an index outweighs a corrupt one, and that a missing one. */
    function Count(index: nat, status: Status): Tally {
      match status
      case Verified => Tally(verified + {index}, missing - {index}, corrupt - {index}, checked + 1)
      case Corrupt =>
        if index in verified then Tally(verified, missing, corrupt, checked + 1)
        else Tally(verified, missing - {index}, corrupt + {index}, checked + 1)
      case Missing =>
        if index in verified || index in corrupt then Tally(verified, missing, corrupt, checked + 1)
        else Tally(verified, missing + {index}, corrupt, checked + 1)
    }
  }

  predicate Audited(segment: Cid, now: nat, p: ProviderRecord) {
    p.shard.segmentCid == segment && p.ActiveAt(now)
  }

  function TallyAll(lib: Library, swarm: Swarm, client: string, segment: Cid, providers: seq<ProviderRecord>, now: nat): Result<Tally, StorageError> {
    if providers == [] then Ok(Tally({}, {}, {}, 0))
    else
      var p := providers[|providers| - 1];
      match TallyAll(lib, swarm, client, segment, providers[..|providers| - 1], now)
      case Err(e) => Err(e)
      case Ok(t) =>
        if !Audited(segment, now, p) then Ok(t)
        else
          match Probe(lib, swarm, client, p)
          case Err(e) => Err(e)
          case Ok(status) => Ok(t.Count(p.shard.shardIndex, status))
  }

  datatype TransportReport = TransportReport(total: nat, required: nat, checked: nat, verified: seq<nat>, missing: seq<nat>,
                                             corrupt: seq<nat>, durable: bool, repairNeeded: bool)

  predicate NatLe(a: nat, b: nat) { a <= b }

  /** The members of a `BTreeSet` in order. */
  function InOrder(s: set<nat>): (r: seq<nat>)
    ensures |r| == |s|
    ensures forall i :: i in r <==> i in s
    ensures Ascending(r, NatLe)
  {
    Sorted(s, NatLe)
  }

  function ReportOf(t: Tally, total: nat, required: nat): TransportReport {
    TransportReport(total, required, t.checked, InOrder(t.verified), InOrder(t.missing), InOrder(t.corrupt),
                    |t.verified| >= required,
                    |t.verified| < total || |t.missing| + |t.corrupt| > 0 || t.checked < total)
  }

  function TransportAudit(lib: Library, swarm: Swarm, client: string, segment: Cid, total: nat, required: nat,
                          providers: seq<ProviderRecord>, now: nat): Result<TransportReport, StorageError>
  {
    match TallyAll(lib, swarm, client, segment, providers, now)
    case Ok(t) => Ok(ReportOf(t, total, required))
    case Err(e) => Err(e)
  }

  lemma ReadsChangeNothing(lib: Library, swarm: Swarm, client: string, to: string, request: Request)
    requires request.AuditShard? || request.GetShard?
    ensures SwarmRequest(lib, swarm, client, to, request).1 == swarm
  {
    hide HandleRead;
  }

  /** `audit_shards_via_transport`. */
  method AuditShardsViaTransport(lib: Library, swarm: InMemorySwarm, client: string, segment: Cid, total: nat, required: nat,
                                 providers: seq<ProviderRecord>, now: nat) returns (r: Result<TransportReport, StorageError>)
    modifies swarm
    ensures swarm.peers == old(swarm.peers)
    ensures r == TransportAudit(lib, swarm.peers, client, segment, total, required, providers, now)
  {
    hide SwarmRequest, ReportOf, Ascending;
    var t := Tally({}, {}, {}, 0);
    for k := 0 to |providers|
      invariant swarm.peers == old(swarm.peers)
      invariant TallyAll(lib, swarm.peers, client, segment, providers[..k], now) == Ok(t)
    {
      var p := providers[k];
      assert providers[..k + 1][..k] == providers[..k];
      if Audited(segment, now, p) {
        ReadsChangeNothing(lib, swarm.peers, client, p.peerId, AuditShard(p.shard));
        var answer := swarm.Request(lib, client, p.peerId, AuditShard(p.shard));
        var status: Status;
        match answer {
          case Ok(ShardAudited(_, present, valid)) => status := if valid then Verified else if present then Corrupt else Missing;
          case Ok(_) => TallyFails(lib, swarm.peers, client, segment, providers, now, k + 1); return Err(NetworkFailed);
          case Err(UnknownPeer) => status := Missing;
          case Err(ShardNotFound) => status := Missing;
          case Err(_) => TallyFails(lib, swarm.peers, client, segment, providers, now, k + 1); return Err(NetworkFailed);
        }
        t := t.Count(p.shard.shardIndex, status);
      }
    }
    assert providers[..|providers|] == providers;
    return Ok(ReportOf(t, total, required));
  }

  lemma {:induction false} TallyFails(lib: Library, swarm: Swarm, client: string, segment: Cid, providers: seq<ProviderRecord>, now: nat, k: nat)
    requires k <= |providers| && TallyAll(lib, swarm, client, segment, providers[..k], now).Err?
    ensures TallyAll(lib, swarm, client, segment, providers, now) == TallyAll(lib, swarm, client, segment, providers[..k], now)
    decreases |providers|
  {
    hide Probe, Audited;
    if k < |providers| {
      assert providers[..|providers| - 1][..k] == providers[..k];
      TallyFails(lib, swarm, client, segment, providers[..|providers| - 1], now, k);
    } else {
      assert providers[..k] == providers;
    }
  }

  // --------------------------------------------------------------- fetch

  /** `from_network_envelope`. */
  function FromEnvelope(hash: Hash, e: Envelope): Result<Shard, StorageError> {
    if VerifyEnvelope(hash, e).Err? then Err(NetworkFailed)
    else Ok(Shard(e.shard.segmentCid, e.shard.shardIndex, e.shardCount, e.dataShards, e.bytes, e.shard.shardCid))
  }

  function FetchOne(lib: Library, swarm: Swarm, client: string, p: ProviderRecord): Result<Shard, StorageError> {
    match SwarmRequest(lib, swarm, client, p.peerId, GetShard(p.shard)).0
    case Ok(ShardFound(e)) => FromEnvelope(lib.hash, e)
    case _ => Err(NetworkFailed)
  }

  function FetchAll(lib: Library, swarm: Swarm, client: string, providers: seq<ProviderRecord>, now: nat): Result<seq<Shard>, StorageError> {
    if providers == [] then Ok([])
    else
      var p := providers[|providers| - 1];
      match FetchAll(lib, swarm, client, providers[..|providers| - 1], now)
      case Err(e) => Err(e)
      case Ok(stored) =>
        if !p.ActiveAt(now) then Ok(stored)
        else
          match FetchOne(lib, swarm, client, p)
          case Err(e) => Err(e)
          case Ok(shard) => Ok(stored + [shard])
  }

  lemma {:induction false} FetchFails(lib: Library, swarm: Swarm, client: string, providers: seq<ProviderRecord>, now: nat, k: nat)
    requires k <= |providers| && FetchAll(lib, swarm, client, providers[..k], now).Err?
    ensures FetchAll(lib, swarm, client, providers, now) == FetchAll(lib, swarm, client, providers[..k], now)
    decreases |providers|
  {
    hide FetchOne;
    if k < |providers| {
      assert providers[..|providers| - 1][..k] == providers[..k];
      FetchFails(lib, swarm, client, providers[..|providers| - 1], now, k);
    } else {
      assert providers[..k] == providers;
    }
  }

  /** `fetch_shards_via_transport`. */
  method FetchShardsViaTransport(lib: Library, swarm: InMemorySwarm, client: string, providers: seq<ProviderRecord>, now: nat)
    returns (r: Result<seq<Shard>, StorageError>)
    modifies swarm
    ensures swarm.peers == old(swarm.peers)
    ensures r == FetchAll(lib, swarm.peers, client, providers, now)
  {
    hide SwarmRequest, FromEnvelope;
    var stored: seq<Shard> := [];
    for k := 0 to |providers|
      invariant swarm.peers == old(swarm.peers)
      invariant FetchAll(lib, swarm.peers, client, providers[..k], now) == Ok(stored)
    {
      var p := providers[k];
      assert providers[..k + 1][..k] == providers[..k];
      if p.ActiveAt(now) {
        ReadsChangeNothing(lib, swarm.peers, client, p.peerId, GetShard(p.shard));
        var answer := swarm.Request(lib, client, p.peerId, GetShard(p.shard));
        if answer.Err? || !answer.value.ShardFound? {
          FetchFails(lib, swarm.peers, client, providers, now, k + 1);
          return Err(NetworkFailed);
        }
        var shard := FromEnvelope(lib.hash, answer.value.envelope);
        if shard.Err? {
          FetchFails(lib, swarm.peers, client, providers, now, k + 1);
          return Err(shard.error);
        }
        stored := stored + [shard.value];
      }
    }
    assert providers[..|providers|] == providers;
    return Ok(stored);
  }

  // ------------------------------------------------------------- rebuild

  /** The slots of the shards that pass `verify_shard`; the last of an index wins. */
  function VerifiedSlots(hash: Hash, s: Segment, p: StoragePolicy, stored: seq<Shard>): (slots: seq<Option<Bytes>>)
    ensures |slots| == p.Total()
  {
    if stored == [] then seq(p.Total(), _ => None)
    else
      var last := stored[|stored| - 1];
      var slots := VerifiedSlots(hash, s, p, stored[..|stored| - 1]);
      if VerifyShard(hash, s, p, last) then slots[last.index := Some(last.bytes)] else slots
  }

  function RebuiltShards(hash: Hash, s: Segment, p: StoragePolicy, word: seq<Bytes>): (r: seq<Shard>)
    requires p.dataShards > 0
    ensures |r| == |word|
    ensures forall i :: 0 <= i < |word| ==> r[i] == MakeShard(hash, s, p, i, Resize(word[i], DivCeil(|s.ciphertext|, p.dataShards)))
  {
    seq(|word|, i requires 0 <= i < |word| => MakeShard(hash, s, p, i, Resize(word[i], DivCeil(|s.ciphertext|, p.dataShards))))
  }

  /** `reconstruct_all_shards`. */
  function ReconstructAll(hash: Hash, rs: ReedSolomon, s: Segment, p: StoragePolicy, stored: seq<Shard>): Result<seq<Shard>, StorageError> {
    if |stored| < p.dataShards then Err(NotEnoughShards(|stored|, p.dataShards))
    else
      match rs(p.dataShards, p.parityShards)
      case None => Err(ErasureFailed)
      case Some(code) =>
        if p.dataShards == 0 then Err(ErasureFailed)
        else
          var slots := VerifiedSlots(hash, s, p, stored);
          if |Present(slots)| < p.dataShards then Err(NotEnoughShards(|Present(slots)|, p.dataShards))
          else
            match code.rebuild(slots)
            case None => Err(ErasureFailed)
            case Some(word) => if |word| != p.Total() then Err(ErasureFailed) else Ok(RebuiltShards(hash, s, p, word))
  }

  method ReconstructAllShards(hash: Hash, rs: ReedSolomon, s: Segment, p: StoragePolicy, stored: seq<Shard>)
    returns (r: Result<seq<Shard>, StorageError>)
    ensures r == ReconstructAll(hash, rs, s, p, stored)
  {
    hide VerifyShard, Present, DivCeil, MakeShard;
    if |stored| < p.dataShards { return Err(NotEnoughShards(|stored|, p.dataShards)); }
    var code := rs(p.dataShards, p.parityShards);
    if code.None? || p.dataShards == 0 { return Err(ErasureFailed); }
    var slots: seq<Option<Bytes>> := seq(p.Total(), _ => None);
    for k := 0 to |stored|
      invariant slots == VerifiedSlots(hash, s, p, stored[..k])
    {
      assert stored[..k + 1][..k] == stored[..k];
      if VerifyShard(hash, s, p, stored[k]) {
        VerifiedInRange(hash, s, p, stored[k]);
        slots := slots[stored[k].index := Some(stored[k].bytes)];
      }
    }
    assert stored[..|stored|] == stored;
    var available := CountPresent(slots);
    if available < p.dataShards { return Err(NotEnoughShards(available, p.dataShards)); }
    var word := code.value.rebuild(slots);
    if word.None? || |word.value| != p.Total() { return Err(ErasureFailed); }
    var shards: seq<Shard> := [];
    for i := 0 to |word.value|
      invariant shards == RebuiltShards(hash, s, p, word.value)[..i]
    {
      var bytes := Resize(word.value[i], DivCeil(|s.ciphertext|, p.dataShards));
      shards := shards + [MakeShard(hash, s, p, i, bytes)];
    }
    assert RebuiltShards(hash, s, p, word.value)[..|word.value|] == RebuiltShards(hash, s, p, word.value);
    return Ok(shards);
  }

  lemma VerifiedInRange(hash: Hash, s: Segment, p: StoragePolicy, shard: Shard)
    requires VerifyShard(hash, s, p, shard)
    ensures shard.index < p.Total()
  {
  }

  // ------------------------------------------------------- repair targets

  predicate Replacement(d: NodeDescriptor, usedPeers: set<string>) {
    StorageRole in d.roles && ShardTransferV0 in d.protocols && d.peerId !in usedPeers
  }

  /** The order of `min_by_key`: an unused operator first, then the peer id. */
  predicate Preferred(a: NodeDescriptor, b: NodeDescriptor, usedOperators: set<string>) {
    if (a.operatorId in usedOperators) == (b.operatorId in usedOperators) then StrLe(a.peerId, b.peerId)
    else b.operatorId in usedOperators
  }

  /** The first least candidate. */
  function BestReplacement(ds: seq<NodeDescriptor>, usedPeers: set<string>, usedOperators: set<string>): (r: Option<NodeDescriptor>)
    ensures r.Some? ==> r.value in ds && Replacement(r.value, usedPeers)
    ensures r.None? ==> forall d :: d in ds ==> !Replacement(d, usedPeers)
  {
    if ds == [] then None
    else
      var d := ds[|ds| - 1];
      var best := BestReplacement(ds[..|ds| - 1], usedPeers, usedOperators);
      if !Replacement(d, usedPeers) then best
      else if best.Some? && Preferred(best.value, d, usedOperators) then best
      else Some(d)
  }

  /** No candidate would have been preferred to the one chosen, so a used operator
      is chosen only when every candidate's operator is used. */
  lemma {:induction false} BestIsLeast(ds: seq<NodeDescriptor>, usedPeers: set<string>, usedOperators: set<string>)
    ensures var best := BestReplacement(ds, usedPeers, usedOperators);
            best.Some? ==> forall d :: d in ds && Replacement(d, usedPeers) ==>
              && Preferred(best.value, d, usedOperators)
              && (best.value.operatorId in usedOperators ==> d.operatorId in usedOperators)
  {
    hide StrLe, Replacement;
    StrOrder();
    if ds != [] {
      BestIsLeast(ds[..|ds| - 1], usedPeers, usedOperators);
    }
  }

  function PeersOf(providers: seq<ProviderRecord>): set<string> { set p | p in providers :: p.peerId }

  function OperatorsOf(providers: seq<ProviderRecord>): set<string> { set p | p in providers :: p.operatorId }

  /** `choose_repair_target`. */
  function ChooseRepairTarget(after: seq<ProviderRecord>, fallback: ProviderRecord, replacements: seq<NodeDescriptor>): (r: ProviderRecord)
    ensures r.shard == fallback.shard
    ensures r.peerId == fallback.peerId || r.peerId !in PeersOf(after)
  {
    match BestReplacement(replacements, PeersOf(after), OperatorsOf(after))
    case Some(d) => fallback.(peerId := d.peerId, operatorId := d.operatorId, region := d.region, roles := d.roles)
    case None => fallback
  }

  // --------------------------------------------------------------- storing

  /** `to_network_envelope`. */
  function ToEnvelope(hash: Hash, shard: Shard): Result<Envelope, StorageError> {
    if shard.count == 0 || shard.dataShards == 0 || shard.dataShards > shard.count || shard.index >= shard.count then Err(NetworkFailed)
    else Ok(Envelope(ShardRef(shard.segmentCid, ShardCid(hash, shard.segmentCid, shard.index, shard.bytes), shard.index),
                     shard.count, shard.dataShards, shard.bytes))
  }

  /** `store_repaired_shard`. */
  function StoreRepaired(lib: Library, swarm: Swarm, client: string, p: ProviderRecord, shard: Shard, leaseEpoch: nat, expiresAt: nat)
    : (Result<ProviderRecord, StorageError>, Swarm)
  {
    match ToEnvelope(lib.hash, shard)
    case Err(e) => (Err(e), swarm)
    case Ok(envelope) =>
      var (answer, after) := SwarmRequest(lib, swarm, client, p.peerId, PutShard(envelope, leaseEpoch, expiresAt));
      (StoredRecord(answer, p, leaseEpoch, expiresAt), after)
  }

  function StoredRecord(answer: Answer, p: ProviderRecord, leaseEpoch: nat, expiresAt: nat): Result<ProviderRecord, StorageError> {
    match answer
    case Ok(ShardStored(shard)) =>
      (match NewProviderRecord(shard, p.peerId, p.operatorId, p.region, p.roles, leaseEpoch, expiresAt)
       case Ok(record) => Ok(record)
       case Err(_) => Err(NetworkFailed))
    case _ => Err(NetworkFailed)
  }

  method StoreRepairedShard(lib: Library, swarm: InMemorySwarm, client: string, p: ProviderRecord, shard: Shard, leaseEpoch: nat, expiresAt: nat)
    returns (r: Result<ProviderRecord, StorageError>)
    modifies swarm
    ensures (r, swarm.peers) == StoreRepaired(lib, old(swarm.peers), client, p, shard, leaseEpoch, expiresAt)
  {
    hide SwarmRequest, StoredRecord;
    var envelope := ToEnvelope(lib.hash, shard);
    if envelope.Err? { return Err(envelope.error); }
    var answer := swarm.Request(lib, client, p.peerId, PutShard(envelope.value, leaseEpoch, expiresAt));
    return StoredRecord(answer, p, leaseEpoch, expiresAt);
  }

  // ---------------------------------------------------------------- repair

  datatype RepairRequest = RepairRequest(client: string, directoryPeer: Option<string>, segment: Segment, policy: StoragePolicy,
                                         providers: seq<ProviderRecord>, replacements: seq<NodeDescriptor>, now: nat,
                                         leaseEpoch: nat, expiresAt: nat)

  /** The last provider listed for an index. */
  function ByIndex(providers: seq<ProviderRecord>, index: nat): (r: Option<ProviderRecord>)
    ensures r.Some? ==> r.value in providers && r.value.shard.shardIndex == index
    ensures r.None? ==> forall p :: p in providers ==> p.shard.shardIndex != index
  {
    if providers == [] then None
    else if providers[|providers| - 1].shard.shardIndex == index then Some(providers[|providers| - 1])
    else ByIndex(providers[..|providers| - 1], index)
  }

  /** Replace the first provider of the index, or add the record. */
  function Relist(providers: seq<ProviderRecord>, index: nat, record: ProviderRecord): seq<ProviderRecord> {
    if providers == [] then [record]
    else if providers[0].shard.shardIndex == index then [record] + providers[1..]
    else [providers[0]] + Relist(providers[1..], index, record)
  }

  /** Store one rebuilt shard: at the preferred place, else at its own provider,
      else at a replacement. */
  function StoreSomewhere(lib: Library, q: RepairRequest, swarm: Swarm, after: seq<ProviderRecord>, target: ProviderRecord,
                          isMissing: bool, shard: Shard): (Result<ProviderRecord, StorageError>, Swarm)
  {
    var preferred := if isMissing then ChooseRepairTarget(after, target, q.replacements) else target;
    var (first, swarm1) := StoreRepaired(lib, swarm, q.client, preferred, shard, q.leaseEpoch, q.expiresAt);
    if first.Ok? then (first, swarm1)
    else if first.error.NetworkFailed? && preferred.peerId != target.peerId then
      StoreRepaired(lib, swarm1, q.client, target, shard, q.leaseEpoch, q.expiresAt)
    else if q.replacements != [] then
      var replacement := ChooseRepairTarget(after, target, q.replacements);
      if replacement.peerId == target.peerId then (first, swarm1)
      else StoreRepaired(lib, swarm1, q.client, replacement, shard, q.leaseEpoch, q.expiresAt)
    else (first, swarm1)
  }

  datatype Progress = Progress(providers: seq<ProviderRecord>, repaired: seq<nat>)

  function RepairOne(lib: Library, q: RepairRequest, rebuilt: seq<Shard>, missing: set<nat>, st: Progress, index: nat, swarm: Swarm)
    : (Result<Progress, StorageError>, Swarm)
  {
    match ByIndex(q.providers, index)
    case None => (Ok(st), swarm)
    case Some(target) =>
      if index >= |rebuilt| then (Err(InvalidShardIndex(index)), swarm)
      else
        var (stored, after) := StoreSomewhere(lib, q, swarm, st.providers, target, index in missing, rebuilt[index]);
        match stored
        case Err(e) => (Err(e), after)
        case Ok(record) => (Ok(Progress(Relist(st.providers, index, record), st.repaired + [index])), after)
  }

  function RepairLoop(lib: Library, q: RepairRequest, rebuilt: seq<Shard>, missing: set<nat>, targets: seq<nat>, swarm: Swarm)
    : (Result<Progress, StorageError>, Swarm)
  {
    if targets == [] then (Ok(Progress(q.providers, [])), swarm)
    else
      var (before, swarm1) := RepairLoop(lib, q, rebuilt, missing, targets[..|targets| - 1], swarm);
      match before
      case Err(e) => (Err(e), swarm1)
      case Ok(st) => RepairOne(lib, q, rebuilt, missing, st, targets[|targets| - 1], swarm1)
  }

  function Relet(providers: seq<ProviderRecord>, leaseEpoch: nat, expiresAt: nat): (r: seq<ProviderRecord>)
    ensures |r| == |providers|
    ensures forall i :: 0 <= i < |providers| ==> r[i] == providers[i].(leaseEpoch := leaseEpoch, expiresAt := expiresAt)
  {
    seq(|providers|, i requires 0 <= i < |providers| => providers[i].(leaseEpoch := leaseEpoch, expiresAt := expiresAt))
  }

  function PublishTransactionId(p: ProviderRecord): string {
    Join(["publish-provider", CidText(p.shard.segmentCid), CidText(p.shard.shardCid), p.peerId, Dec(p.leaseEpoch), Dec(p.expiresAt)], ':')
  }

  /** `publish_providers_via_transport`. */
  function PublishAll(lib: Library, swarm: Swarm, client: string, directory: string, providers: seq<ProviderRecord>)
    : (Result<(), StorageError>, Swarm)
  {
    if providers == [] then (Ok(()), swarm)
    else
      var p := providers[|providers| - 1];
      var (before, swarm1) := PublishAll(lib, swarm, client, directory, providers[..|providers| - 1]);
      if before.Err? then (before, swarm1)
      else if !ValidTransactionId(PublishTransactionId(p)) then (Err(NetworkFailed), swarm1)
      else
        var (answer, swarm2) := SwarmRequest(lib, swarm1, client, directory, Idempotent(PublishTransactionId(p), PublishProvider(p)));
        (if answer == Ok(Ack) then Ok(()) else Err(NetworkFailed), swarm2)
  }

  lemma {:induction false} PublishFails(lib: Library, swarm: Swarm, client: string, directory: string, providers: seq<ProviderRecord>, k: nat)
    requires k <= |providers| && PublishAll(lib, swarm, client, directory, providers[..k]).0.Err?
    ensures PublishAll(lib, swarm, client, directory, providers) == PublishAll(lib, swarm, client, directory, providers[..k])
    decreases |providers|
  {
    hide SwarmRequest, PublishTransactionId, ValidTransactionId;
    if k < |providers| {
      assert providers[..|providers| - 1][..k] == providers[..k];
      PublishFails(lib, swarm, client, directory, providers[..|providers| - 1], k);
    } else {
      assert providers[..k] == providers;
    }
  }

  method PublishProvidersViaTransport(lib: Library, swarm: InMemorySwarm, client: string, directory: string, providers: seq<ProviderRecord>)
    returns (r: Result<(), StorageError>)
    modifies swarm
    ensures (r, swarm.peers) == PublishAll(lib, old(swarm.peers), client, directory, providers)
  {
    hide SwarmRequest, PublishTransactionId, ValidTransactionId;
    for k := 0 to |providers|
      invariant PublishAll(lib, old(swarm.peers), client, directory, providers[..k]) == (Ok(()), swarm.peers)
    {
      var tx := PublishTransactionId(providers[k]);
      assert providers[..k + 1][..k] == providers[..k];
      if !ValidTransactionId(tx) {
        PublishFails(lib, old(swarm.peers), client, directory, providers, k + 1);
        return Err(NetworkFailed);
      }
      var answer := swarm.Request(lib, client, directory, Idempotent(tx, PublishProvider(providers[k])));
      if answer != Ok(Ack) {
        PublishFails(lib, old(swarm.peers), client, directory, providers, k + 1);
        return Err(NetworkFailed);
      }
    }
    assert providers[..|providers|] == providers;
    return Ok(());
  }

  datatype TransportOutcome = TransportOutcome(before: TransportReport, after: TransportReport, repaired: seq<nat>,
                                               providers: seq<ProviderRecord>, durable: bool)

  function AuditFor(lib: Library, q: RepairRequest, swarm: Swarm, providers: seq<ProviderRecord>): Result<TransportReport, StorageError> {
    TransportAudit(lib, swarm, q.client, q.segment.cid, q.policy.Total(), q.policy.dataShards, providers, q.now)
  }

  function Members(s: seq<nat>): set<nat> { set i | i in s }

  function VerifiedProviders(providers: seq<ProviderRecord>, verified: set<nat>): (r: seq<ProviderRecord>)
    ensures forall p :: p in r <==> p in providers && p.shard.shardIndex in verified
  {
    if providers == [] then []
    else if providers[|providers| - 1].shard.shardIndex in verified then
      VerifiedProviders(providers[..|providers| - 1], verified) + [providers[|providers| - 1]]
    else VerifiedProviders(providers[..|providers| - 1], verified)
  }

  /** Fetch the verified shards and rebuild all of them. */
  function Rebuild(lib: Library, rs: ReedSolomon, q: RepairRequest, swarm: Swarm, verified: set<nat>): Result<seq<Shard>, StorageError> {
    match FetchAll(lib, swarm, q.client, VerifiedProviders(q.providers, verified), q.now)
    case Err(e) => Err(e)
    case Ok(stored) => ReconstructAll(lib.hash, rs, q.segment, q.policy, stored)
  }

  /** The end of a repair: renew the leases, publish them, and audit again. */
  function Conclude(lib: Library, q: RepairRequest, before: TransportReport, st: Progress, swarm: Swarm)
    : (Result<TransportOutcome, StorageError>, Swarm)
  {
    var providers := Relet(st.providers, q.leaseEpoch, q.expiresAt);
    var (published, swarm1) := if q.directoryPeer.None? then (Ok(()), swarm)
                               else PublishAll(lib, swarm, q.client, q.directoryPeer.value, providers);
    match published
    case Err(e) => (Err(e), swarm1)
    case Ok(_) =>
      match AuditFor(lib, q, swarm1, providers)
      case Err(e) => (Err(e), swarm1)
      case Ok(after) => (Ok(TransportOutcome(before, after, st.repaired, providers, after.durable)), swarm1)
  }

  /** `repair_shards_via_transport`. */
  function Repair(lib: Library, rs: ReedSolomon, q: RepairRequest, swarm: Swarm): (Result<TransportOutcome, StorageError>, Swarm) {
    match AuditFor(lib, q, swarm, q.providers)
    case Err(e) => (Err(e), swarm)
    case Ok(before) =>
      if |before.verified| < q.policy.dataShards then (Err(NotEnoughShards(|before.verified|, q.policy.dataShards)), swarm)
      else if !before.repairNeeded then (Ok(TransportOutcome(before, before, [], q.providers, true)), swarm)
      else
        match Rebuild(lib, rs, q, swarm, Members(before.verified))
        case Err(e) => (Err(e), swarm)
        case Ok(rebuilt) =>
          var targets := InOrder(Members(before.missing) + Members(before.corrupt));
          var (looped, swarm1) := RepairLoop(lib, q, rebuilt, Members(before.missing), targets, swarm);
          match looped
          case Err(e) => (Err(e), swarm1)
          case Ok(st) => Conclude(lib, q, before, st, swarm1)
  }

  // ----------------------------------------------------- repair, in place

  method StoreShardSomewhere(lib: Library, q: RepairRequest, swarm: InMemorySwarm, after: seq<ProviderRecord>, target: ProviderRecord,
                             isMissing: bool, shard: Shard) returns (r: Result<ProviderRecord, StorageError>)
    modifies swarm
    ensures (r, swarm.peers) == StoreSomewhere(lib, q, old(swarm.peers), after, target, isMissing, shard)
  {
    hide StoreRepaired, ChooseRepairTarget;
    var preferred := if isMissing then ChooseRepairTarget(after, target, q.replacements) else target;
    r := StoreRepairedShard(lib, swarm, q.client, preferred, shard, q.leaseEpoch, q.expiresAt);
    if r.Ok? { return; }
    if r.error.NetworkFailed? && preferred.peerId != target.peerId {
      r := StoreRepairedShard(lib, swarm, q.client, target, shard, q.leaseEpoch, q.expiresAt);
    } else if q.replacements != [] {
      var replacement := ChooseRepairTarget(after, target, q.replacements);
      if replacement.peerId != target.peerId {
        r := StoreRepairedShard(lib, swarm, q.client, replacement, shard, q.leaseEpoch, q.expiresAt);
      }
    }
  }

  lemma {:induction false} LoopFails(lib: Library, q: RepairRequest, rebuilt: seq<Shard>, missing: set<nat>, targets: seq<nat>, swarm: Swarm, k: nat)
    requires k <= |targets| && RepairLoop(lib, q, rebuilt, missing, targets[..k], swarm).0.Err?
    ensures RepairLoop(lib, q, rebuilt, missing, targets, swarm) == RepairLoop(lib, q, rebuilt, missing, targets[..k], swarm)
    decreases |targets|
  {
    hide RepairOne;
    if k < |targets| {
      assert targets[..|targets| - 1][..k] == targets[..k];
      LoopFails(lib, q, rebuilt, missing, targets[..|targets| - 1], swarm, k);
    } else {
      assert targets[..k] == targets;
    }
  }

  method RepairTargets(lib: Library, q: RepairRequest, rebuilt: seq<Shard>, missing: set<nat>, targets: seq<nat>, swarm: InMemorySwarm)
    returns (r: Result<Progress, StorageError>)
    modifies swarm
    ensures (r, swarm.peers) == RepairLoop(lib, q, rebuilt, missing, targets, old(swarm.peers))
  {
    hide StoreSomewhere, Relist;
    var st := Progress(q.providers, []);
    for k := 0 to |targets|
      invariant RepairLoop(lib, q, rebuilt, missing, targets[..k], old(swarm.peers)) == (Ok(st), swarm.peers)
    {
      var index := targets[k];
      assert targets[..k + 1][..k] == targets[..k];
      var target := ByIndex(q.providers, index);
      if target.None? { continue; }
      if index >= |rebuilt| {
        LoopFails(lib, q, rebuilt, missing, targets, old(swarm.peers), k + 1);
        return Err(InvalidShardIndex(index));
      }
      var stored := StoreShardSomewhere(lib, q, swarm, st.providers, target.value, index in missing, rebuilt[index]);
      if stored.Err? {
        LoopFails(lib, q, rebuilt, missing, targets, old(swarm.peers), k + 1);
        return Err(stored.error);
      }
      st := Progress(Relist(st.providers, index, stored.value), st.repaired + [index]);
    }
    assert targets[..|targets|] == targets;
    return Ok(st);
  }

  method RepairShardsViaTransport(lib: Library, rs: ReedSolomon, q: RepairRequest, swarm: InMemorySwarm)
    returns (r: Result<TransportOutcome, StorageError>)
    modifies swarm
    ensures (r, swarm.peers) == Repair(lib, rs, q, old(swarm.peers))
  {
    hide TransportAudit, FetchAll, ReconstructAll, RepairLoop, PublishAll, Members;
    var s, p := q.segment, q.policy;
    var before := AuditShardsViaTransport(lib, swarm, q.client, s.cid, p.Total(), p.dataShards, q.providers, q.now);
    if before.Err? { return Err(before.error); }
    if |before.value.verified| < p.dataShards { return Err(NotEnoughShards(|before.value.verified|, p.dataShards)); }
    if !before.value.repairNeeded { return Ok(TransportOutcome(before.value, before.value, [], q.providers, true)); }
    var verifiedProviders := VerifiedProviders(q.providers, Members(before.value.verified));
    var stored := FetchShardsViaTransport(lib, swarm, q.client, verifiedProviders, q.now);
    if stored.Err? { return Err(stored.error); }
    var rebuilt := ReconstructAllShards(lib.hash, rs, s, p, stored.value);
    if rebuilt.Err? { return Err(rebuilt.error); }
    var missing := Members(before.value.missing);
    var targets := InOrder(missing + Members(before.value.corrupt));
    var looped := RepairTargets(lib, q, rebuilt.value, missing, targets, swarm);
    if looped.Err? { return Err(looped.error); }
    var st := looped.value;
    var providers := Relet(st.providers, q.leaseEpoch, q.expiresAt);
    if q.directoryPeer.Some? {
      var published := PublishProvidersViaTransport(lib, swarm, q.client, q.directoryPeer.value, providers);
      if published.Err? { return Err(published.error); }
    }
    var after := AuditShardsViaTransport(lib, swarm, q.client, s.cid, p.Total(), p.dataShards, providers, q.now);
    if after.Err? { return Err(after.error); }
    return Ok(TransportOutcome(before.value, after.value, st.repaired, providers, after.value.durable));
  }
}
