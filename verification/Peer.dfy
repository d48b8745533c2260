/** gitmesh-network: a storage peer that answers requests, and the in-memory swarm.
    A request wrapped with a transaction id takes effect at most once. */
module Peer {
  import opened Prelude
  import opened Text
  import opened Core
  import opened Network
  import opened Directory

  // ------------------------------------------------------------ messages

  datatype Envelope = Envelope(shard: ShardRef, shardCount: nat, dataShards: nat, bytes: Bytes)

  datatype Challenge = Challenge(shard: ShardRef, offset: nat, length: nat, nonce: Bytes)

  datatype Proof = Proof(shard: ShardRef, offset: nat, length: nat, total: nat, nonce: Bytes, bytes: Bytes, digest: Digest32)

  datatype Request =
    | Ping
    | Idempotent(tx: string, inner: Request)
    | PublishProvider(record: ProviderRecord)
    | PublishSigned(record: ProviderRecord, evidence: Evidence, now: nat)
    | FindProviders(segment: Cid, now: nat)
    | PutShard(envelope: Envelope, leaseEpoch: nat, expiresAt: nat)
    | GetShard(shard: ShardRef)
    | AuditShard(shard: ShardRef)
    | ChallengeShard(challenge: Challenge)
  {
    predicate IsMutating() { PublishProvider? || PublishSigned? || PutShard? || Idempotent? }
  }

  datatype Response =
    | Pong(peerId: string)
    | ProvidersFound(records: seq<ProviderRecord>)
    | ShardStored(shard: ShardRef)
    | ShardFound(envelope: Envelope)
    | ShardAudited(shard: ShardRef, present: bool, valid: bool)
    | ShardProved(proof: Proof)
    | Ack

  type Answer = Result<Response, NetworkError>

  /** The libraries a peer relies on. */
  datatype Library = Library(hash: Hash, id: Identity)

  datatype PeerState = PeerState(descriptor: NodeDescriptor, shards: map<Cid, Envelope>, directory: Records,
                                 receipts: map<string, (Request, Response)>)

  function FreshPeer(descriptor: NodeDescriptor): PeerState {
    PeerState(descriptor, map[], map[], map[])
  }

  // ----------------------------------------------------------- envelopes

  /** `ShardEnvelope::verify`. */
  function VerifyEnvelope(hash: Hash, e: Envelope): Result<(), NetworkError> {
    if e.shardCount == 0 || e.dataShards == 0 || e.dataShards > e.shardCount || e.shard.shardIndex >= e.shardCount then
      Err(InvalidShardEnvelope)
    else if ShardCid(hash, e.shard.segmentCid, e.shard.shardIndex, e.bytes) != e.shard.shardCid then Err(ShardIntegrity)
    else Ok(())
  }

  function ProofTranscript(shard: ShardRef, offset: nat, length: nat, total: nat, nonce: Bytes, bytes: Bytes): Bytes {
    Ascii("gitmesh.network.shard-audit-proof.v0") +
    (Field(Utf8(CidText(shard.segmentCid))) + (Field(Utf8(CidText(shard.shardCid))) +
     (Be(shard.shardIndex, 8) + (Be(offset, 8) + (Be(length, 8) + (Be(total, 8) + (nonce + Field(bytes))))))))
  }

  /** `ShardAuditProof::from_envelope`. */
  function Prove(hash: Hash, e: Envelope, c: Challenge): Result<Proof, NetworkError> {
    var _ :- VerifyEnvelope(hash, e);
    if e.shard != c.shard then Err(ShardIntegrity)
    else if c.offset + c.length > |e.bytes| then Err(InvalidAuditChallenge)
    else
      var bytes := e.bytes[c.offset..c.offset + c.length];
      Ok(Proof(c.shard, c.offset, c.length, |e.bytes|, c.nonce, bytes,
               hash(ProofTranscript(c.shard, c.offset, c.length, |e.bytes|, c.nonce, bytes))))
  }

  /** `ShardAuditProof::verify`. */
  predicate VerifyProof(hash: Hash, p: Proof, c: Challenge) {
    && p.shard == c.shard && p.offset == c.offset && p.length == c.length && p.nonce == c.nonce
    && |p.bytes| == p.length && p.offset + p.length <= p.total
    && p.digest == hash(ProofTranscript(p.shard, p.offset, p.length, p.total, p.nonce, p.bytes))
  }

  // ------------------------------------------------------------ handling

  predicate TransactionChar(c: char) { NameChar(c) || c == '.' || c == ':' }

  predicate ValidTransactionId(tx: string) {
    tx != [] && |tx| <= 512 && forall c :: c in tx ==> TransactionChar(c)
  }

  function HandlePublish(lib: Library, s: PeerState, a: Attempt): (Answer, PeerState) {
    if AvailabilityV0 !in s.descriptor.protocols then (Err(UnsupportedProtocol), s)
    else
      match Published(lib.id, s.directory, a)
      case Ok(after) => (Ok(Ack), s.(directory := after))
      case Err(e) => (Err(e), s)
  }

  function OwnRecord(d: NodeDescriptor, shard: ShardRef, leaseEpoch: nat, expiresAt: nat): Result<ProviderRecord, NetworkError> {
    NewProviderRecord(shard, d.peerId, d.operatorId, d.region, d.roles, leaseEpoch, expiresAt)
  }

  /** The shard is kept before the lease is looked at. */
  function HandlePut(lib: Library, s: PeerState, e: Envelope, leaseEpoch: nat, expiresAt: nat): (Answer, PeerState) {
    if StorageRole !in s.descriptor.roles then (Err(UnsupportedRole), s)
    else if ShardTransferV0 !in s.descriptor.protocols then (Err(UnsupportedProtocol), s)
    else
      match VerifyEnvelope(lib.hash, e)
      case Err(error) => (Err(error), s)
      case Ok(_) =>
        var kept := s.(shards := s.shards[e.shard.shardCid := e]);
        match OwnRecord(s.descriptor, e.shard, leaseEpoch, expiresAt)
        case Err(error) => (Err(error), kept)
        case Ok(record) =>
          match Published(lib.id, s.directory, Unsigned(record))
          case Err(error) => (Err(error), kept)
          case Ok(after) => (Ok(ShardStored(e.shard)), kept.(directory := after))
  }

  function HandleRead(lib: Library, s: PeerState, request: Request): Answer
    requires request.GetShard? || request.AuditShard? || request.ChallengeShard?
  {
    if ShardTransferV0 !in s.descriptor.protocols then Err(UnsupportedProtocol)
    else
      match request
      case GetShard(shard) =>
        if shard.shardCid !in s.shards then Err(ShardNotFound)
        else
          var e := s.shards[shard.shardCid];
          if e.shard != shard then Err(ShardIntegrity)
          else
            var _ :- VerifyEnvelope(lib.hash, e);
            Ok(ShardFound(e))
      case AuditShard(shard) =>
        var present := shard.shardCid in s.shards;
        Ok(ShardAudited(shard, present,
                        present && s.shards[shard.shardCid].shard == shard && VerifyEnvelope(lib.hash, s.shards[shard.shardCid]).Ok?))
      case ChallengeShard(c) =>
        if c.shard.shardCid !in s.shards then Err(ShardNotFound)
        else
          var proof :- Prove(lib.hash, s.shards[c.shard.shardCid], c);
          Ok(ShardProved(proof))
  }

  /** `handle`, with `handle_idempotent` as its first case. */
  function Respond(lib: Library, s: PeerState, request: Request): (Answer, PeerState)
    decreases request
  {
    match request
    case Idempotent(tx, inner) =>
      if !ValidTransactionId(tx) || !inner.IsMutating() || inner.Idempotent? then (Err(InvalidNetworkTransaction), s)
      else if tx in s.receipts then
        if s.receipts[tx].0 == inner then (Ok(s.receipts[tx].1), s) else (Err(NetworkTransactionConflict), s)
      else
        var (answer, after) := Respond(lib, s, inner);
        if answer.Ok? then (answer, after.(receipts := after.receipts[tx := (inner, answer.value)])) else (answer, after)
    case Ping => (Ok(Pong(s.descriptor.peerId)), s)
    case PublishProvider(record) => HandlePublish(lib, s, Unsigned(record))
    case PublishSigned(record, evidence, now) => HandlePublish(lib, s, Signed(record, evidence, now))
    case FindProviders(segment, now) =>
      if AvailabilityV0 !in s.descriptor.protocols then (Err(UnsupportedProtocol), s)
      else (Ok(ProvidersFound(ActiveRecords(s.directory, segment, now))), s)
    case PutShard(e, leaseEpoch, expiresAt) => HandlePut(lib, s, e, leaseEpoch, expiresAt)
    case GetShard(_) => (HandleRead(lib, s, request), s)
    case AuditShard(_) => (HandleRead(lib, s, request), s)
    case ChallengeShard(_) => (HandleRead(lib, s, request), s)
  }

  // ----------------------------------------------------- a peer, in place

  class InMemoryPeer {
    const descriptor: NodeDescriptor
    var shards: map<Cid, Envelope>
    const directory: AvailabilityDirectory
    var receipts: map<string, (Request, Response)>

    ghost function State(): PeerState
      reads this, directory
    {
      PeerState(descriptor, shards, directory.records, receipts)
    }

    constructor (descriptor: NodeDescriptor)
      ensures fresh(directory) && State() == FreshPeer(descriptor)
    {
      this.descriptor := descriptor;
      shards := map[];
      directory := new AvailabilityDirectory();
      receipts := map[];
    }

    method PublishHere(lib: Library, a: Attempt) returns (r: Answer)
      modifies directory
      ensures (r, State()) == HandlePublish(lib, old(State()), a)
    {
      if AvailabilityV0 !in descriptor.protocols { return Err(UnsupportedProtocol); }
      var published := directory.Publish(lib.id, a);
      if published.Err? { return Err(published.error); }
      return Ok(Ack);
    }

    method PutHere(lib: Library, e: Envelope, leaseEpoch: nat, expiresAt: nat) returns (r: Answer)
      modifies this, directory
      ensures (r, State()) == HandlePut(lib, old(State()), e, leaseEpoch, expiresAt)
    {
      hide VerifyEnvelope;
      if StorageRole !in descriptor.roles { return Err(UnsupportedRole); }
      if ShardTransferV0 !in descriptor.protocols { return Err(UnsupportedProtocol); }
      var verified := VerifyEnvelope(lib.hash, e);
      if verified.Err? { return Err(verified.error); }
      shards := shards[e.shard.shardCid := e];
      var record := OwnRecord(descriptor, e.shard, leaseEpoch, expiresAt);
      if record.Err? { return Err(record.error); }
      var published := directory.Publish(lib.id, Unsigned(record.value));
      if published.Err? { return Err(published.error); }
      return Ok(ShardStored(e.shard));
    }

    method Handle(lib: Library, request: Request) returns (r: Answer)
      modifies this, directory
      ensures (r, State()) == Respond(lib, old(State()), request)
      decreases request
    {
      hide HandlePut, HandlePublish, HandleRead;
      match request
      case Idempotent(tx, inner) =>
        if !ValidTransactionId(tx) || !inner.IsMutating() || inner.Idempotent? { return Err(InvalidNetworkTransaction); }
        if tx in receipts {
          if receipts[tx].0 == inner { return Ok(receipts[tx].1); }
          return Err(NetworkTransactionConflict);
        }
        r := Handle(lib, inner);
        if r.Ok? { receipts := receipts[tx := (inner, r.value)]; }
      case Ping => r := Ok(Pong(descriptor.peerId));
      case PublishProvider(record) => r := PublishHere(lib, Unsigned(record));
      case PublishSigned(record, evidence, now) => r := PublishHere(lib, Signed(record, evidence, now));
      case FindProviders(segment, now) =>
        if AvailabilityV0 !in descriptor.protocols { return Err(UnsupportedProtocol); }
        var active := directory.ActiveRecordsForSegment(segment, now);
        r := Ok(ProvidersFound(active));
      case PutShard(e, leaseEpoch, expiresAt) => r := PutHere(lib, e, leaseEpoch, expiresAt);
      case GetShard(_) => r := HandleRead(lib, PeerState(descriptor, shards, directory.records, receipts), request);
      case AuditShard(_) => r := HandleRead(lib, PeerState(descriptor, shards, directory.records, receipts), request);
      case ChallengeShard(_) => r := HandleRead(lib, PeerState(descriptor, shards, directory.records, receipts), request);
    }
  }

  // ------------------------------------------------------ receipts are kept

  lemma DirectKeepsReceipts(lib: Library, s: PeerState, request: Request)
    requires !request.Idempotent?
    ensures Respond(lib, s, request).1.receipts == s.receipts
    ensures Respond(lib, s, request).1.descriptor == s.descriptor
  {
    hide VerifyEnvelope, HandleRead, Published, OwnRecord;
  }

  predicate Keeps(before: map<string, (Request, Response)>, after: map<string, (Request, Response)>) {
    forall tx :: tx in before ==> tx in after && after[tx] == before[tx]
  }

  /** No request removes or rewrites a receipt, and only a success files one. */
  lemma ReceiptsKept(lib: Library, s: PeerState, request: Request)
    ensures Keeps(s.receipts, Respond(lib, s, request).1.receipts)
    ensures Respond(lib, s, request).0.Err? ==> Respond(lib, s, request).1.receipts == s.receipts
    ensures request.Idempotent? && Respond(lib, s, request).0.Ok? ==>
              request.tx in Respond(lib, s, request).1.receipts &&
              Respond(lib, s, request).1.receipts[request.tx] == (request.inner, Respond(lib, s, request).0.value)
    ensures Respond(lib, s, request).1.descriptor == s.descriptor
  {
    hide HandlePut, HandlePublish, HandleRead;
    if request.Idempotent? {
      if !request.inner.Idempotent? { DirectKeepsReceipts(lib, s, request.inner); }
    } else {
      DirectKeepsReceipts(lib, s, request);
    }
  }

  /** A known transaction id never changes the state: the same request gets the
      first response again, any other request is refused. */
  lemma KnownTransaction(lib: Library, s: PeerState, tx: string, inner: Request)
    requires tx in s.receipts
    ensures Respond(lib, s, Idempotent(tx, inner)).1 == s
    ensures Respond(lib, s, Idempotent(tx, inner)).0.Ok? <==>
              s.receipts[tx].0 == inner && ValidTransactionId(tx) && inner.IsMutating() && !inner.Idempotent?
    ensures Respond(lib, s, Idempotent(tx, inner)).0.Ok? ==> Respond(lib, s, Idempotent(tx, inner)).0 == Ok(s.receipts[tx].1)
  {
  }

  // ------------------------------------------------------------------ runs

  function Final(lib: Library, s: PeerState, requests: seq<Request>): PeerState {
    if requests == [] then s
    else Respond(lib, Final(lib, s, requests[..|requests| - 1]), requests[|requests| - 1]).1
  }

  function Answers(lib: Library, s: PeerState, requests: seq<Request>): (r: seq<Answer>)
    ensures |r| == |requests|
  {
    if requests == [] then []
    else
      var p := requests[..|requests| - 1];
      Answers(lib, s, p) + [Respond(lib, Final(lib, s, p), requests[|requests| - 1]).0]
  }

  function Chosen<T>(items: seq<T>, keep: seq<bool>): seq<T>
    requires |items| == |keep|
  {
    if items == [] then []
    else
      var n := |items| - 1;
      Chosen(items[..n], keep[..n]) + if keep[n] then [items[n]] else []
  }

  /** An earlier delivery of the same idempotent request succeeded. */
  ghost predicate Repeats(requests: seq<Request>, answers: seq<Answer>, j: nat, i: nat)
    requires |answers| == |requests|
  {
    j < i < |requests| && requests[i].Idempotent? && requests[j] == requests[i] && answers[j].Ok?
  }

  lemma {:induction false} AnswersPrefix(lib: Library, s: PeerState, requests: seq<Request>, n: nat)
    requires n <= |requests|
    ensures Answers(lib, s, requests)[..n] == Answers(lib, s, requests[..n])
    decreases |requests|
  {
    hide Respond;
    if n == |requests| {
      assert requests[..n] == requests;
    } else {
      AnswersPrefix(lib, s, requests[..|requests| - 1], n);
      assert requests[..|requests| - 1][..n] == requests[..n];
    }
  }

  /** After a success the receipt stays, with the answer that was given. */
  lemma {:induction false} SuccessFiled(lib: Library, s: PeerState, requests: seq<Request>, j: nat)
    requires j < |requests| && requests[j].Idempotent? && Answers(lib, s, requests)[j].Ok?
    ensures requests[j].tx in Final(lib, s, requests).receipts
    ensures Final(lib, s, requests).receipts[requests[j].tx] == (requests[j].inner, Answers(lib, s, requests)[j].value)
  {
    hide Respond;
    var n := |requests| - 1;
    ReceiptsKept(lib, Final(lib, s, requests[..n]), requests[n]);
    if j < n { SuccessFiled(lib, s, requests[..n], j); }
  }

  lemma SuccessWellFormed(lib: Library, s: PeerState, requests: seq<Request>, j: nat)
    requires j < |requests| && requests[j].Idempotent? && Answers(lib, s, requests)[j].Ok?
    ensures ValidTransactionId(requests[j].tx) && requests[j].inner.IsMutating() && !requests[j].inner.Idempotent?
  {
    hide ValidTransactionId, HandlePut, HandlePublish, HandleRead;
    AnswersPrefix(lib, s, requests, j + 1);
    assert Answers(lib, s, requests)[j] == Answers(lib, s, requests[..j + 1])[j];
  }

  /** One redelivery after a success: no effect, and the first answer again. */
  lemma Redelivered(lib: Library, s: PeerState, requests: seq<Request>, j: nat)
    requires j < |requests| && requests[j].Idempotent? && Answers(lib, s, requests)[j].Ok?
    ensures Respond(lib, Final(lib, s, requests), requests[j]) == (Answers(lib, s, requests)[j], Final(lib, s, requests))
  {
    hide Respond, Final, Answers;
    SuccessFiled(lib, s, requests, j);
    SuccessWellFormed(lib, s, requests, j);
    KnownTransaction(lib, Final(lib, s, requests), requests[j].tx, requests[j].inner);
  }

  lemma RepeatsPrefix(lib: Library, s: PeerState, requests: seq<Request>)
    requires requests != []
    ensures var n := |requests| - 1;
            && Answers(lib, s, requests)[..n] == Answers(lib, s, requests[..n])
            && forall i: nat, j: nat :: i < n ==>
                 (Repeats(requests, Answers(lib, s, requests), j, i) <==> Repeats(requests[..n], Answers(lib, s, requests[..n]), j, i))
  {
    hide Respond;
    AnswersPrefix(lib, s, requests, |requests| - 1);
  }

  lemma LastRedelivered(lib: Library, s: PeerState, requests: seq<Request>, j: nat)
    requires requests != [] && Repeats(requests, Answers(lib, s, requests), j, |requests| - 1)
    ensures Answers(lib, s, requests)[|requests| - 1] == Answers(lib, s, requests)[j]
    ensures Final(lib, s, requests) == Final(lib, s, requests[..|requests| - 1])
  {
    hide Respond;
    AnswersPrefix(lib, s, requests, |requests| - 1);
    Redelivered(lib, s, requests[..|requests| - 1], j);
  }

  lemma ChosenStep<T>(items: seq<T>, keep: seq<bool>)
    requires |items| == |keep| && items != []
    ensures var n := |items| - 1;
            var c := Chosen(items[..n], keep[..n]);
            && Chosen(items, keep) == (if keep[n] then c + [items[n]] else c)
            && (keep[n] ==> Chosen(items, keep)[..|c|] == c)
  {
  }

  /** At-least-once delivery has exactly-once effect.  Mark as dropped any
      deliveries that repeat an idempotent request which had succeeded before.
      Without them the final state and every other answer are the same, and each
      of them got the answer of the first success. */
  lemma {:induction false} ExactlyOnce(lib: Library, s: PeerState, requests: seq<Request>, keep: seq<bool>)
    requires |keep| == |requests|
    requires forall i: nat :: i < |requests| && !keep[i] ==> exists j: nat :: Repeats(requests, Answers(lib, s, requests), j, i)
    ensures Final(lib, s, Chosen(requests, keep)) == Final(lib, s, requests)
    ensures Answers(lib, s, Chosen(requests, keep)) == Chosen(Answers(lib, s, requests), keep)
  {
    hide Respond, Repeats, Chosen;
    ChosenOfNone();
    if requests != [] {
      var n := |requests| - 1;
      var p, k := requests[..n], keep[..n];
      RepeatsPrefix(lib, s, requests);
      ExactlyOnce(lib, s, p, k);
      ChosenStep(requests, keep);
      ChosenStep(Answers(lib, s, requests), keep);
      if !keep[n] {
        var j: nat :| Repeats(requests, Answers(lib, s, requests), j, n);
        LastRedelivered(lib, s, requests, j);
      }
    }
  }

  lemma ChosenOfNone()
    ensures Chosen<Request>([], []) == [] && Chosen<Answer>([], []) == []
  {
  }

  /** Every repeat gets the answer of the first success. */
  lemma {:induction false} RepeatAnswered(lib: Library, s: PeerState, requests: seq<Request>, j: nat, i: nat)
    requires Repeats(requests, Answers(lib, s, requests), j, i)
    ensures Answers(lib, s, requests)[i] == Answers(lib, s, requests)[j]
    decreases |requests|
  {
    hide Respond;
    if i < |requests| - 1 {
      RepeatsPrefix(lib, s, requests);
      RepeatAnswered(lib, s, requests[..|requests| - 1], j, i);
    } else {
      LastRedelivered(lib, s, requests, j);
    }
  }

  // ---------------------------------------------------- what a put leaves

  /** A storage peer keeps a verified shard whatever the lease says; the request
      succeeds exactly when the lease does not expire at zero. */
  lemma PutExact(lib: Library, s: PeerState, e: Envelope, leaseEpoch: nat, expiresAt: nat)
    requires s.descriptor.Valid() && StorageRole in s.descriptor.roles && ShardTransferV0 in s.descriptor.protocols
    requires VerifyEnvelope(lib.hash, e).Ok?
    ensures var (answer, after) := Respond(lib, s, PutShard(e, leaseEpoch, expiresAt));
            && after.shards == s.shards[e.shard.shardCid := e]
            && (answer == if expiresAt == 0 then Err(InvalidProviderRecord) else Ok(ShardStored(e.shard)))
            && (expiresAt == 0 ==> after.directory == s.directory)
  {
    hide VerifyEnvelope;
  }

  /** What was put is got back, and proves its own bytes. */
  lemma PutThenGet(lib: Library, s: PeerState, e: Envelope, leaseEpoch: nat, expiresAt: nat, c: Challenge)
    requires Respond(lib, s, PutShard(e, leaseEpoch, expiresAt)).0.Ok?
    requires c.shard == e.shard && c.offset + c.length <= |e.bytes|
    ensures var after := Respond(lib, s, PutShard(e, leaseEpoch, expiresAt)).1;
            && Respond(lib, after, GetShard(e.shard)).0 == Ok(ShardFound(e))
            && Respond(lib, after, AuditShard(e.shard)).0 == Ok(ShardAudited(e.shard, true, true))
            && Respond(lib, after, ChallengeShard(c)).0.Ok?
            && var proof := Respond(lib, after, ChallengeShard(c)).0.value.proof;
               VerifyProof(lib.hash, proof, c) && proof.bytes == e.bytes[c.offset..c.offset + c.length]
  {
    hide VerifyEnvelope, ProofTranscript;
  }

  // ------------------------------------------------------ audit proofs

  /** What the machine types enforce. */
  predicate MachineSized(p: Proof) {
    && |p.nonce| == 16 && |p.bytes| < TWO_TO_64
    && p.shard.shardIndex < TWO_TO_64 && p.offset < TWO_TO_64 && p.length < TWO_TO_64 && p.total < TWO_TO_64
  }

  /** What a proof's digest covers determines the shard, the range, the nonce of
      sixteen bytes and the bytes shown, whatever follows. */
  lemma ProofTranscriptPrefixFree(p: Proof, x: Bytes, q: Proof, y: Bytes)
    requires MachineSized(p) && MachineSized(q)
    requires ProofTranscript(p.shard, p.offset, p.length, p.total, p.nonce, p.bytes) + x ==
             ProofTranscript(q.shard, q.offset, q.length, q.total, q.nonce, q.bytes) + y
    ensures p.(digest := q.digest) == q && x == y
  {
    hide Be, Utf8, CidText, Ascii;
    var p6, q6 := Field(p.bytes) + x, Field(q.bytes) + y;
    var p5, q5 := p.nonce + p6, q.nonce + q6;
    var p4, q4 := Be(p.total, 8) + p5, Be(q.total, 8) + q5;
    var p3, q3 := Be(p.length, 8) + p4, Be(q.length, 8) + q4;
    var p2, q2 := Be(p.offset, 8) + p3, Be(q.offset, 8) + q3;
    var p1, q1 := Be(p.shard.shardIndex, 8) + p2, Be(q.shard.shardIndex, 8) + q2;
    var p0, q0 := TextField(CidText(p.shard.shardCid)) + p1, TextField(CidText(q.shard.shardCid)) + q1;
    ProofUnfold(p, x);
    ProofUnfold(q, y);
    LeadCancel(Ascii("gitmesh.network.shard-audit-proof.v0"), TextField(CidText(p.shard.segmentCid)) + p0, TextField(CidText(q.shard.segmentCid)) + q0);
    CidFieldCancel(p.shard.segmentCid, p0, q.shard.segmentCid, q0);
    CidFieldCancel(p.shard.shardCid, p1, q.shard.shardCid, q1);
    ConcatCancel(Be(p.shard.shardIndex, 8), p2, Be(q.shard.shardIndex, 8), q2);
    ConcatCancel(Be(p.offset, 8), p3, Be(q.offset, 8), q3);
    ConcatCancel(Be(p.length, 8), p4, Be(q.length, 8), q4);
    ConcatCancel(Be(p.total, 8), p5, Be(q.total, 8), q5);
    ConcatCancel(p.nonce, p6, q.nonce, q6);
    FieldCancel(p.bytes, x, q.bytes, y);
    U64BeInjective(p.shard.shardIndex, q.shard.shardIndex);
    U64BeInjective(p.offset, q.offset);
    U64BeInjective(p.length, q.length);
    U64BeInjective(p.total, q.total);
  }

  lemma ProofUnfold(p: Proof, x: Bytes)
    ensures ProofTranscript(p.shard, p.offset, p.length, p.total, p.nonce, p.bytes) + x ==
            Ascii("gitmesh.network.shard-audit-proof.v0") + (TextField(CidText(p.shard.segmentCid)) + (TextField(CidText(p.shard.shardCid)) +
              (Be(p.shard.shardIndex, 8) + (Be(p.offset, 8) + (Be(p.length, 8) + (Be(p.total, 8) + (p.nonce + (Field(p.bytes) + x))))))))
  {
    hide Be, Utf8, CidText, Ascii, Field;
  }

  // ------------------------------------------- answers, over the fields

  /** An envelope a peer takes: sound counts, an index in range, and the identifier of its own bytes. */
  predicate Intact(hash: Hash, e: Envelope) {
    && 0 < e.dataShards <= e.shardCount && e.shard.shardIndex < e.shardCount
    && e.shard.shardCid == ShardCid(hash, e.shard.segmentCid, e.shard.shardIndex, e.bytes)
  }

  /** Only storage peers that transfer shards take them, only intact ones, and a
      success lists this peer as a provider under the given lease. */
  lemma StoreExact(lib: Library, s: PeerState, e: Envelope, leaseEpoch: nat, expiresAt: nat)
    requires s.descriptor.Valid()
    ensures var (answer, after) := Respond(lib, s, PutShard(e, leaseEpoch, expiresAt));
            var d := s.descriptor;
            var taken := StorageRole in d.roles && ShardTransferV0 in d.protocols && Intact(lib.hash, e);
            && (answer == Ok(ShardStored(e.shard)) <==> taken && expiresAt > 0)
            && (answer == Err(UnsupportedRole) <==> StorageRole !in d.roles)
            && (answer == Err(UnsupportedProtocol) <==> StorageRole in d.roles && ShardTransferV0 !in d.protocols)
            && after == s.(shards := if taken then s.shards[e.shard.shardCid := e] else s.shards,
                           directory := if taken && expiresAt > 0 then
                             Put(s.directory, Entry(ProviderRecord(e.shard, d.peerId, d.operatorId, d.region, d.roles, leaseEpoch, expiresAt), None))
                           else s.directory)
  {
    hide ShardCid, Place;
  }

  /** What is read of a shard: the envelope kept under its identifier, if it is for
      this very shard and still intact.  An audit says whether there is one and
      whether it would be returned; a challenge is answered from its bytes. */
  lemma ReadsExact(lib: Library, s: PeerState, shard: ShardRef, c: Challenge)
    requires ShardTransferV0 in s.descriptor.protocols && c.shard == shard
    ensures var got := Respond(lib, s, GetShard(shard)).0;
            var present := shard.shardCid in s.shards;
            var good := present && s.shards[shard.shardCid].shard == shard && Intact(lib.hash, s.shards[shard.shardCid]);
            var answered := Respond(lib, s, ChallengeShard(c)).0;
            && (got.Ok? <==> good) && (got.Ok? ==> got == Ok(ShardFound(s.shards[shard.shardCid])))
            && (got == Err(ShardNotFound) <==> !present)
            && Respond(lib, s, AuditShard(shard)).0 == Ok(ShardAudited(shard, present, good))
            && (answered.Ok? <==> good && c.offset + c.length <= |s.shards[shard.shardCid].bytes|)
            && (answered.Ok? ==>
                  && answered.value.ShardProved? && VerifyProof(lib.hash, answered.value.proof, c)
                  && answered.value.proof.bytes == s.shards[shard.shardCid].bytes[c.offset..c.offset + c.length])
  {
    hide ShardCid, ProofTranscript;
  }

  /** Reads, lookups and refused requests change nothing. */
  lemma ReadsChangeNothing(lib: Library, s: PeerState, request: Request)
    requires !request.Idempotent?
    ensures !request.IsMutating() ==> Respond(lib, s, request).1 == s
    ensures ShardTransferV0 !in s.descriptor.protocols && (request.GetShard? || request.AuditShard? || request.ChallengeShard?) ==>
              Respond(lib, s, request).0 == Err(UnsupportedProtocol)
    ensures request == Ping ==> Respond(lib, s, request).0 == Ok(Pong(s.descriptor.peerId))
  {
    hide VerifyEnvelope, Published, Prove;
  }

  /** A directory peer admits what the directory admits, and lists the unexpired
      records it holds of a segment. */
  lemma DirectoryPeerExact(lib: Library, s: PeerState, record: ProviderRecord, segment: Cid, now: nat)
    requires Filed(s.directory)
    ensures var (answer, after) := Respond(lib, s, PublishProvider(record));
            var serves := AvailabilityV0 in s.descriptor.protocols;
            && (answer == Ok(Ack) <==> serves && record.expiresAt > 0 && record.roles != {})
            && (answer == Err(UnsupportedProtocol) <==> !serves)
            && after == s.(directory := if answer.Ok? then Put(s.directory, Entry(record, None)) else s.directory)
    ensures var found := Respond(lib, s, FindProviders(segment, now)).0;
            if AvailabilityV0 !in s.descriptor.protocols then found == Err(UnsupportedProtocol)
            else found.Ok? && found.value.ProvidersFound? &&
                 forall r :: r in found.value.records <==> r in Unexpired(if segment in s.directory then s.directory[segment] else [], now)
  {
    hide Live, Place, SameKey;
    assert DistinctKeys(At(s.directory, segment));
    UnexpiredMembers(At(s.directory, segment), now);
  }

  /** An idempotent request that is new, well formed and mutating does what the
      request inside it does, and a success is filed with its answer. */
  lemma FirstDelivery(lib: Library, s: PeerState, tx: string, inner: Request)
    requires tx !in s.receipts
    ensures var (answer, after) := Respond(lib, s, Idempotent(tx, inner));
            var allowed := tx != [] && |tx| <= 512 && (forall c :: c in tx ==> NameChar(c) || c == '.' || c == ':') &&
                           (inner.PublishProvider? || inner.PublishSigned? || inner.PutShard?);
            var (direct, changed) := Respond(lib, s, inner);
            && (!allowed ==> answer == Err(InvalidNetworkTransaction) && after == s)
            && (allowed ==> answer == direct)
            && (allowed && direct.Err? ==> after == changed)
            && (allowed && direct.Ok? ==> after == changed.(receipts := changed.receipts[tx := (inner, direct.value)]))
  {
    hide HandlePut, HandlePublish, HandleRead;
  }

  // ------------------------------------------------------------- the swarm

  type Swarm = map<string, PeerState>

  function SwarmRequest(lib: Library, peers: Swarm, sender: string, to: string, request: Request): (Answer, Swarm) {
    if sender !in peers || to !in peers then (Err(UnknownPeer), peers)
    else
      var (answer, after) := Respond(lib, peers[to], request);
      (answer, peers[to := after])
  }

  /** A request between known peers changes the receiver only, as the receiver
      responds; between others it is refused. */
  lemma SwarmExact(lib: Library, peers: Swarm, sender: string, to: string, request: Request)
    ensures var (answer, after) := SwarmRequest(lib, peers, sender, to, request);
            if sender in peers && to in peers then
              && answer == Respond(lib, peers[to], request).0 && after.Keys == peers.Keys
              && after[to] == Respond(lib, peers[to], request).1
              && forall p :: p in peers && p != to ==> after[p] == peers[p]
            else answer == Err(UnknownPeer) && after == peers
  {
    hide Respond;
  }

  class InMemorySwarm {
    var peers: Swarm

    constructor (peers: Swarm)
      ensures this.peers == peers
    {
      this.peers := peers;
    }

    method Request(lib: Library, sender: string, to: string, request: Request) returns (r: Answer)
      modifies this
      ensures (r, peers) == SwarmRequest(lib, old(peers), sender, to, request)
    {
      if sender !in peers || to !in peers { return Err(UnknownPeer); }
      var (answer, after) := Respond(lib, peers[to], request);
      peers := peers[to := after];
      return answer;
    }

    method RemoveShard(peerId: string, shard: Cid) returns (r: Result<(), NetworkError>)
      modifies this
      ensures peerId !in old(peers) ==> r == Err(UnknownPeer) && peers == old(peers)
      ensures peerId in old(peers) && shard !in old(peers)[peerId].shards ==> r == Err(ShardNotFound) && peers == old(peers)
      ensures peerId in old(peers) && shard in old(peers)[peerId].shards ==>
                r == Ok(()) && peers == old(peers)[peerId := old(peers)[peerId].(shards := old(peers)[peerId].shards - {shard})]
    {
      if peerId !in peers { return Err(UnknownPeer); }
      if shard !in peers[peerId].shards { return Err(ShardNotFound); }
      peers := peers[peerId := peers[peerId].(shards := peers[peerId].shards - {shard})];
      return Ok(());
    }

    method CorruptShard(peerId: string, shard: Cid) returns (r: Result<(), NetworkError>)
      modifies this
      ensures peerId !in old(peers) ==> r == Err(UnknownPeer) && peers == old(peers)
      ensures peerId in old(peers) && shard !in old(peers)[peerId].shards ==> r == Err(ShardNotFound) && peers == old(peers)
      ensures peerId in old(peers) && shard in old(peers)[peerId].shards ==>
                && r == Ok(())
                && var p := old(peers)[peerId];
                   peers == old(peers)[peerId := p.(shards := p.shards[shard := p.shards[shard].(bytes := Flip(p.shards[shard].bytes))])]
    {
      if peerId !in peers { return Err(UnknownPeer); }
      if shard !in peers[peerId].shards { return Err(ShardNotFound); }
      var p := peers[peerId];
      var e := p.shards[shard];
      var bytes: Bytes := if e.bytes == [] then [0xFF] else e.bytes[0 := 0xFF - e.bytes[0]];
      assert bytes == Flip(e.bytes);
      peers := peers[peerId := p.(shards := p.shards[shard := e.(bytes := bytes)])];
      return Ok(());
    }
  }
}
