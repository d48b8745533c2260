/** gitmeshd: the commands that change the daemon's refs, policy, objects and
    availability directory.  Time and fresh encryption secrets are inputs. */
module Daemon {
  import opened Prelude
  import opened Core
  import opened Ordering
  import opened Erasure
  import opened GitOid
  import opened GitObjects
  import opened RefModel
  import opened RefStores
  import opened RepoPolicies
  import opened RefSigning
  import Network
  import Directory
  import Graph = ObjectGraph
  import Objects = ObjectStore
  import opened ObjectAvailability
  import opened Pack

  /** The repository, the libraries, and the order of object ids. */
  datatype Environment = Environment(repo: Cid, store: Objects.Library, id: Network.Identity, zlib: Zlib, oidLe: (Oid, Oid) -> bool)

  ghost predicate Proper(env: Environment) { Bounded(env.zlib) && TotalOrder(env.oidLe) }

  datatype DaemonState = DaemonState(refs: Store, policy: Policy, objects: Objects.Objects, availability: Directory.Records)

  const DEFAULT_STATE := DaemonState(EMPTY, DEFAULT_POLICY, Objects.NO_OBJECTS, map[])

  datatype DaemonError =
    | InvalidRefName
    | InvalidTransactionId
    | SigningFailed(signing: SigningError)
    | PolicyDenied(policy: PolicyError)
    | StoreFailed(store: Objects.StoreError)
    | GraphRejected(graph: Graph.GraphError)
    | NetworkRejected(network: Network.NetworkError)
    | GitFailed(git: GitError)
    | MissingDurableObject(oid: Oid)
    | InvalidIdentity
    | InvalidCommand

  datatype Reply = ReceiptReply(receipt: Receipt) | Done

  type Outcome = Result<Reply, DaemonError>

  // ------------------------------------------------------------- commands

  datatype Move = Move(refName: string, expectedOld: Option<Oid>, newOid: Option<Oid>, force: bool)

  datatype Command =
    | UpdateRef(tx: string, move: Move, signer: string, now: nat)
    | UpdateRefSigned(tx: string, move: Move, policyEpoch: u64, name: string, accountKey: Digest32, deviceKey: Digest32,
                      certificateSignature: Network.Bytes64, signature: Network.Bytes64, now: nat)
    | PutObject(object: GitObject, secret: Objects.Secret, now: nat)
    | PutPack(bytes: Bytes, secrets: nat -> Objects.Secret, now: nat)
    | RepairOne(oid: Oid, now: nat)
    | RepairEvery(now: nat)
    | SetStorage(storage: StoragePolicy)
    | SetRequireSigned(value: bool)
    | GrantWriter(account: string)
    | GrantForce(account: string)
    | Protect(refName: string)
    | PublishProvider(record: Network.ProviderRecord, name: string, accountKey: Digest32, deviceKey: Digest32,
                      certificateSignature: Network.Bytes64, signature: Network.Bytes64, now: nat)
    | PruneProviders(now: nat)

  // ----------------------------------------------------- the publication gate

  /** `AvailabilityRequirement::new`, from the storage policy. */
  predicate ValidRequirement(p: StoragePolicy) {
    && p.dataShards > 0 && p.minOperators > 0 && p.minRegions > 0
    && p.minOperators <= p.dataShards && p.minRegions <= p.dataShards
  }

  /** `require_available_ref_target`. */
  function RequireAvailable(env: Environment, d: DaemonState, oid: Option<Oid>, now: nat): Result<(), DaemonError> {
    if oid.None? then Ok(())
    else if !ValidRequirement(d.objects.policy) then Err(NetworkRejected(Network.InvalidAvailabilityRequirement))
    else if oid.value !in d.objects.stored then Err(StoreFailed(Objects.MissingObject(oid.value)))
    else
      var providers := Directory.ActiveRecords(d.availability, d.objects.stored[oid.value].record.segmentCid, now);
      if providers == [] then Err(MissingDurableObject(oid.value))
      else
        match ObjectReport(env.id, d.objects, oid.value, providers, Objects.RequirementOf(d.objects.policy), now)
        case Err(e) => Err(StoreFailed(e))
        case Ok(report) => if report.Satisfies() then Ok(()) else Err(MissingDurableObject(oid.value))
  }

  /** Authorize, validate, and require availability. */
  function Gate(env: Environment, d: DaemonState, u: RefUpdate, actor: Actor, now: nat): Result<(), DaemonError> {
    match Authorize(d.policy, u, actor)
    case Err(e) => Err(PolicyDenied(e))
    case Ok(_) =>
      match Graph.ValidateUpdate(Objects.View(env.store, d.objects), u.refName, u.expectedOld, u.newOid, u.force)
      case Err(e) => Err(GraphRejected(e))
      case Ok(_) => RequireAvailable(env, d, u.newOid, now)
  }

  /** `apply_verified_ref_update`: a known transaction is answered before the gate. */
  function ApplyVerified(env: Environment, d: DaemonState, u: RefUpdate, actor: Actor, now: nat): (Outcome, DaemonState) {
    match Preflight(d.refs, u)
    case Some(receipt) => (Ok(ReceiptReply(receipt)), d)
    case None =>
      match Gate(env, d, u, actor, now)
      case Err(e) => (Err(e), d)
      case Ok(_) =>
        var (after, receipt) := Apply(env.store.hash, d.refs, u);
        (Ok(ReceiptReply(receipt)), d.(refs := after))
  }

  function UpdateOf(env: Environment, tx: string, move: Move, policyEpoch: u64, signer: string): RefUpdate {
    RefUpdate(env.repo, move.refName, move.expectedOld, move.newOid, move.force, policyEpoch, tx, signer)
  }

  /** `ref_update`: unsigned updates name the policy epoch of the moment. */
  function UpdateUnsigned(env: Environment, d: DaemonState, tx: string, move: Move, signer: string, now: nat): (Outcome, DaemonState) {
    if !ValidTransactionId(tx) then (Err(InvalidTransactionId), d)
    else if !ValidRefName(move.refName) then (Err(InvalidRefName), d)
    else ApplyVerified(env, d, UpdateOf(env, tx, move, d.policy.epoch, signer), Unsigned, now)
  }

  /** `ref_update_signed`. */
  function UpdateSigned(env: Environment, d: DaemonState, c: Command): (Outcome, DaemonState)
    requires c.UpdateRefSigned?
  {
    match env.id.FromKeyBytes(c.name, c.accountKey, c.deviceKey, c.certificateSignature)
    case Err(e) => (Err(NetworkRejected(e)), d)
    case Ok(certificate) =>
      if !ValidRefName(c.move.refName) then (Err(InvalidRefName), d)
      else if !ValidTransactionId(c.tx) then (Err(InvalidTransactionId), d)
      else
        var u := UpdateOf(env, c.tx, c.move, c.policyEpoch, CidText(certificate.deviceId));
        match VerifyWithIdentity(env.id, u, certificate, c.signature)
        case Err(e) => (Err(SigningFailed(e)), d)
        case Ok(actor) => ApplyVerified(env, d, u, actor, c.now)
  }

  // ------------------------------------------------------ objects and packs

  /** Put one object and publish its local providers; a failed publication leaves the object. */
  function PutOne(env: Environment, d: DaemonState, o: GitObject, secret: Objects.Secret, now: nat): (Outcome, DaemonState) {
    match Objects.Put(env.store, d.objects, o, secret)
    case Err(e) => (Err(StoreFailed(e)), d)
    case Ok((record, objects)) =>
      match PublishLocal(env.id, d.availability, objects, record.oid, now)
      case (Ok(_), availability) => (Ok(Done), d.(objects := objects, availability := availability))
      case (Err(e), availability) => (Err(StoreFailed(e)), d.(objects := objects, availability := availability))
  }

  /** An import stops at the first failure and keeps what went before. */
  function PutMany(env: Environment, d: DaemonState, objects: seq<GitObject>, secrets: nat -> Objects.Secret, now: nat): (Outcome, DaemonState) {
    if objects == [] then (Ok(Done), d)
    else
      var n := |objects| - 1;
      var (before, d1) := PutMany(env, d, objects[..n], secrets, now);
      if before.Err? then (before, d1) else PutOne(env, d1, objects[n], secrets(n), now)
  }

  function PutPackBytes(env: Environment, d: DaemonState, bytes: Bytes, secrets: nat -> Objects.Secret, now: nat): (Outcome, DaemonState)
    requires Bounded(env.zlib)
  {
    match ParsePack(env.store.sha1, env.zlib, bytes)
    case Err(e) => (Err(GitFailed(e)), d)
    case Ok(pack) => PutMany(env, d, pack.objects, secrets, now)
  }

  // ---------------------------------------------------------------- repair

  function RepairMany(env: Environment, d: DaemonState, oids: seq<Oid>): (Outcome, DaemonState) {
    if oids == [] then (Ok(Done), d)
    else
      var (before, d1) := RepairMany(env, d, oids[..|oids| - 1]);
      if before.Err? then (before, d1)
      else
        match Objects.Repair(env.store, d1.objects, oids[|oids| - 1])
        case Err(e) => (Err(StoreFailed(e)), d1)
        case Ok((_, objects)) => (Ok(Done), d1.(objects := objects))
  }

  function PublishMany(env: Environment, d: DaemonState, oids: seq<Oid>, now: nat): (Outcome, DaemonState) {
    if oids == [] then (Ok(Done), d)
    else
      var (before, d1) := PublishMany(env, d, oids[..|oids| - 1], now);
      if before.Err? then (before, d1)
      else
        match PublishLocal(env.id, d1.availability, d1.objects, oids[|oids| - 1], now)
        case (Ok(_), availability) => (Ok(Done), d1.(availability := availability))
        case (Err(e), availability) => (Err(StoreFailed(e)), d1.(availability := availability))
  }

  /** `object_repair`: repair all, then publish all. */
  function RepairAndPublish(env: Environment, d: DaemonState, oids: seq<Oid>, now: nat): (Outcome, DaemonState) {
    var (repaired, d1) := RepairMany(env, d, oids);
    if repaired.Err? then (repaired, d1) else PublishMany(env, d1, oids, now)
  }

  // ------------------------------------------------------------- providers

  /** The checks of the constructors that read a provider from a command line. */
  function CheckedProvider(r: Network.ProviderRecord): Result<Network.ProviderRecord, DaemonError> {
    if r.shard.segmentCid.kind != EncryptedSegment || r.shard.shardCid.kind != ShardKind then Err(InvalidCommand)
    else if !Network.ValidPeerId(r.peerId) then Err(NetworkRejected(Network.InvalidPeerId))
    else if !Network.ValidOperatorId(r.operatorId) then Err(NetworkRejected(Network.InvalidOperatorId))
    else if r.roles == {} then Err(NetworkRejected(Network.InvalidNodeDescriptor))
    else
      match Network.NewProviderRecord(r.shard, r.peerId, r.operatorId, r.region, r.roles, r.leaseEpoch, r.expiresAt)
      case Err(e) => Err(NetworkRejected(e))
      case Ok(checked) => Ok(checked)
  }

  /** `network_provider_publish_signed`. */
  function PublishSigned(env: Environment, d: DaemonState, c: Command): (Outcome, DaemonState)
    requires c.PublishProvider?
  {
    match CheckedProvider(c.record)
    case Err(e) => (Err(e), d)
    case Ok(record) =>
      match env.id.FromKeyBytes(c.name, c.accountKey, c.deviceKey, c.certificateSignature)
      case Err(e) => (Err(NetworkRejected(e)), d)
      case Ok(certificate) =>
        match Directory.Published(env.id, d.availability, Directory.Signed(record, Network.Evidence(certificate, c.signature), c.now))
        case Err(e) => (Err(NetworkRejected(e)), d)
        case Ok(after) => (Ok(Done), d.(availability := after))
  }

  // ------------------------------------------------------------- one command

  /** `parse_policy_identity`: the text of a protocol object's identifier. */
  predicate AccountText(account: string) {
    ParseCid(account).Some? && ParseCid(account).value.kind == ProtocolObject
  }

  function WithPolicy(d: DaemonState, change: Change): (Outcome, DaemonState) {
    (Ok(Done), d.(policy := Changed(d.policy, change)))
  }

  /** `storage_policy_set`: the policy is checked before anything else. */
  function WithStorage(d: DaemonState, storage: StoragePolicy): (Outcome, DaemonState) {
    if !Objects.ValidStorage(storage) then (Err(NetworkRejected(Network.InvalidAvailabilityRequirement)), d)
    else
      match Objects.SetStoragePolicy(d.objects, storage)
      case Err(e) => (Err(StoreFailed(e)), d)
      case Ok(objects) => (Ok(Done), d.(objects := objects))
  }

  function Step(env: Environment, d: DaemonState, c: Command): (Outcome, DaemonState)
    requires Proper(env)
  {
    match c
    case UpdateRef(tx, move, signer, now) => UpdateUnsigned(env, d, tx, move, signer, now)
    case UpdateRefSigned(_, _, _, _, _, _, _, _, _) => UpdateSigned(env, d, c)
    case PutObject(o, secret, now) => PutOne(env, d, o, secret, now)
    case PutPack(bytes, secrets, now) => PutPackBytes(env, d, bytes, secrets, now)
    case RepairOne(oid, now) => RepairAndPublish(env, d, [oid], now)
    case RepairEvery(now) => RepairAndPublish(env, d, Sorted(d.objects.stored.Keys, env.oidLe), now)
    case SetStorage(storage) => WithStorage(d, storage)
    case SetRequireSigned(value) => WithPolicy(d, RequireSigned(value))
    case GrantWriter(account) => if AccountText(account) then WithPolicy(d, GrantWriterAccount(account)) else (Err(InvalidIdentity), d)
    case GrantForce(account) => if AccountText(account) then WithPolicy(d, GrantForceAccount(account)) else (Err(InvalidIdentity), d)
    case Protect(refName) => if ValidRefName(refName) then WithPolicy(d, ProtectRef(refName)) else (Err(InvalidRefName), d)
    case PublishProvider(_, _, _, _, _, _, _) => PublishSigned(env, d, c)
    case PruneProviders(now) => (Ok(Done), d.(availability := Directory.Pruned(d.availability, now)))
  }

  // ------------------------------------------------- the daemon, in place

  class GitMeshDaemon {
    const env: Environment
    const refs: RefStore
    const policy: RepoPolicy
    const objects: Objects.RepositoryObjectStore
    const availability: Directory.AvailabilityDirectory

    ghost predicate Valid() {
      Proper(env) && refs.hash == env.store.hash
    }

    ghost function State(): DaemonState
      reads refs, policy, objects, availability
    {
      DaemonState(refs.State(), policy.State(), objects.State(), availability.records)
    }

    constructor (env: Environment)
      requires Proper(env)
      ensures Valid() && this.env == env && State() == DEFAULT_STATE
      ensures fresh(refs) && fresh(policy) && fresh(objects) && fresh(availability)
    {
      this.env := env;
      refs := new RefStore(env.store.hash);
      policy := new RepoPolicy();
      objects := new Objects.RepositoryObjectStore();
      availability := new Directory.AvailabilityDirectory();
    }

    method RequireAvailableRefTarget(oid: Option<Oid>, now: nat) returns (r: Result<(), DaemonError>)
      ensures r == RequireAvailable(env, State(), oid, now)
    {
      hide Directory.ActiveRecords, ObjectReport;
      if oid.None? { return Ok(()); }
      if !ValidRequirement(objects.policy) { return Err(NetworkRejected(Network.InvalidAvailabilityRequirement)); }
      if oid.value !in objects.stored { return Err(StoreFailed(Objects.MissingObject(oid.value))); }
      var providers := availability.ActiveRecordsForSegment(objects.stored[oid.value].record.segmentCid, now);
      if providers == [] { return Err(MissingDurableObject(oid.value)); }
      var requirement := Objects.RequirementOf(objects.policy);
      var report := ObjectAvailabilityReport(env.id, objects.State(), oid.value, providers, requirement, now);
      if report.Err? { return Err(StoreFailed(report.error)); }
      if !report.value.Satisfies() { return Err(MissingDurableObject(oid.value)); }
      return Ok(());
    }

    method ApplyVerifiedRefUpdate(u: RefUpdate, actor: Actor, now: nat) returns (r: Outcome)
      requires Valid()
      modifies refs
      ensures (r, State()) == ApplyVerified(env, old(State()), u, actor, now)
    {
      hide Apply, Authorize, Graph.ValidateUpdate, RequireAvailable, Preflight, Objects.View;
      var known := Preflight(refs.State(), u);
      if known.Some? { return Ok(ReceiptReply(known.value)); }
      var authorized := Authorize(policy.State(), u, actor);
      if authorized.Err? { return Err(PolicyDenied(authorized.error)); }
      var validated := Graph.ValidateUpdate(Objects.View(env.store, objects.State()), u.refName, u.expectedOld, u.newOid, u.force);
      if validated.Err? { return Err(GraphRejected(validated.error)); }
      var available := RequireAvailableRefTarget(u.newOid, now);
      if available.Err? { return Err(available.error); }
      var receipt := refs.ApplyUpdate(u);
      return Ok(ReceiptReply(receipt));
    }

    method RefUpdateUnsigned(tx: string, move: Move, signer: string, now: nat) returns (r: Outcome)
      requires Valid()
      modifies refs
      ensures (r, State()) == UpdateUnsigned(env, old(State()), tx, move, signer, now)
    {
      hide ApplyVerified, ValidRefName, ValidTransactionId;
      if !ValidTransactionId(tx) { return Err(InvalidTransactionId); }
      if !ValidRefName(move.refName) { return Err(InvalidRefName); }
      r := ApplyVerifiedRefUpdate(UpdateOf(env, tx, move, policy.epoch, signer), Unsigned, now);
    }

    method RefUpdateSigned(c: Command) returns (r: Outcome)
      requires Valid() && c.UpdateRefSigned?
      modifies refs
      ensures (r, State()) == UpdateSigned(env, old(State()), c)
    {
      hide ApplyVerified, ValidRefName, ValidTransactionId, VerifyWithIdentity, CidText;
      var certificate := env.id.FromKeyBytes(c.name, c.accountKey, c.deviceKey, c.certificateSignature);
      if certificate.Err? { return Err(NetworkRejected(certificate.error)); }
      if !ValidRefName(c.move.refName) { return Err(InvalidRefName); }
      if !ValidTransactionId(c.tx) { return Err(InvalidTransactionId); }
      var u := UpdateOf(env, c.tx, c.move, c.policyEpoch, CidText(certificate.value.deviceId));
      var actor := VerifyWithIdentity(env.id, u, certificate.value, c.signature);
      if actor.Err? { return Err(SigningFailed(actor.error)); }
      r := ApplyVerifiedRefUpdate(u, actor.value, c.now);
    }

    method ObjectPut(o: GitObject, secret: Objects.Secret, now: nat) returns (r: Outcome)
      modifies objects, availability
      ensures (r, State()) == PutOne(env, old(State()), o, secret, now)
    {
      hide Objects.Put, PublishLocal;
      var record := objects.PutGitObject(env.store, o, secret);
      if record.Err? { return Err(StoreFailed(record.error)); }
      var published := PublishLocalProviders(env.id, availability, objects.State(), record.value.oid, now);
      if published.Err? { return Err(StoreFailed(published.error)); }
      return Ok(Done);
    }

    method PackPut(bytes: Bytes, secrets: nat -> Objects.Secret, now: nat) returns (r: Outcome)
      requires Valid()
      modifies objects, availability
      ensures (r, State()) == PutPackBytes(env, old(State()), bytes, secrets, now)
    {
      hide ParsePack, PutOne;
      var pack := ParsePackfile(env.store.sha1, env.zlib, bytes);
      if pack.Err? { return Err(GitFailed(pack.error)); }
      var imported := pack.value.objects;
      for k := 0 to |imported|
        invariant PutMany(env, old(State()), imported[..k], secrets, now) == (Ok(Done), State())
      {
        assert imported[..k + 1][..k] == imported[..k];
        var put := ObjectPut(imported[k], secrets(k), now);
        if put.Err? {
          PutFails(env, old(State()), imported, secrets, now, k + 1);
          return put;
        }
        AlwaysDone(env, old(State()), imported, secrets, now, k + 1);
      }
      assert imported[..|imported|] == imported;
      return Ok(Done);
    }

    method ObjectRepair(oids: seq<Oid>, now: nat) returns (r: Outcome)
      modifies objects, availability
      ensures (r, State()) == RepairAndPublish(env, old(State()), oids, now)
    {
      hide Objects.Repair, PublishLocal;
      for k := 0 to |oids|
        invariant availability.records == old(availability.records)
        invariant RepairMany(env, old(State()), oids[..k]) == (Ok(Done), State())
      {
        assert oids[..k + 1][..k] == oids[..k];
        var repaired := objects.RepairObject(env.store, oids[k]);
        if repaired.Err? {
          RepairFails(env, old(State()), oids, k + 1);
          return Err(StoreFailed(repaired.error));
        }
      }
      assert oids[..|oids|] == oids;
      ghost var middle := State();
      for k := 0 to |oids|
        invariant objects.State() == middle.objects
        invariant PublishMany(env, middle, oids[..k], now) == (Ok(Done), State())
      {
        assert oids[..k + 1][..k] == oids[..k];
        var published := PublishLocalProviders(env.id, availability, objects.State(), oids[k], now);
        if published.Err? {
          PublishManyFails(env, middle, oids, now, k + 1);
          return Err(StoreFailed(published.error));
        }
      }
      return Ok(Done);
    }

    method ProviderPublishSigned(c: Command) returns (r: Outcome)
      requires c.PublishProvider?
      modifies availability
      ensures (r, State()) == PublishSigned(env, old(State()), c)
    {
      hide Directory.Published, CheckedProvider;
      var record := CheckedProvider(c.record);
      if record.Err? { return Err(record.error); }
      var certificate := env.id.FromKeyBytes(c.name, c.accountKey, c.deviceKey, c.certificateSignature);
      if certificate.Err? { return Err(NetworkRejected(certificate.error)); }
      var evidence := Network.Evidence(certificate.value, c.signature);
      var published := availability.Publish(env.id, Directory.Signed(record.value, evidence, c.now));
      if published.Err? { return Err(NetworkRejected(published.error)); }
      return Ok(Done);
    }

    /** `handle_command`. */
    method HandleCommand(c: Command) returns (r: Outcome)
      requires Valid()
      modifies refs, policy, objects, availability
      ensures (r, State()) == Step(env, old(State()), c)
    {
      hide UpdateUnsigned, UpdateSigned, PutOne, PutPackBytes, RepairAndPublish, Objects.SetStoragePolicy, Objects.ValidStorage, PublishSigned, Directory.Pruned,
           ValidRefName, Changed, Sorted, AccountText;
      match c
      case UpdateRef(tx, move, signer, now) => r := RefUpdateUnsigned(tx, move, signer, now);
      case UpdateRefSigned(_, _, _, _, _, _, _, _, _) => r := RefUpdateSigned(c);
      case PutObject(o, secret, now) => r := ObjectPut(o, secret, now);
      case PutPack(bytes, secrets, now) => r := PackPut(bytes, secrets, now);
      case RepairOne(oid, now) => r := ObjectRepair([oid], now);
      case RepairEvery(now) => r := ObjectRepair(Sorted(objects.stored.Keys, env.oidLe), now);
      case SetStorage(storage) =>
        if !Objects.ValidStorage(storage) { return Err(NetworkRejected(Network.InvalidAvailabilityRequirement)); }
        var stored := objects.SetPolicy(storage);
        r := if stored.Err? then Err(StoreFailed(stored.error)) else Ok(Done);
      case SetRequireSigned(value) => policy.SetRequireSigned(value); r := Ok(Done);
      case GrantWriter(account) =>
        if !AccountText(account) { return Err(InvalidIdentity); }
        policy.AllowWriterAccount(account);
        r := Ok(Done);
      case GrantForce(account) =>
        if !AccountText(account) { return Err(InvalidIdentity); }
        policy.AllowForceAccount(account);
        r := Ok(Done);
      case Protect(refName) =>
        if !ValidRefName(refName) { return Err(InvalidRefName); }
        policy.Protect(refName);
        r := Ok(Done);
      case PublishProvider(_, _, _, _, _, _, _) => r := ProviderPublishSigned(c);
      case PruneProviders(now) =>
        var _ := availability.PruneExpired(now);
        r := Ok(Done);
    }
  }

  lemma {:induction false} AlwaysDone(env: Environment, d: DaemonState, objects: seq<GitObject>, secrets: nat -> Objects.Secret, now: nat, k: nat)
    requires k <= |objects|
    ensures PutMany(env, d, objects[..k], secrets, now).0.Ok? ==> PutMany(env, d, objects[..k], secrets, now).0 == Ok(Done)
  {
    hide Objects.Put, PublishLocal;
  }

  lemma {:induction false} PutFails(env: Environment, d: DaemonState, objects: seq<GitObject>, secrets: nat -> Objects.Secret, now: nat, k: nat)
    requires k <= |objects| && PutMany(env, d, objects[..k], secrets, now).0.Err?
    ensures PutMany(env, d, objects, secrets, now) == PutMany(env, d, objects[..k], secrets, now)
    decreases |objects|
  {
    hide PutOne;
    if k < |objects| {
      assert objects[..|objects| - 1][..k] == objects[..k];
      PutFails(env, d, objects[..|objects| - 1], secrets, now, k);
    } else {
      assert objects[..k] == objects;
    }
  }

  lemma {:induction false} RepairFails(env: Environment, d: DaemonState, oids: seq<Oid>, k: nat)
    requires k <= |oids| && RepairMany(env, d, oids[..k]).0.Err?
    ensures RepairMany(env, d, oids) == RepairMany(env, d, oids[..k])
    decreases |oids|
  {
    hide Objects.Repair;
    if k < |oids| {
      assert oids[..|oids| - 1][..k] == oids[..k];
      RepairFails(env, d, oids[..|oids| - 1], k);
    } else {
      assert oids[..k] == oids;
    }
  }

  lemma {:induction false} PublishManyFails(env: Environment, d: DaemonState, oids: seq<Oid>, now: nat, k: nat)
    requires k <= |oids| && PublishMany(env, d, oids[..k], now).0.Err?
    ensures PublishMany(env, d, oids, now) == PublishMany(env, d, oids[..k], now)
    decreases |oids|
  {
    hide PublishLocal;
    if k < |oids| {
      assert oids[..|oids| - 1][..k] == oids[..k];
      PublishManyFails(env, d, oids[..|oids| - 1], now, k);
    } else {
      assert oids[..k] == oids;
    }
  }
}
