/** What the daemon's other commands do: the policy, the objects and the providers
    after any run, and when a command succeeds. */
module DaemonCommands {
  import opened Prelude
  import opened Core
  import opened Ordering
  import opened Erasure
  import opened GitOid
  import opened GitObjects
  import opened PackResolve
  import opened Network
  import opened Directory
  import opened RefModel
  import opened RepoPolicies
  import Objects = ObjectStore
  import Safety = ObjectStoreSafety
  import Pack
  import opened ObjectAvailability
  import opened LocalAvailability
  import opened Daemon
  import opened DaemonSafety
  import Gate = PublicationGate

  // --------------------------------------------------------------- policy

  /** The change a command makes to the policy, if it is in order. */
  function Asks(c: Command): seq<Change> {
    match c
    case SetRequireSigned(value) => [RequireSigned(value)]
    case GrantWriter(account) => if AccountText(account) then [GrantWriterAccount(account)] else []
    case GrantForce(account) => if AccountText(account) then [GrantForceAccount(account)] else []
    case Protect(refName) => if ValidRefName(refName) then [ProtectRef(refName)] else []
    case _ => []
  }

  function AllAsked(cs: seq<Command>): seq<Change> {
    if cs == [] then [] else AllAsked(cs[..|cs| - 1]) + Asks(cs[|cs| - 1])
  }

  lemma StepPolicy(env: Environment, d: DaemonState, c: Command)
    requires Usable(env) && Safe(env, d)
    ensures Proper(env)
    ensures Step(env, d, c).1.policy == if Asks(c) == [] then d.policy else Changed(d.policy, Asks(c)[0])
  {
    hide Safe, Usable, ApplyVerified, PutOne, PutMany, RepairAndPublish, Objects.SetStoragePolicy, ValidRefName, ValidTransactionId, Changed,
         Sorted, Directory.Pruned, Directory.Published, CheckedProvider, Pack.ParsePack, CidText, AccountText, RefSigning.VerifyWithIdentity;
    ProperOf(env);
    match c
    case UpdateRef(tx, move, signer, now) => VerifiedFrame(env, d, UpdateOf(env, tx, move, d.policy.epoch, signer), Actor.Unsigned, now);
    case UpdateRefSigned(_, _, _, _, _, _, _, _, _) =>
      var certificate := env.id.FromKeyBytes(c.name, c.accountKey, c.deviceKey, c.certificateSignature);
      if certificate.Ok? {
        var u := UpdateOf(env, c.tx, c.move, c.policyEpoch, CidText(certificate.value.deviceId));
        var actor := RefSigning.VerifyWithIdentity(env.id, u, certificate.value, c.signature);
        if actor.Ok? { VerifiedFrame(env, d, u, actor.value, c.now); }
      }
    case PutObject(o, secret, now) => PutOneSafe(env, d, o, secret, now);
    case PutPack(bytes, secrets, now) =>
      if Pack.ParsePack(env.store.sha1, env.zlib, bytes).Ok? {
        PutManySafe(env, d, Pack.ParsePack(env.store.sha1, env.zlib, bytes).value.objects, secrets, now);
      }
    case RepairOne(oid, now) => RepairFrame(env, d, [oid], now);
    case RepairEvery(now) => RepairFrame(env, d, Sorted(d.objects.stored.Keys, env.oidLe), now);
    case SetStorage(_) =>
    case SetRequireSigned(_) =>
    case GrantWriter(_) =>
    case GrantForce(_) =>
    case Protect(_) =>
    case PublishProvider(_, _, _, _, _, _, _) =>
    case PruneProviders(_) =>
  }

  lemma VerifiedFrame(env: Environment, d: DaemonState, u: RefUpdate, actor: Actor, now: nat)
    ensures var e := ApplyVerified(env, d, u, actor, now).1;
            e.policy == d.policy && e.objects == d.objects && e.availability == d.availability
  {
    hide RefStores.Apply, Daemon.Gate, RefStores.Preflight;
  }

  lemma RepairFrame(env: Environment, d: DaemonState, oids: seq<Oid>, now: nat)
    requires Usable(env) && Safe(env, d)
    ensures var e := RepairAndPublish(env, d, oids, now).1; e.refs == d.refs && e.policy == d.policy && e.objects == d.objects
  {
    hide Safety.Whole, RefsSound, LogForward, Usable, RepairMany, PublishMany;
    RepairManyNothing(env, d, oids);
    PublishManyFrame(env, d, oids, now);
  }

  /** The policy after any run is the default one changed by exactly the policy
      commands of the run that were in order; so who may write and force, and what
      is protected, can be read off the commands. */
  lemma {:induction false} PolicyOfRun(env: Environment, cs: seq<Command>)
    requires Usable(env)
    ensures Proper(env)
    ensures RunAll(env, DEFAULT_STATE, cs).policy == ChangedBy(DEFAULT_POLICY, AllAsked(cs))
  {
    hide Step, Safe, Changed, AccountText, ValidRefName;
    ProperOf(env);
    if cs != [] {
      var p, c := cs[..|cs| - 1], cs[|cs| - 1];
      PolicyOfRun(env, p);
      RunSafe(env, p);
      StepPolicy(env, RunAll(env, DEFAULT_STATE, p), c);
      if Asks(c) != [] {
        assert (AllAsked(p) + Asks(c))[..|AllAsked(p)|] == AllAsked(p);
      } else {
        assert AllAsked(p) + [] == AllAsked(p);
      }
    }
  }

  // ------------------------------------------------------------ providers

  lemma {:induction false} PublishAllFiled(id: Identity, d: Records, records: seq<ProviderRecord>)
    requires Filed(d)
    ensures Filed(PublishAll(id, d, records).1)
  {
    hide Filed, Put;
    if records != [] {
      var before := records[..|records| - 1];
      PublishAllFiled(id, d, before);
      var d1 := PublishAll(id, d, before).1;
      PutCovers(d1, Entry(records[|records| - 1], None));
    }
  }

  lemma PublishLocalFiled(id: Identity, d: Records, s: Objects.Objects, oid: Oid, now: nat)
    requires Filed(d)
    ensures Filed(PublishLocal(id, d, s, oid, now).1)
  {
    hide Filed, LocalRecords, PublishAll;
    if oid in s.stored && LocalRecords(s.stored[oid].shards, 1, InADay(now)).Ok? {
      PublishAllFiled(id, d, LocalRecords(s.stored[oid].shards, 1, InADay(now)).value);
    }
  }

  lemma PutOneFiled(env: Environment, d: DaemonState, o: GitObject, secret: Objects.Secret, now: nat)
    requires Filed(d.availability)
    ensures Filed(PutOne(env, d, o, secret, now).1.availability)
  {
    hide Filed, PublishLocal, Objects.Put;
    if Objects.Put(env.store, d.objects, o, secret).Ok? {
      var (record, objects) := Objects.Put(env.store, d.objects, o, secret).value;
      PublishLocalFiled(env.id, d.availability, objects, record.oid, now);
    }
  }

  lemma {:induction false} PutManyFiled(env: Environment, d: DaemonState, objects: seq<GitObject>, secrets: nat -> Objects.Secret, now: nat)
    requires Filed(d.availability)
    ensures Filed(PutMany(env, d, objects, secrets, now).1.availability)
  {
    hide Filed, PutOne;
    if objects != [] {
      var n := |objects| - 1;
      PutManyFiled(env, d, objects[..n], secrets, now);
      PutOneFiled(env, PutMany(env, d, objects[..n], secrets, now).1, objects[n], secrets(n), now);
    }
  }

  lemma {:induction false} RepairManyAvailability(env: Environment, d: DaemonState, oids: seq<Oid>)
    ensures RepairMany(env, d, oids).1.availability == d.availability
  {
    hide Objects.Repair;
    if oids != [] { RepairManyAvailability(env, d, oids[..|oids| - 1]); }
  }

  lemma {:induction false} PublishManyFiled(env: Environment, d: DaemonState, oids: seq<Oid>, now: nat)
    requires Filed(d.availability)
    ensures Filed(PublishMany(env, d, oids, now).1.availability)
  {
    hide Filed, PublishLocal;
    if oids != [] {
      var before := oids[..|oids| - 1];
      PublishManyFiled(env, d, before, now);
      var d1 := PublishMany(env, d, before, now).1;
      PublishLocalFiled(env.id, d1.availability, d1.objects, oids[|oids| - 1], now);
    }
  }

  lemma RepairFiled(env: Environment, d: DaemonState, oids: seq<Oid>, now: nat)
    requires Filed(d.availability)
    ensures Filed(RepairAndPublish(env, d, oids, now).1.availability)
  {
    hide Filed, RepairMany, PublishMany;
    RepairManyAvailability(env, d, oids);
    PublishManyFiled(env, RepairMany(env, d, oids).1, oids, now);
  }

  lemma StepFiled(env: Environment, d: DaemonState, c: Command)
    requires Proper(env) && Filed(d.availability)
    ensures Filed(Step(env, d, c).1.availability)
  {
    hide Filed, ApplyVerified, PutOne, PutMany, RepairAndPublish, Objects.SetStoragePolicy, ValidRefName, ValidTransactionId, Changed,
         Sorted, Directory.Pruned, Put, CheckedProvider, Pack.ParsePack, CidText, AccountText, RefSigning.VerifyWithIdentity, Admit;
    match c
    case UpdateRef(tx, move, signer, now) => VerifiedFrame(env, d, UpdateOf(env, tx, move, d.policy.epoch, signer), Actor.Unsigned, now);
    case UpdateRefSigned(_, _, _, _, _, _, _, _, _) =>
      var certificate := env.id.FromKeyBytes(c.name, c.accountKey, c.deviceKey, c.certificateSignature);
      if certificate.Ok? {
        var u := UpdateOf(env, c.tx, c.move, c.policyEpoch, CidText(certificate.value.deviceId));
        var actor := RefSigning.VerifyWithIdentity(env.id, u, certificate.value, c.signature);
        if actor.Ok? { VerifiedFrame(env, d, u, actor.value, c.now); }
      }
    case PutObject(o, secret, now) => PutOneFiled(env, d, o, secret, now);
    case PutPack(bytes, secrets, now) =>
      if Pack.ParsePack(env.store.sha1, env.zlib, bytes).Ok? {
        PutManyFiled(env, d, Pack.ParsePack(env.store.sha1, env.zlib, bytes).value.objects, secrets, now);
      }
    case RepairOne(oid, now) => RepairFiled(env, d, [oid], now);
    case RepairEvery(now) => RepairFiled(env, d, Sorted(d.objects.stored.Keys, env.oidLe), now);
    case PublishProvider(_, _, _, _, _, _, _) =>
      var record := CheckedProvider(c.record);
      var certificate := env.id.FromKeyBytes(c.name, c.accountKey, c.deviceKey, c.certificateSignature);
      if record.Ok? && certificate.Ok? {
        var admitted := Admit(env.id, Attempt.Signed(record.value, Evidence(certificate.value, c.signature), c.now));
        if admitted.Ok? { PutCovers(d.availability, admitted.value); }
      }
    case PruneProviders(now) => PruneExact(d.availability, now);
    case _ =>
  }

  /** In every reachable state the directory has one entry for each segment, shard,
      peer and index, filed under its segment, so what makes a ref target available
      can be counted from the entries (`PublicationGate.AvailableExact`). */
  lemma {:induction false} AlwaysFiled(env: Environment, cs: seq<Command>)
    requires Proper(env)
    ensures Filed(RunAll(env, DEFAULT_STATE, cs).availability)
  {
    hide Step;
    if cs != [] {
      AlwaysFiled(env, cs[..|cs| - 1]);
      StepFiled(env, RunAll(env, DEFAULT_STATE, cs[..|cs| - 1]), cs[|cs| - 1]);
    }
  }

  // --------------------------------------------- providers, signed by nodes

  /** A signed publication from the command line is taken exactly when its names and
      kinds are in order, it has a role and has not expired, and a certificate of
      well-formed keys and the device's signature over the record verify; then the
      directory has this record published with this evidence, and nothing else moves. */
  lemma PublishProviderExact(env: Environment, d: DaemonState, c: Command)
    requires Proper(env) && c.PublishProvider?
    ensures var (r, after) := Step(env, d, c);
            var p, account, device := c.record, env.id.accountOf(c.accountKey), env.id.deviceOf(c.deviceKey);
            && (r.Ok? <==>
                  && p.shard.segmentCid.kind == EncryptedSegment && p.shard.shardCid.kind == ShardKind
                  && ValidPeerId(p.peerId) && ValidOperatorId(p.operatorId) && ValidRegion(p.region)
                  && p.roles != {} && p.expiresAt > 0 && p.expiresAt > c.now
                  && account.Some? && device.Some? && env.id.certified(c.accountKey, c.deviceKey, c.name, c.certificateSignature)
                  && env.id.signed(c.deviceKey, SigningTranscript(p), c.signature))
            && (r.Ok? ==> after == d.(availability := Put(d.availability, Entry(p, Some(Evidence(
                  Certificate(account.value, device.value, c.accountKey, c.deviceKey, c.name, c.certificateSignature), c.signature))))))
            && (r.Err? ==> after == d)
  {
    hide SigningTranscript, ValidPeerId, ValidOperatorId, ValidRegion, Put;
  }

  /** Pruning and the storage policy, field by field. */
  lemma HousekeepingExact(env: Environment, d: DaemonState, now: nat, storage: StoragePolicy)
    requires Proper(env)
    ensures Step(env, d, PruneProviders(now)) == (Ok(Done), d.(availability := Pruned(d.availability, now)))
    ensures var (r, after) := Step(env, d, SetStorage(storage));
            var valid := storage.dataShards > 0 && storage.parityShards > 0 &&
                         0 < storage.minOperators <= storage.dataShards && 0 < storage.minRegions <= storage.dataShards;
            && (r.Ok? <==> valid && d.objects.stored == map[])
            && after == (if r.Ok? then d.(objects := Objects.Objects(storage, map[])) else d)
  {
    hide Pruned;
  }

  /** A new daemon: no refs, objects or providers, everyone may write, and ten data
      and six parity shards over at least three operators and two regions. */
  lemma DefaultState()
    ensures DEFAULT_STATE.refs.refs == map[] && DEFAULT_STATE.refs.mutations == [] && DEFAULT_STATE.refs.checkpoints == []
    ensures DEFAULT_STATE.policy.epoch == 0 && !DEFAULT_STATE.policy.requireSigned && DEFAULT_STATE.policy.protectedRefs == {}
    ensures DEFAULT_STATE.objects == Objects.Objects(StoragePolicy(10, 6, 3, 2), map[]) && DEFAULT_STATE.availability == map[]
  {
  }

  /** The policy in force can always be met. */
  lemma {:induction false} StorageAlwaysValid(env: Environment, cs: seq<Command>)
    requires Usable(env)
    ensures Proper(env) && Objects.ValidStorage(RunAll(env, DEFAULT_STATE, cs).objects.policy)
  {
    hide Step, Safe;
    ProperOf(env);
    if cs != [] {
      var p, c := cs[..|cs| - 1], cs[|cs| - 1];
      StorageAlwaysValid(env, p);
      RunSafe(env, p);
      var d := RunAll(env, DEFAULT_STATE, p);
      if c.SetStorage? {
        HousekeepingExact(env, d, 0, c.storage);
      } else {
        PolicyStays(env, d, c);
      }
    }
  }

  lemma PolicyStays(env: Environment, d: DaemonState, c: Command)
    requires Usable(env) && Safe(env, d) && Proper(env) && !c.SetStorage?
    ensures Step(env, d, c).1.objects.policy == d.objects.policy
  {
    hide Safe, ApplyVerified, PutOne, PutMany, RepairAndPublish, ValidRefName, ValidTransactionId, Changed,
         Sorted, Directory.Pruned, Directory.Published, CheckedProvider, Pack.ParsePack, CidText, AccountText, RefSigning.VerifyWithIdentity;
    match c
    case UpdateRef(tx, move, signer, now) => VerifiedFrame(env, d, UpdateOf(env, tx, move, d.policy.epoch, signer), Actor.Unsigned, now);
    case UpdateRefSigned(_, _, _, _, _, _, _, _, _) =>
      var certificate := env.id.FromKeyBytes(c.name, c.accountKey, c.deviceKey, c.certificateSignature);
      if certificate.Ok? {
        var u := UpdateOf(env, c.tx, c.move, c.policyEpoch, CidText(certificate.value.deviceId));
        var actor := RefSigning.VerifyWithIdentity(env.id, u, certificate.value, c.signature);
        if actor.Ok? { VerifiedFrame(env, d, u, actor.value, c.now); }
      }
    case PutObject(o, secret, now) => PutOneKeys(env, d, o, secret, now);
    case PutPack(bytes, secrets, now) =>
      if Pack.ParsePack(env.store.sha1, env.zlib, bytes).Ok? {
        PutManyKeys(env, d, Pack.ParsePack(env.store.sha1, env.zlib, bytes).value.objects, secrets, now);
      }
    case RepairOne(oid, now) => RepairFrame(env, d, [oid], now);
    case RepairEvery(now) => RepairFrame(env, d, Sorted(d.objects.stored.Keys, env.oidLe), now);
    case _ =>
  }

  // -------------------------------------------------------------- imports

  function IdsOf(env: Environment, objects: seq<GitObject>): set<Oid> {
    set o | o in objects :: ObjectId(env.store.sha1, o)
  }

  /** A put adds at most the object's own id, and exactly that if it succeeds. */
  lemma PutOneKeys(env: Environment, d: DaemonState, o: GitObject, secret: Objects.Secret, now: nat)
    ensures var (r, after) := PutOne(env, d, o, secret, now);
            && after.refs == d.refs && after.policy == d.policy && after.objects.policy == d.objects.policy
            && d.objects.stored.Keys <= after.objects.stored.Keys <= d.objects.stored.Keys + {ObjectId(env.store.sha1, o)}
            && (r.Ok? ==> ObjectId(env.store.sha1, o) in after.objects.stored)
  {
    hide PublishLocal, Objects.Store, Canonical, ParseCanonical;
  }

  lemma IdsOfPush(env: Environment, objects: seq<GitObject>, o: GitObject)
    ensures IdsOf(env, objects + [o]) == IdsOf(env, objects) + {ObjectId(env.store.sha1, o)} && IdsOf(env, []) == {}
  {
    hide ObjectId;
    assert forall x :: x in objects + [o] <==> x in objects || x == o;
  }

  lemma {:induction false} PutManyKeys(env: Environment, d: DaemonState, objects: seq<GitObject>, secrets: nat -> Objects.Secret, now: nat)
    ensures var (r, after) := PutMany(env, d, objects, secrets, now);
            && after.refs == d.refs && after.policy == d.policy && after.objects.policy == d.objects.policy
            && d.objects.stored.Keys <= after.objects.stored.Keys <= d.objects.stored.Keys + IdsOf(env, objects)
            && (r.Ok? ==> after.objects.stored.Keys == d.objects.stored.Keys + IdsOf(env, objects))
  {
    hide PutOne, ObjectId, IdsOf;
    if objects == [] {
      NothingPut(env, d, secrets, now);
    } else {
      var n := |objects| - 1;
      PutManyKeys(env, d, objects[..n], secrets, now);
      PutOneKeys(env, PutMany(env, d, objects[..n], secrets, now).1, objects[n], secrets(n), now);
      assert objects == objects[..n] + [objects[n]];
      IdsOfPush(env, objects[..n], objects[n]);
    }
  }

  lemma NothingPut(env: Environment, d: DaemonState, secrets: nat -> Objects.Secret, now: nat)
    ensures PutMany(env, d, [], secrets, now) == (Ok(Done), d) && IdsOf(env, []) == {}
  {
  }

  /** Publications of local nodes are never refused. */
  lemma {:induction false} LocalNeverRefused(id: Identity, d: Records, records: seq<ProviderRecord>)
    requires forall r :: r in records ==> r.roles != {} && r.expiresAt > 0
    ensures PublishAll(id, d, records).0.Ok?
  {
    hide Put;
    if records != [] {
      assert records[|records| - 1] in records;
      LocalNeverRefused(id, d, records[..|records| - 1]);
    }
  }

  /** So in a sound state a put succeeds exactly when the object store takes it. */
  lemma PutSucceedsExact(env: Environment, d: DaemonState, o: GitObject, secret: Objects.Secret, now: nat)
    requires Usable(env) && Safe(env, d) && d.objects.policy.Total() <= TWO_TO_64
    ensures PutOne(env, d, o, secret, now).0.Ok? <==>
            |o.payload| < TWO_TO_64 &&
            (ObjectId(env.store.sha1, o) in d.objects.stored || Safety.Storable(env.store, d.objects.policy, o, secret))
  {
    hide Objects.SoundLibrary, Safety.Whole, Safety.Storable, Objects.Put, PublishLocal, RefsSound, LogForward;
    Safety.PutSucceedsExact(env.store, d.objects, o, secret);
    if Objects.Put(env.store, d.objects, o, secret).Ok? {
      Safety.PutWhole(env.store, d.objects, o, secret);
      var (record, objects) := Objects.Put(env.store, d.objects, o, secret).value;
      PublishLocalExact(env, d.availability, objects, record.oid, now);
    }
  }

  /** Publishing the local nodes of a whole object always succeeds, and then every
      shard of it is covered in the directory until its record expires. */
  lemma PublishLocalExact(env: Environment, availability: Records, objects: Objects.Objects, oid: Oid, now: nat)
    requires Objects.SoundLibrary(env.store) && Safety.Whole(env.store, objects) && objects.policy.Total() <= TWO_TO_64
    requires oid in objects.stored
    ensures var (r, after) := PublishLocal(env.id, availability, objects, oid, now);
            var shards := objects.stored[oid].shards;
            && r.Ok? && |shards| == objects.policy.dataShards + objects.policy.parityShards
            && (Filed(availability) ==>
                  forall i :: 0 <= i < |shards| ==> Covers(after, NodeRecord(shards, InADay(now), i)))
  {
    hide Objects.SoundLibrary, Safety.WholeObject, LocalRecords, PublishAll, NodeRecord, InPlace, Covers, Filed, Safety.Whole;
    var so, expires := objects.stored[oid], InADay(now);
    WholeAt(env.store, objects, oid);
    ShardsInPlace(env.store, objects.policy, oid, so);
    LocalRecordsExact(so.shards, so.record.segmentCid, expires, |so.shards|);
    assert so.shards[..|so.shards|] == so.shards;
    var records := NodeRecords(so.shards, expires);
    assert records[..|so.shards|] == records;
    forall r | r in records
      ensures r.roles != {} && r.expiresAt > 0
    {
      RecordRoles(so.shards, expires, r);
    }
    LocalNeverRefused(env.id, availability, records);
    if Filed(availability) {
      PublishAllCovers(env.id, availability, records);
      assert forall i :: 0 <= i < |records| ==> records[i] in records;
    }
  }

  lemma RecordRoles(shards: seq<Shard>, expiresAt: nat, r: ProviderRecord)
    requires expiresAt > 0 && r in NodeRecords(shards, expiresAt)
    ensures r.roles == {StorageRole} && r.expiresAt == expiresAt
  {
    hide Dec;
  }

  lemma {:induction false} PublishAllCovers(id: Identity, d: Records, records: seq<ProviderRecord>)
    requires Filed(d) && PublishAll(id, d, records).0.Ok?
    ensures var after := PublishAll(id, d, records).1;
            Filed(after) && forall r :: r in records ==> Covers(after, r)
  {
    hide Filed, Put, Covers;
    if records != [] {
      var before, last := records[..|records| - 1], records[|records| - 1];
      PublishAllCovers(id, d, before);
      var d1 := PublishAll(id, d, before).1;
      PutCovers(d1, Entry(last, None));
      forall r | r in before
        ensures Covers(Put(d1, Entry(last, None)), r)
      {
        PutKeepsCovered(d1, Entry(last, None), r);
      }
      assert records == before + [last];
    }
  }

  lemma {:induction false} ImportGoesOn(env: Environment, d: DaemonState, objects: seq<GitObject>, secrets: nat -> Objects.Secret, now: nat)
    requires Usable(env) && Safe(env, d) && d.objects.policy.Total() <= TWO_TO_64
    requires forall k :: 0 <= k < |objects| ==>
               |objects[k].payload| < TWO_TO_64 && Safety.Storable(env.store, d.objects.policy, objects[k], secrets(k))
    ensures PutMany(env, d, objects, secrets, now).0.Ok?
  {
    hide PutOne, Safe, Usable, Safety.Storable;
    if objects != [] {
      var n := |objects| - 1;
      ImportGoesOn(env, d, objects[..n], secrets, now);
      PutManySafe(env, d, objects[..n], secrets, now);
      PutManyKeys(env, d, objects[..n], secrets, now);
      PutSucceedsExact(env, PutMany(env, d, objects[..n], secrets, now).1, objects[n], secrets(n), now);
    }
  }

  /** An import: a pack that does not parse changes nothing; otherwise refs and policy
      stay, only objects of the pack are added, all of them if it succeeds, each
      reading back under its id; and it succeeds whenever each can be stored. */
  lemma ImportExact(env: Environment, d: DaemonState, bytes: Bytes, secrets: nat -> Objects.Secret, now: nat)
    requires Usable(env) && Safe(env, d) && d.objects.policy.Total() <= TWO_TO_64
    ensures Proper(env)
    ensures var (r, after) := Step(env, d, PutPack(bytes, secrets, now));
            var pack := Pack.ParsePack(env.store.sha1, env.zlib, bytes);
            && (pack.Err? ==> r == Err(GitFailed(pack.error)) && after == d)
            && (pack.Ok? ==>
                  var ids := IdsOf(env, pack.value.objects);
                  && after.refs == d.refs && after.policy == d.policy
                  && d.objects.stored.Keys <= after.objects.stored.Keys <= d.objects.stored.Keys + ids
                  && (r.Ok? ==> ids <= after.objects.stored.Keys)
                  && (forall x :: x in after.objects.stored ==>
                        && Objects.Get(env.store, after.objects, x).Ok?
                        && ObjectId(env.store.sha1, Objects.Get(env.store, after.objects, x).value) == x)
                  && ((forall k :: 0 <= k < |pack.value.objects| ==>
                         |pack.value.objects[k].payload| < TWO_TO_64 &&
                         Safety.Storable(env.store, d.objects.policy, pack.value.objects[k], secrets(k))) ==> r.Ok?))
  {
    hide Pack.ParsePack, PutMany, Safety.Storable, Safety.Whole, RefsSound, LogForward, Objects.Get, ObjectId, Objects.SoundLibrary;
    ProperOf(env);
    var pack := Pack.ParsePack(env.store.sha1, env.zlib, bytes);
    if pack.Ok? {
      var objects := pack.value.objects;
      PutManyKeys(env, d, objects, secrets, now);
      PutManySafe(env, d, objects, secrets, now);
      var after := PutMany(env, d, objects, secrets, now).1;
      forall x | x in after.objects.stored
        ensures Objects.Get(env.store, after.objects, x).Ok? && ObjectId(env.store.sha1, Objects.Get(env.store, after.objects, x).value) == x
      {
        Safety.WholeView(env.store, after.objects, x);
      }
      if forall k :: 0 <= k < |objects| ==> |objects[k].payload| < TWO_TO_64 && Safety.Storable(env.store, d.objects.policy, objects[k], secrets(k)) {
        ImportGoesOn(env, d, objects, secrets, now);
      }
    }
  }

  // --------------------------------------------------------------- repair

  lemma LocalKeepsCovered(id: Identity, d: Records, s: Objects.Objects, oid: Oid, now: nat, r: ProviderRecord)
    requires Filed(d) && Covers(d, r)
    ensures Covers(PublishLocal(id, d, s, oid, now).1, r)
  {
    hide Filed, Covers, LocalRecords, PublishAll;
    if oid in s.stored && LocalRecords(s.stored[oid].shards, 1, InADay(now)).Ok? {
      PublishAllKeepsCovered(id, d, LocalRecords(s.stored[oid].shards, 1, InADay(now)).value, r);
    }
  }

  lemma {:induction false} PublishAllKeepsCovered(id: Identity, d: Records, records: seq<ProviderRecord>, r: ProviderRecord)
    requires Filed(d) && Covers(d, r)
    ensures Covers(PublishAll(id, d, records).1, r)
  {
    hide Filed, Covers, Put;
    if records != [] {
      var before, last := records[..|records| - 1], records[|records| - 1];
      PublishAllKeepsCovered(id, d, before, r);
      PublishAllFiled(id, d, before);
      PutKeepsCovered(PublishAll(id, d, before).1, Entry(last, None), r);
    }
  }

  ghost predicate NodesCovered(d: DaemonState, availability: Records, oid: Oid, now: nat) {
    oid in d.objects.stored &&
    forall i :: 0 <= i < |d.objects.stored[oid].shards| ==> Covers(availability, NodeRecord(d.objects.stored[oid].shards, InADay(now), i))
  }

  lemma {:induction false} PublishManyCovers(env: Environment, d: DaemonState, oids: seq<Oid>, now: nat)
    requires Usable(env) && Safe(env, d) && Filed(d.availability) && d.objects.policy.Total() <= TWO_TO_64
    requires forall x :: x in oids ==> x in d.objects.stored
    ensures var (r, after) := PublishMany(env, d, oids, now);
            r.Ok? && Filed(after.availability) && forall x :: x in oids ==> NodesCovered(d, after.availability, x, now)
  {
    hide Filed, Covers, PublishLocal, Safety.Whole, RefsSound, LogForward, NodeRecord, Objects.SoundLibrary;
    if oids != [] {
      var before, last := oids[..|oids| - 1], oids[|oids| - 1];
      PublishManyCovers(env, d, before, now);
      PublishManyFrame(env, d, before, now);
      var d1 := PublishMany(env, d, before, now).1;
      PublishLocalExact(env, d1.availability, d1.objects, last, now);
      PublishLocalFiled(env.id, d1.availability, d1.objects, last, now);
      forall x, i | x in before && 0 <= i < |d.objects.stored[x].shards|
        ensures Covers(PublishLocal(env.id, d1.availability, d1.objects, last, now).1, NodeRecord(d.objects.stored[x].shards, InADay(now), i))
      {
        assert NodesCovered(d, d1.availability, x, now);
        LocalKeepsCovered(env.id, d1.availability, d1.objects, last, now, NodeRecord(d.objects.stored[x].shards, InADay(now), i));
      }
      assert oids == before + [last];
    }
  }

  /** After a successful put the object is stored, and every shard of it is covered
      in the directory for a day. */
  lemma PutCovered(env: Environment, d: DaemonState, o: GitObject, secret: Objects.Secret, now: nat)
    requires Usable(env) && Safe(env, d) && Filed(d.availability) && d.objects.policy.Total() <= TWO_TO_64
    requires PutOne(env, d, o, secret, now).0.Ok?
    ensures var after := PutOne(env, d, o, secret, now).1;
            NodesCovered(after, after.availability, ObjectId(env.store.sha1, o), now)
  {
    hide Objects.SoundLibrary, Safety.Whole, Objects.Put, PublishLocal, RefsSound, LogForward, NodeRecord, Covers, Filed, ObjectId;
    Safety.PutWhole(env.store, d.objects, o, secret);
    var (record, objects) := Objects.Put(env.store, d.objects, o, secret).value;
    PublishLocalExact(env, d.availability, objects, record.oid, now);
  }

  /** A repair of stored objects changes nothing but the directory, where afterwards
      every shard of each of them is covered for a day; if one is not stored nothing
      changes at all, because repairs come before publications. */
  lemma RepairCommandExact(env: Environment, d: DaemonState, oid: Oid, now: nat)
    requires Usable(env) && Safe(env, d) && Filed(d.availability) && d.objects.policy.Total() <= TWO_TO_64
    ensures Proper(env)
    ensures var (r, after) := Step(env, d, RepairOne(oid, now));
            if oid in d.objects.stored then
              r == Ok(Done) && after == d.(availability := after.availability) && NodesCovered(d, after.availability, oid, now)
            else r == Err(StoreFailed(Objects.MissingObject(oid))) && after == d
    ensures var (r, after) := Step(env, d, RepairEvery(now));
            && r == Ok(Done) && after == d.(availability := after.availability)
            && forall x :: x in d.objects.stored ==> NodesCovered(d, after.availability, x, now)
  {
    hide Filed, NodesCovered, Safety.Whole, RefsSound, LogForward, Objects.SoundLibrary, Sorted, PublishMany, RepairMany, TotalOrder;
    ProperOf(env);
    var every := Sorted(d.objects.stored.Keys, env.oidLe);
    RepairFrame(env, d, [oid], now);
    RepairFrame(env, d, every, now);
    RepairManyNothing(env, d, every);
    RepairDone(env, d, every, now);
    PublishManyCovers(env, d, every, now);
    RepairManyNothing(env, d, [oid]);
    if oid in d.objects.stored {
      RepairDone(env, d, [oid], now);
      PublishManyCovers(env, d, [oid], now);
    } else {
      RepairUnknown(env, d, oid);
    }
  }

  lemma {:induction false} RepairDone(env: Environment, d: DaemonState, oids: seq<Oid>, now: nat)
    ensures RepairMany(env, d, oids).0.Ok? ==> RepairMany(env, d, oids).0 == Ok(Done)
    ensures PublishMany(env, d, oids, now).0.Ok? ==> PublishMany(env, d, oids, now).0 == Ok(Done)
  {
    hide Objects.Repair, PublishLocal;
  }

  lemma RepairUnknown(env: Environment, d: DaemonState, oid: Oid)
    requires oid !in d.objects.stored
    ensures RepairMany(env, d, [oid]) == (Err(StoreFailed(Objects.MissingObject(oid))), d)
  {
    assert [oid][..0] == [];
    assert RepairMany(env, d, []) == (Ok(Done), d);
  }
}
