/** Safety of the daemon over whole runs of commands from its default state. */
module DaemonSafety {
  import opened Prelude
  import opened Core
  import opened Ordering
  import opened GitOid
  import opened GitObjects
  import opened PackResolve
  import opened RefModel
  import opened RefStores
  import opened RepoPolicies
  import Graph = ObjectGraph
  import Objects = ObjectStore
  import Safety = ObjectStoreSafety
  import opened ObjectAvailability
  import opened Daemon

  /** The libraries keep their promises. */
  ghost predicate Usable(env: Environment) {
    Proper(env) && Objects.SoundLibrary(env.store)
  }

  function Viewed(env: Environment, d: DaemonState): Graph.View {
    Objects.View(env.store, d.objects)
  }

  function RunAll(env: Environment, d: DaemonState, cs: seq<Command>): DaemonState
    requires Proper(env)
  {
    if cs == [] then d else Step(env, RunAll(env, d, cs[..|cs| - 1]), cs[|cs| - 1]).1
  }

  // ------------------------------------------------------- the invariant

  /** Each live ref names a stored durable object; each live branch a sound tip. */
  ghost predicate RefsSound(v: Graph.View, refs: map<string, Oid>) {
    forall name :: name in refs ==>
      refs[name] in v && v[refs[name]].durable && (Graph.IsBranch(name) ==> Graph.SoundTip(v, refs[name]))
  }

  /** A branch move that was not forced and had an old tip went forward from it. */
  ghost predicate Forward(v: Graph.View, m: Mutation) {
    "refs/heads/" <= m.refName && !m.force && m.oldOid.Some? && m.newOid.Some? ==>
      Graph.HasAncestor(v, m.newOid.value, m.oldOid.value)
  }

  ghost predicate LogForward(v: Graph.View, ms: seq<Mutation>) {
    forall i :: 0 <= i < |ms| ==> Forward(v, ms[i])
  }

  ghost predicate Safe(env: Environment, d: DaemonState) {
    && Safety.Whole(env.store, d.objects)
    && RefsSound(Viewed(env, d), d.refs.refs) && LogForward(Viewed(env, d), d.refs.mutations)
  }

  lemma SoundGrows(v: Graph.View, w: Graph.View, refs: map<string, Oid>, ms: seq<Mutation>)
    requires Graph.Extends(v, w) && RefsSound(v, refs) && LogForward(v, ms)
    ensures RefsSound(w, refs) && LogForward(w, ms)
  {
    hide Graph.SoundTip, Graph.HasAncestor;
    forall name | name in refs && Graph.IsBranch(name)
      ensures Graph.SoundTip(w, refs[name])
    {
      Graph.SoundTipStays(v, w, refs[name]);
    }
    forall i | 0 <= i < |ms|
      ensures Forward(w, ms[i])
    {
      var m := ms[i];
      assert Forward(v, m);
      if Graph.IsBranch(m.refName) && !m.force && m.oldOid.Some? && m.newOid.Some? {
        Graph.HasAncestorStays(v, w, m.newOid.value, m.oldOid.value);
      }
    }
  }

  // ----------------------------------------------------------- ref moves

  /** An update that passed validation keeps refs and log sound. */
  lemma AppliedSound(hash: Hash, v: Graph.View, s: Store, u: RefUpdate)
    requires RefsSound(v, s.refs) && LogForward(v, s.mutations) && Preflight(s, u).None?
    requires Graph.ValidateUpdate(v, u.refName, u.expectedOld, u.newOid, u.force).Ok?
    ensures RefsSound(v, Apply(hash, s, u).0.refs) && LogForward(v, Apply(hash, s, u).0.mutations)
  {
    hide Graph.SoundTip, Graph.HasAncestor, Graph.ValidateUpdate, NextCheckpoint, Fingerprint;
    Graph.ValidateUpdateSound(v, u.refName, u.expectedOld, u.newOid, u.force);
    if Current(s.refs, u.refName) == u.expectedOld {
      assert Forward(v, MutationOf(s, u));
    }
  }

  lemma ApplyVerifiedSafe(env: Environment, d: DaemonState, u: RefUpdate, actor: Actor, now: nat)
    requires Safe(env, d)
    ensures Safe(env, ApplyVerified(env, d, u, actor, now).1)
  {
    hide Objects.View, Safety.Whole, RefsSound, LogForward, Apply, Preflight, Authorize, RequireAvailable, Graph.ValidateUpdate;
    if Preflight(d.refs, u).None? && Gate(env, d, u, actor, now).Ok? {
      AppliedSound(env.store.hash, Viewed(env, d), d.refs, u);
    }
  }

  // -------------------------------------------------------------- objects

  /** The objects may only grow; refs and log stay. */
  lemma GrownSafe(env: Environment, d: DaemonState, e: DaemonState)
    requires Safe(env, d) && Safety.Whole(env.store, e.objects) && e.refs == d.refs && e.objects.policy == d.objects.policy
    requires forall x :: x in d.objects.stored ==> x in e.objects.stored && e.objects.stored[x] == d.objects.stored[x]
    ensures Safe(env, e)
  {
    hide Safety.Whole, RefsSound, LogForward, Objects.View, Graph.Extends;
    Safety.ViewExtends(env.store, d.objects, e.objects);
    SoundGrows(Viewed(env, d), Viewed(env, e), d.refs.refs, d.refs.mutations);
  }

  lemma PutOneSafe(env: Environment, d: DaemonState, o: GitObject, secret: Objects.Secret, now: nat)
    requires Usable(env) && Safe(env, d)
    ensures Safe(env, PutOne(env, d, o, secret, now).1)
    ensures PutOne(env, d, o, secret, now).1.refs == d.refs && PutOne(env, d, o, secret, now).1.policy == d.policy
  {
    hide Safety.Whole, RefsSound, LogForward, Objects.View, Objects.Put, Objects.SoundLibrary, PublishLocal;
    if Objects.Put(env.store, d.objects, o, secret).Ok? {
      Safety.PutWhole(env.store, d.objects, o, secret);
      GrownSafe(env, d, PutOne(env, d, o, secret, now).1);
    }
  }

  lemma {:induction false} PutManySafe(env: Environment, d: DaemonState, objects: seq<GitObject>, secrets: nat -> Objects.Secret, now: nat)
    requires Usable(env) && Safe(env, d)
    ensures Safe(env, PutMany(env, d, objects, secrets, now).1)
    ensures PutMany(env, d, objects, secrets, now).1.refs == d.refs && PutMany(env, d, objects, secrets, now).1.policy == d.policy
  {
    hide PutOne, Safe, Usable;
    if objects != [] {
      var n := |objects| - 1;
      PutManySafe(env, d, objects[..n], secrets, now);
      PutOneSafe(env, PutMany(env, d, objects[..n], secrets, now).1, objects[n], secrets(n), now);
    }
  }

  /** Repairing whole objects changes nothing, found or not. */
  lemma {:induction false} RepairManyNothing(env: Environment, d: DaemonState, oids: seq<Oid>)
    requires Usable(env) && Safety.Whole(env.store, d.objects)
    ensures RepairMany(env, d, oids).1 == d
    ensures (forall x :: x in oids ==> x in d.objects.stored) ==> RepairMany(env, d, oids).0.Ok?
  {
    hide Safety.Whole, Objects.SoundLibrary, Objects.RepairStored;
    if oids != [] {
      var p, oid := oids[..|oids| - 1], oids[|oids| - 1];
      RepairManyNothing(env, d, p);
      if oid in d.objects.stored {
        Safety.RepairWhole(env.store, d.objects, oid);
      }
    }
  }

  lemma {:induction false} PublishManyFrame(env: Environment, d: DaemonState, oids: seq<Oid>, now: nat)
    ensures var e := PublishMany(env, d, oids, now).1; e.refs == d.refs && e.policy == d.policy && e.objects == d.objects
  {
    hide PublishLocal;
    if oids != [] { PublishManyFrame(env, d, oids[..|oids| - 1], now); }
  }

  lemma RepairSafe(env: Environment, d: DaemonState, oids: seq<Oid>, now: nat)
    requires Usable(env) && Safe(env, d)
    ensures Safe(env, RepairAndPublish(env, d, oids, now).1)
    ensures RepairAndPublish(env, d, oids, now).1.refs == d.refs
  {
    hide Safety.Whole, RefsSound, LogForward, Objects.View, RepairMany, PublishMany, Usable;
    RepairManyNothing(env, d, oids);
    PublishManyFrame(env, d, oids, now);
  }

  /** The storage policy is only changed while nothing is stored. */
  lemma SetStorageSafe(env: Environment, d: DaemonState, storage: Objects.Erasure.StoragePolicy)
    requires Safe(env, d) && Objects.SetStoragePolicy(d.objects, storage).Ok?
    ensures Safe(env, d.(objects := Objects.SetStoragePolicy(d.objects, storage).value))
  {
    hide RefsSound, LogForward, Safety.WholeObject;
    var e := d.(objects := Objects.SetStoragePolicy(d.objects, storage).value);
    assert Viewed(env, e) == Viewed(env, d);
  }

  // ------------------------------------------------------------- one step

  lemma StepSafe(env: Environment, d: DaemonState, c: Command)
    requires Usable(env) && Safe(env, d)
    ensures Safe(env, Step(env, d, c).1)
  {
    hide Safety.Whole, RefsSound, LogForward, Objects.View, ApplyVerified, PutOne, PutMany, RepairAndPublish, Objects.SetStoragePolicy,
         ValidRefName, ValidTransactionId, Changed, Sorted, Directory.Pruned, Directory.Published, CheckedProvider, Pack.ParsePack,
         RefSigning.VerifyWithIdentity, CidText, AccountText;
    match c
    case UpdateRef(tx, move, signer, now) =>
      ApplyVerifiedSafe(env, d, UpdateOf(env, tx, move, d.policy.epoch, signer), Unsigned, now);
    case UpdateRefSigned(_, _, _, _, _, _, _, _, _) =>
      SignedSafe(env, d, c);
    case PutObject(o, secret, now) => PutOneSafe(env, d, o, secret, now);
    case PutPack(bytes, secrets, now) =>
      if Pack.ParsePack(env.store.sha1, env.zlib, bytes).Ok? {
        PutManySafe(env, d, Pack.ParsePack(env.store.sha1, env.zlib, bytes).value.objects, secrets, now);
      }
    case RepairOne(oid, now) => RepairSafe(env, d, [oid], now);
    case RepairEvery(now) => RepairSafe(env, d, Sorted(d.objects.stored.Keys, env.oidLe), now);
    case SetStorage(storage) =>
      if Objects.SetStoragePolicy(d.objects, storage).Ok? { SetStorageSafe(env, d, storage); }
    case SetRequireSigned(_) =>
    case GrantWriter(_) =>
    case GrantForce(_) =>
    case Protect(_) =>
    case PublishProvider(_, _, _, _, _, _, _) =>
    case PruneProviders(_) =>
  }

  lemma SignedSafe(env: Environment, d: DaemonState, c: Command)
    requires Safe(env, d) && c.UpdateRefSigned?
    ensures Safe(env, UpdateSigned(env, d, c).1)
  {
    hide Safe, ApplyVerified, ValidRefName, ValidTransactionId, RefSigning.VerifyWithIdentity, CidText;
    var certificate := env.id.FromKeyBytes(c.name, c.accountKey, c.deviceKey, c.certificateSignature);
    if certificate.Ok? {
      var u := UpdateOf(env, c.tx, c.move, c.policyEpoch, CidText(certificate.value.deviceId));
      var actor := RefSigning.VerifyWithIdentity(env.id, u, certificate.value, c.signature);
      if actor.Ok? { ApplyVerifiedSafe(env, d, u, actor.value, c.now); }
    }
  }

  lemma DefaultSafe(env: Environment)
    ensures Safe(env, DEFAULT_STATE)
  {
  }

  lemma {:induction false} RunSafe(env: Environment, cs: seq<Command>)
    requires Usable(env)
    ensures Safe(env, RunAll(env, DEFAULT_STATE, cs))
  {
    hide Safe, Step;
    if cs == [] {
      DefaultSafe(env);
    } else {
      RunSafe(env, cs[..|cs| - 1]);
      StepSafe(env, RunAll(env, DEFAULT_STATE, cs[..|cs| - 1]), cs[|cs| - 1]);
    }
  }

  // -------------------------------------------------- the safety theorem

  /** In every state reached from the default one: each live ref names an object
      that is stored, durable and reads back under its id; each live branch tip is
      a commit whose tree closure and direct parents are stored with the right
      kinds; and every committed branch move that was not forced went forward. */
  lemma BranchSafety(env: Environment, cs: seq<Command>)
    requires Usable(env)
    ensures var d := RunAll(env, DEFAULT_STATE, cs);
            && (forall name :: name in d.refs.refs ==>
                  && d.refs.refs[name] in d.objects.stored && d.objects.stored[d.refs.refs[name]].record.durable
                  && Objects.Get(env.store, d.objects, d.refs.refs[name]).Ok?
                  && ObjectId(env.store.sha1, Objects.Get(env.store, d.objects, d.refs.refs[name]).value) == d.refs.refs[name])
            && (forall name :: name in d.refs.refs && "refs/heads/" <= name ==> Graph.SoundTip(Viewed(env, d), d.refs.refs[name]))
            && (forall m :: m in d.refs.mutations ==> Forward(Viewed(env, d), m))
  {
    hide Step, Safety.Whole, Graph.SoundTip, Forward, Objects.SoundLibrary, Objects.ReadObject, Canonical;
    RunSafe(env, cs);
    var d := RunAll(env, DEFAULT_STATE, cs);
    forall name | name in d.refs.refs
      ensures Objects.Get(env.store, d.objects, d.refs.refs[name]).Ok?
      ensures ObjectId(env.store.sha1, Objects.Get(env.store, d.objects, d.refs.refs[name]).value) == d.refs.refs[name]
    {
      Safety.WholeView(env.store, d.objects, d.refs.refs[name]);
    }
  }

  // ------------------------------------------ the refs are a run of updates

  predicate WellNamedUpdate(u: RefUpdate) { ValidRefName(u.refName) && ValidTransactionId(u.tx) }

  ghost predicate RefsRun(hash: Hash, s: Store, n: nat) {
    exists us: seq<RefUpdate> :: |us| <= n && s == Run(hash, EMPTY, us) && forall u :: u in us ==> WellNamedUpdate(u)
  }

  lemma RefsRunMore(hash: Hash, s: Store, n: nat)
    requires RefsRun(hash, s, n)
    ensures RefsRun(hash, s, n + 1)
  {
    hide Run, WellNamedUpdate;
    var us: seq<RefUpdate> :| |us| <= n && s == Run(hash, EMPTY, us) && forall u :: u in us ==> WellNamedUpdate(u);
  }

  lemma RefsRunStep(hash: Hash, s: Store, n: nat, u: RefUpdate)
    requires RefsRun(hash, s, n) && WellNamedUpdate(u)
    ensures RefsRun(hash, Apply(hash, s, u).0, n + 1)
  {
    hide Apply, WellNamedUpdate;
    var us: seq<RefUpdate> :| |us| <= n && s == Run(hash, EMPTY, us) && forall u :: u in us ==> WellNamedUpdate(u);
    var more := us + [u];
    assert more[..|more| - 1] == us;
  }

  /** A command applies at most one well-named update to the refs. */
  lemma StepRefs(env: Environment, d: DaemonState, c: Command, n: nat)
    requires Usable(env) && Safe(env, d) && RefsRun(env.store.hash, d.refs, n)
    ensures RefsRun(env.store.hash, Step(env, d, c).1.refs, n + 1)
  {
    hide RefsRun, Safe, Usable, Gate, Apply, Preflight, PutOne, PutMany, RepairAndPublish, Objects.SetStoragePolicy,
         ValidRefName, ValidTransactionId, Changed, Sorted, Directory.Pruned, Directory.Published, CheckedProvider, Pack.ParsePack,
         RefSigning.VerifyWithIdentity, CidText, AccountText;
    RefsRunMore(env.store.hash, d.refs, n);
    ProperOf(env);
    match c
    case UpdateRef(tx, move, signer, now) =>
      var u := UpdateOf(env, tx, move, d.policy.epoch, signer);
      if ValidTransactionId(tx) && ValidRefName(move.refName) { RefsRunStep(env.store.hash, d.refs, n, u); }
    case UpdateRefSigned(_, _, _, _, _, _, _, _, _) =>
      var certificate := env.id.FromKeyBytes(c.name, c.accountKey, c.deviceKey, c.certificateSignature);
      if certificate.Ok? && ValidTransactionId(c.tx) && ValidRefName(c.move.refName) {
        RefsRunStep(env.store.hash, d.refs, n, UpdateOf(env, c.tx, c.move, c.policyEpoch, CidText(certificate.value.deviceId)));
      }
    case PutObject(o, secret, now) => PutOneSafe(env, d, o, secret, now);
    case PutPack(bytes, secrets, now) =>
      if Pack.ParsePack(env.store.sha1, env.zlib, bytes).Ok? {
        PutManySafe(env, d, Pack.ParsePack(env.store.sha1, env.zlib, bytes).value.objects, secrets, now);
      }
    case RepairOne(oid, now) => RepairSafe(env, d, [oid], now);
    case RepairEvery(now) => RepairSafe(env, d, Sorted(d.objects.stored.Keys, env.oidLe), now);
    case SetStorage(_) =>
    case SetRequireSigned(_) =>
    case GrantWriter(_) =>
    case GrantForce(_) =>
    case Protect(_) =>
    case PublishProvider(_, _, _, _, _, _, _) =>
    case PruneProviders(_) =>
  }

  lemma ProperOf(env: Environment)
    requires Usable(env)
    ensures Proper(env)
  {
  }

  /** So every theorem about runs of the ref store holds of the daemon's refs: in
      particular they always load, and their log replays to them. */
  lemma {:induction false} DaemonRefs(env: Environment, cs: seq<Command>)
    requires Usable(env)
    ensures RefsRun(env.store.hash, RunAll(env, DEFAULT_STATE, cs).refs, |cs|)
    ensures |cs| < TWO_TO_64 - 1 ==> Loadable(env.store.hash, RunAll(env, DEFAULT_STATE, cs).refs)
  {
    hide Step, Loadable, Run, WellNamedUpdate, Safe;
    ProperOf(env);
    if cs == [] {
      assert Run(env.store.hash, EMPTY, []) == EMPTY by { NoUpdates(env.store.hash); }
      var none: seq<RefUpdate> := [];
      assert |none| <= 0 && EMPTY == Run(env.store.hash, EMPTY, none);
    } else {
      var p := cs[..|cs| - 1];
      DaemonRefs(env, p);
      RunSafe(env, p);
      StepRefs(env, RunAll(env, DEFAULT_STATE, p), cs[|cs| - 1], |p|);
    }
    var us: seq<RefUpdate> :| |us| <= |cs| && RunAll(env, DEFAULT_STATE, cs).refs == Run(env.store.hash, EMPTY, us)
                              && forall u :: u in us ==> WellNamedUpdate(u);
    if |cs| < TWO_TO_64 - 1 { ReachableLoadable(env.store.hash, us); }
  }

  lemma NoUpdates(hash: Hash)
    ensures Run(hash, EMPTY, []) == EMPTY
  {
  }
}
