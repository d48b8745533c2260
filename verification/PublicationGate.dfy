/** What lets a ref move: the availability of its target, counted from the
    providers held, and the gate every committed move has passed. */
module PublicationGate {
  import opened Prelude
  import opened Core
  import opened Erasure
  import opened GitOid
  import opened GitObjects
  import opened Network
  import opened Directory
  import opened ObjectStore
  import opened ObjectAvailability
  import opened LocalAvailability
  import opened RefModel
  import opened RefStores
  import opened RefHistory
  import opened RepoPolicies
  import opened RefSigning
  import Graph = ObjectGraph
  import Objects = ObjectStore
  import Safety = ObjectStoreSafety
  import PackResolve
  import Pack
  import opened Ordering
  import opened Daemon
  import opened DaemonSafety

  // ------------------------------------------------------- the evidence

  /** Records of one segment, one for each key, none expired at once. */
  predicate Listed(records: seq<ProviderRecord>, segment: Cid) {
    && (forall i :: 0 <= i < |records| ==> records[i].shard.segmentCid == segment && records[i].expiresAt > 0)
    && (forall i, j :: 0 <= i < j < |records| ==> !SameKey(records[i], records[j]))
  }

  /** The record names a shard of the object, a place of the code, and some role. */
  predicate Fits(so: StoredObject, p: StoragePolicy, r: ProviderRecord) {
    r.shard.shardCid in so.record.shardCids && r.shard.shardIndex < p.dataShards + p.parityShards && r.roles != {}
  }

  lemma PlaceListed(records: seq<ProviderRecord>, segment: Cid, n: nat)
    requires Listed(records, segment) && n < |records|
    ensures Place(Entries(records)[..n], Entry(records[n], None)) == Entries(records)[..n + 1]
  {
    hide SameKey;
    var before := Entries(records)[..n];
    var i := FindKey(before, records[n]);
    assert forall j :: 0 <= j < n ==> before[j].provider == records[j] && !SameKey(records[j], records[n]);
    assert i == n;
  }

  /** The evidence is taken exactly when every record fits the object. */
  lemma {:induction false} GatheredExact(id: Identity, so: StoredObject, p: StoragePolicy, records: seq<ProviderRecord>, n: nat)
    requires Listed(records, so.record.segmentCid) && n <= |records|
    ensures Gathered(id, so, p, records[..n]).Ok? <==> forall i :: 0 <= i < n ==> Fits(so, p, records[i])
    ensures Gathered(id, so, p, records[..n]).Ok? ==>
              At(Gathered(id, so, p, records[..n]).value, so.record.segmentCid) == Entries(records)[..n] &&
              Filed(Gathered(id, so, p, records[..n]).value)
  {
    hide Place, Entries, Listed, Filed;
    if n == 0 {
      assert Entries(records)[..0] == [];
      assert Filed(map[]) by { NothingFiled(); }
    } else {
      var r := records[n - 1];
      GatheredExact(id, so, p, records, n - 1);
      assert records[..n][..n - 1] == records[..n - 1];
      assert r.shard.segmentCid == so.record.segmentCid && r.expiresAt > 0 by { ListedAt(records, so.record.segmentCid, n - 1); }
      PlaceListed(records, so.record.segmentCid, n - 1);
      if Gathered(id, so, p, records[..n - 1]).Ok? {
        PutHolds(Gathered(id, so, p, records[..n - 1]).value, Entry(r, None), Entry(r, None));
      }
    }
  }

  lemma NothingFiled()
    ensures Filed(map[])
  {
  }

  lemma ListedAt(records: seq<ProviderRecord>, segment: Cid, i: nat)
    requires Listed(records, segment) && i < |records|
    ensures records[i].shard.segmentCid == segment && records[i].expiresAt > 0
  {
  }

  lemma ActiveListed(d: Records, segment: Cid, now: nat)
    requires Filed(d)
    ensures Listed(ActiveRecords(d, segment, now), segment)
    ensures forall r :: r in ActiveRecords(d, segment, now) <==> r in Unexpired(At(d, segment), now)
    ensures forall i :: 0 <= i < |ActiveRecords(d, segment, now)| ==> ActiveRecords(d, segment, now)[i].ActiveAt(now)
  {
    hide Live, SameKey;
    var entries := At(d, segment);
    var live := Live(entries, now);
    assert DistinctKeys(entries);
    LiveDistinct(entries, now);
    UnexpiredMembers(entries, now);
    assert forall i :: 0 <= i < |live| ==> live[i] in live && live[i] in entries;
  }

  // ------------------------------------------------- availability, exactly

  /** A ref target is available exactly when the storage policy can be met at all,
      the object is stored, every unexpired provider of its segment fits it, and the
      unexpired storage nodes among them hold at least as many distinct shards, for
      as many operators and in as many regions, as the policy asks for. */
  lemma AvailableExact(env: Environment, d: DaemonState, oid: Oid, now: nat)
    requires Filed(d.availability)
    ensures RequireAvailable(env, d, Some(oid), now).Ok? <==>
            var p := d.objects.policy;
            && 0 < p.minOperators <= p.dataShards && 0 < p.minRegions <= p.dataShards
            && oid in d.objects.stored
            && var so := d.objects.stored[oid];
               var members := Unexpired(if so.record.segmentCid in d.availability then d.availability[so.record.segmentCid] else [], now);
               var storing := Storing(members);
               && (forall r :: r in members ==> Fits(so, p, r))
               && |set r | r in storing :: r.shard.shardIndex| >= p.dataShards
               && |set r | r in storing :: r.operatorId| >= p.minOperators
               && |set r | r in storing :: r.region| >= p.minRegions
  {
    hide ActiveRecords, Gathered, Filed, Unexpired, Storing, Fits, AvailabilityReport;
    var p := d.objects.policy;
    if ValidRequirement(p) && oid in d.objects.stored {
      var so := d.objects.stored[oid];
      var segment := so.record.segmentCid;
      var providers := ActiveRecords(d.availability, segment, now);
      var members := Unexpired(At(d.availability, segment), now);
      ActiveListed(d.availability, segment, now);
      ReportGathered(env.id, so, p, providers, members, RequirementOf(p), now);
      NoStorers(members);
      if providers == [] { assert members == {}; }
    }
  }

  lemma NoStorers(members: set<ProviderRecord>)
    ensures members == {} ==> |set r | r in Storing(members) :: r.shard.shardIndex| == 0
  {
    if members == {} { assert (set r | r in Storing(members) :: r.shard.shardIndex) == {}; }
  }

  /** The report over the evidence counts the records it was made from. */
  lemma ReportGathered(id: Identity, so: StoredObject, p: StoragePolicy, providers: seq<ProviderRecord>, members: set<ProviderRecord>,
                       q: Requirement, now: nat)
    requires Listed(providers, so.record.segmentCid) && forall r :: r in providers <==> r in members
    requires forall i :: 0 <= i < |providers| ==> providers[i].ActiveAt(now)
    ensures Gathered(id, so, p, providers).Ok? <==> forall r :: r in members ==> Fits(so, p, r)
    ensures Gathered(id, so, p, providers).Ok? ==>
              var storing := Storing(members);
              AvailabilityReport(Gathered(id, so, p, providers).value, so.record.segmentCid, now, q).Satisfies() <==>
                && |set r | r in storing :: r.shard.shardIndex| >= q.minShards
                && |set r | r in storing :: r.operatorId| >= q.minOperators
                && |set r | r in storing :: r.region| >= q.minRegions
  {
    hide Gathered, Listed, Fits, Storing, Durable, Providers, NoRepeats, Entries;
    GatheredExact(id, so, p, providers, |providers|);
    assert providers[..|providers|] == providers && Entries(providers)[..|providers|] == Entries(providers);
    if Gathered(id, so, p, providers).Ok? {
      ActiveListing(Gathered(id, so, p, providers).value, providers, so.record.segmentCid, now);
      ListedNoRepeats(providers, so.record.segmentCid);
      ReportCounts(providers, members, q);
      QualifiedNeverDecides(providers, q);
    }
  }

  lemma ListedNoRepeats(records: seq<ProviderRecord>, segment: Cid)
    requires Listed(records, segment)
    ensures NoRepeats(records)
  {
  }

  // ------------------------------------------------------------- the gate

  /** Authorized, valid in the object graph, and available, all in this state. */
  predicate Passes(env: Environment, d: DaemonState, u: RefUpdate, actor: Actor, now: nat) {
    && Authorize(d.policy, u, actor).Ok?
    && Graph.ValidateUpdate(Objects.View(env.store, d.objects), u.refName, u.expectedOld, u.newOid, u.force).Ok?
    && RequireAvailable(env, d, u.newOid, now).Ok?
  }

  /** A verified update under a known transaction id is answered from its receipt;
      under a new one it reaches the ref store exactly when all three checks pass,
      and otherwise nothing changes and the first failing check is the answer. */
  lemma VerifiedUpdateExact(env: Environment, d: DaemonState, u: RefUpdate, actor: Actor, now: nat)
    ensures var (r, after) := ApplyVerified(env, d, u, actor, now);
            var authorized := Authorize(d.policy, u, actor);
            var valid := Graph.ValidateUpdate(Objects.View(env.store, d.objects), u.refName, u.expectedOld, u.newOid, u.force);
            var available := RequireAvailable(env, d, u.newOid, now);
            && (u.tx in d.refs.receipts ==>
                  && after == d
                  && r == Ok(ReceiptReply(if d.refs.receipts[u.tx].0 == Fingerprint(u) then d.refs.receipts[u.tx].1
                                          else Rejected(u.tx, IdempotencyViolation))))
            && (u.tx !in d.refs.receipts && Passes(env, d, u, actor, now) ==>
                  r == Ok(ReceiptReply(Apply(env.store.hash, d.refs, u).1)) && after == d.(refs := Apply(env.store.hash, d.refs, u).0))
            && (u.tx !in d.refs.receipts && !Passes(env, d, u, actor, now) ==>
                  && after == d
                  && r == Err(if authorized.Err? then PolicyDenied(authorized.error)
                              else if valid.Err? then GraphRejected(valid.error)
                              else available.error))
  {
    hide Apply, Authorize, Graph.ValidateUpdate, RequireAvailable, Fingerprint, Objects.View;
  }

  /** The update a ref command asks for, who asks, and when; none if its names or
      its credentials are not in order. */
  function Asked(env: Environment, d: DaemonState, c: Command): Option<(RefUpdate, Actor, nat)> {
    match c
    case UpdateRef(tx, move, signer, now) =>
      if ValidTransactionId(tx) && ValidRefName(move.refName) then
        Some((RefUpdate(env.repo, move.refName, move.expectedOld, move.newOid, move.force, d.policy.epoch, tx, signer), Actor.Unsigned, now))
      else None
    case UpdateRefSigned(tx, move, epoch, name, accountKey, deviceKey, certificateSignature, signature, now) =>
      var account, device := env.id.accountOf(accountKey), env.id.deviceOf(deviceKey);
      if account.Some? && device.Some? && ValidTransactionId(tx) && ValidRefName(move.refName) then
        var u := RefUpdate(env.repo, move.refName, move.expectedOld, move.newOid, move.force, epoch, tx, CidText(device.value));
        if env.id.certified(accountKey, deviceKey, name, certificateSignature) && env.id.signed(deviceKey, UpdateTranscript(u), signature) then
          Some((u, Actor.Signed(CidText(account.value), CidText(device.value)), now))
        else None
      else None
    case _ => None
  }

  /** Every command either does what its update does behind the gate, or leaves the refs. */
  lemma RefCommandExact(env: Environment, d: DaemonState, c: Command)
    requires Usable(env) && Safe(env, d)
    ensures var (r, after) := Step(env, d, c);
            match Asked(env, d, c)
            case Some((u, actor, now)) => (r, after) == ApplyVerified(env, d, u, actor, now)
            case None => after.refs == d.refs && ((c.UpdateRef? || c.UpdateRefSigned?) ==> after == d && r.Err?)
  {
    hide Safe, Usable, ApplyVerified, PutOne, PutMany, RepairAndPublish, Objects.SetStoragePolicy, ValidRefName, ValidTransactionId, Changed,
         Sorted, Directory.Pruned, Directory.Published, CheckedProvider, Pack.ParsePack, CidText, AccountText, UpdateTranscript;
    ProperOf(env);
    match c
    case UpdateRef(_, _, _, _) =>
    case UpdateRefSigned(_, _, _, _, _, _, _, _, _) =>
    case PutObject(o, secret, now) => PutOneSafe(env, d, o, secret, now);
    case PutPack(bytes, secrets, now) =>
      if Pack.ParsePack(env.store.sha1, env.zlib, bytes).Ok? {
        PutManySafe(env, d, Pack.ParsePack(env.store.sha1, env.zlib, bytes).value.objects, secrets, now);
      }
    case RepairOne(oid, now) => RepairSafe(env, d, [oid], now);
    case RepairEvery(now) => RepairSafe(env, d, Sorted(d.objects.stored.Keys, env.oidLe), now);
    case SetStorage(_) =>
    case SetRequireSigned(_) =>
    case GrantWriter(_) =>
    case GrantForce(_) =>
    case Protect(_) =>
    case PublishProvider(_, _, _, _, _, _, _) =>
    case PruneProviders(_) =>
  }

  predicate Expects(refs: map<string, Oid>, u: RefUpdate) {
    if u.refName in refs then u.expectedOld == Some(refs[u.refName]) else u.expectedOld == None
  }

  /** What command `c` commits when it is met in state `d`: its move, if it asks for
      one under a new id, the ref holds what it expects, and all three checks pass. */
  function Commit(env: Environment, d: DaemonState, c: Command): seq<Mutation> {
    match Asked(env, d, c)
    case None => []
    case Some((u, actor, now)) =>
      if u.tx !in d.refs.receipts && Expects(d.refs.refs, u) && Passes(env, d, u, actor, now) then
        [Mutation((|d.refs.mutations| + 1) % TWO_TO_64, u.tx, Fingerprint(u), u.refName, u.expectedOld, u.newOid, u.force, u.signer)]
      else []
  }

  lemma ApplyCommits(hash: Hash, s: Store, u: RefUpdate)
    requires u.tx !in s.receipts
    ensures Apply(hash, s, u).0.mutations == s.mutations + if Expects(s.refs, u) then
              [Mutation((|s.mutations| + 1) % TWO_TO_64, u.tx, Fingerprint(u), u.refName, u.expectedOld, u.newOid, u.force, u.signer)]
            else []
  {
    hide Apply, Fingerprint;
    var held := if u.refName in s.refs then Some(s.refs[u.refName]) else None;
    if Expects(s.refs, u) { CommitExact(hash, s, u); } else { ConflictExact(hash, s, u, held); }
  }

  /** A command appends to the log exactly what it commits. */
  lemma CommandCommits(env: Environment, d: DaemonState, c: Command)
    requires Usable(env) && Safe(env, d)
    ensures Step(env, d, c).1.refs.mutations == d.refs.mutations + Commit(env, d, c)
  {
    hide Step, Safe, Usable, Passes, ApplyVerified, Apply, Fingerprint, Asked;
    ProperOf(env);
    RefCommandExact(env, d, c);
    if Asked(env, d, c).Some? {
      var (u, actor, now) := Asked(env, d, c).value;
      VerifiedUpdateExact(env, d, u, actor, now);
      if u.tx !in d.refs.receipts { ApplyCommits(env.store.hash, d.refs, u); }
    }
  }

  /** Every mutation in the log of any run was committed by one command of the run,
      which passed authorization, graph validation and the availability check in
      the state it met. */
  lemma {:induction false} EveryCommitGated(env: Environment, cs: seq<Command>, i: nat) returns (j: nat)
    requires Usable(env) && i < |RunAll(env, DEFAULT_STATE, cs).refs.mutations|
    ensures j < |cs| && |RunAll(env, DEFAULT_STATE, cs[..j]).refs.mutations| == i
    ensures Commit(env, RunAll(env, DEFAULT_STATE, cs[..j]), cs[j]) == [RunAll(env, DEFAULT_STATE, cs).refs.mutations[i]]
  {
    hide Step, Commit, Safe;
    ProperOf(env);
    var p := cs[..|cs| - 1];
    var d := RunAll(env, DEFAULT_STATE, p);
    RunSafe(env, p);
    CommandCommits(env, d, cs[|cs| - 1]);
    if i < |d.refs.mutations| {
      j := EveryCommitGated(env, p, i);
      assert p[..j] == cs[..j];
    } else {
      j := |p|;
      AtMostOne(env, d, cs[j]);
    }
  }

  lemma AtMostOne(env: Environment, d: DaemonState, c: Command)
    ensures |Commit(env, d, c)| <= 1
  {
    hide Asked, Passes, Fingerprint;
  }
}
