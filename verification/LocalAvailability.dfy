/** When an object that was just put locally can be published under a ref. */
module LocalAvailability {
  import opened Prelude
  import opened Core
  import opened Erasure
  import opened GitOid
  import opened GitObjects
  import opened PackResolve
  import opened Network
  import opened Directory
  import opened ObjectStore
  import opened ObjectAvailability
  import Local = LocalRepair
  import Safety = ObjectStoreSafety
  import Daemon
  import DaemonSafety

  // ------------------------------------------------------ the local names

  lemma {:induction false} DecLength(n: nat, k: nat)
    requires k > 0 && n < Pow(10, k)
    ensures |Dec(n)| <= k
  {
    assert Pow(10, 1) == 10;
    if n >= 10 {
      DecLength(n / 10, k - 1);
    }
  }

  lemma TenPow20()
    ensures TWO_TO_64 <= Pow(10, 20)
  {
    assert Pow(10, 2) == 100;
    PowAdd(10, 2, 2);
    assert Pow(10, 4) == 10000;
    PowAdd(10, 4, 4);
    assert Pow(10, 8) == 100000000;
    PowAdd(10, 8, 8);
    PowAdd(10, 16, 4);
  }

  lemma LocalNamesValid(i: nat)
    requires i < TWO_TO_64
    ensures ValidPeerId("v0-node-" + Dec(i)) && ValidOperatorId("v0-operator-" + Dec(i))
  {
    hide Dec, Pow;
    TenPow20();
    DecLength(i, 20);
    assert forall c :: c in Dec(i) ==> IsDigit(c) && NameChar(c);
    assert AllNameChars("v0-node-") && AllNameChars("v0-operator-");
  }

  function Region(i: nat): string { if i % 2 == 0 then "local-a" else "local-b" }

  /** The record of the local node for shard `i`. */
  function NodeRecord(shards: seq<Shard>, expiresAt: nat, i: nat): ProviderRecord
    requires i < |shards|
  {
    ProviderRecord(ShardRef(shards[i].segmentCid, shards[i].cid, i), "v0-node-" + Dec(i), "v0-operator-" + Dec(i), Region(i),
                   {StorageRole}, 1, expiresAt)
  }

  function NodeRecords(shards: seq<Shard>, expiresAt: nat): (r: seq<ProviderRecord>)
    ensures |r| == |shards|
    ensures forall i :: 0 <= i < |shards| ==> r[i] == NodeRecord(shards, expiresAt, i)
  {
    seq(|shards|, i requires 0 <= i < |shards| => NodeRecord(shards, expiresAt, i))
  }

  predicate InPlace(shards: seq<Shard>, segment: Cid) {
    |shards| <= TWO_TO_64 && forall i :: 0 <= i < |shards| ==> shards[i].index == i && shards[i].segmentCid == segment
  }

  lemma LocalRecordExact(shard: Shard, expiresAt: nat)
    requires shard.index < TWO_TO_64 && expiresAt > 0
    ensures LocalRecord(shard, 1, expiresAt) ==
            Ok(ProviderRecord(ShardRef(shard.segmentCid, shard.cid, shard.index), "v0-node-" + Dec(shard.index),
                              "v0-operator-" + Dec(shard.index), Region(shard.index), {StorageRole}, 1, expiresAt))
  {
    hide Dec, ValidPeerId, ValidOperatorId;
    LocalNamesValid(shard.index);
    RegionsValid();
  }

  lemma RegionsValid()
    ensures ValidRegion("local-a") && ValidRegion("local-b") && "local-a" != "local-b"
  {
    assert "local-a"[6] != "local-b"[6];
  }

  lemma {:induction false} LocalRecordsExact(shards: seq<Shard>, segment: Cid, expiresAt: nat, n: nat)
    requires InPlace(shards, segment) && expiresAt > 0 && n <= |shards|
    ensures LocalRecords(shards[..n], 1, expiresAt) == Ok(NodeRecords(shards, expiresAt)[..n])
  {
    hide LocalRecord, Dec;
    var all := NodeRecords(shards, expiresAt);
    if n > 0 {
      assert all[..n] == all[..n - 1] + [all[n - 1]];
      LocalRecordsExact(shards, segment, expiresAt, n - 1);
      assert shards[..n][..n - 1] == shards[..n - 1];
      LocalRecordExact(shards[n - 1], expiresAt);
    }
  }

  // ---------------------------------------------------------- publishing

  function Entries(records: seq<ProviderRecord>): (r: seq<Entry>)
    ensures |r| == |records|
    ensures forall i :: 0 <= i < |records| ==> r[i] == Entry(records[i], None)
  {
    seq(|records|, i requires 0 <= i < |records| => Entry(records[i], None))
  }

  /** One record for each index, of one segment, with roles and an expiry. */
  predicate Listing(records: seq<ProviderRecord>, segment: Cid) {
    forall i :: 0 <= i < |records| ==>
      records[i].shard.segmentCid == segment && records[i].shard.shardIndex == i && Publishable(records[i])
  }

  lemma PlaceNext(records: seq<ProviderRecord>, segment: Cid, n: nat)
    requires Listing(records, segment) && n < |records|
    ensures Place(Entries(records)[..n], Entry(records[n], None)) == Entries(records)[..n + 1]
  {
    var before := Entries(records)[..n];
    assert FindKey(before, records[n]) == n;
  }

  lemma {:induction false} PublishAllListing(id: Identity, d: Records, records: seq<ProviderRecord>, segment: Cid, n: nat)
    requires Listing(records, segment) && At(d, segment) == [] && n <= |records|
    ensures PublishAll(id, d, records[..n]).0.Ok?
    ensures At(PublishAll(id, d, records[..n]).1, segment) == Entries(records)[..n]
  {
    hide Place, Entries;
    if n == 0 {
      assert Entries(records)[..0] == [];
    } else {
      PublishAllListing(id, d, records, segment, n - 1);
      assert records[..n][..n - 1] == records[..n - 1];
      PlaceNext(records, segment, n - 1);
    }
  }

  lemma {:induction false} GatheredListing(id: Identity, so: StoredObject, p: StoragePolicy, records: seq<ProviderRecord>, segment: Cid, n: nat)
    requires Listing(records, segment) && n <= |records| && forall i :: 0 <= i < |records| ==> Evident(so, p, records[i])
    ensures Gathered(id, so, p, records[..n]).Ok?
    ensures At(Gathered(id, so, p, records[..n]).value, segment) == Entries(records)[..n]
  {
    hide Place, Entries, Evident;
    if n == 0 {
      assert Entries(records)[..0] == [];
    } else {
      GatheredListing(id, so, p, records, segment, n - 1);
      assert records[..n][..n - 1] == records[..n - 1];
      PlaceNext(records, segment, n - 1);
    }
  }

  lemma {:induction false} AllLive(entries: seq<Entry>, now: nat)
    requires forall i :: 0 <= i < |entries| ==> entries[i].provider.ActiveAt(now)
    ensures Live(entries, now) == entries
  {
    if entries != [] { AllLive(entries[1..], now); }
  }

  lemma ActiveListing(d: Records, records: seq<ProviderRecord>, segment: Cid, now: nat)
    requires At(d, segment) == Entries(records) && forall i :: 0 <= i < |records| ==> records[i].ActiveAt(now)
    ensures ActiveRecords(d, segment, now) == records
  {
    hide Live;
    AllLive(Entries(records), now);
  }

  // ------------------------------------------------------------ the count

  lemma {:induction false} AllDurable(records: seq<ProviderRecord>)
    requires forall i :: 0 <= i < |records| ==> records[i].CountsForDurability()
    ensures Durable(records) == records
  {
    if records != [] { AllDurable(records[1..]); }
  }

  ghost function Image<T, U>(items: seq<T>, f: T -> U): set<U> { set x | x in items :: f(x) }

  lemma {:induction false} InjectiveCount<T, U>(items: seq<T>, f: T -> U)
    requires forall i, j :: 0 <= i < j < |items| ==> f(items[i]) != f(items[j])
    ensures |Image(items, f)| == |items|
  {
    if items == [] {
      assert Image(items, f) == {};
    } else {
      var p, last := items[..|items| - 1], items[|items| - 1];
      InjectiveCount(p, f);
      assert items == p + [last];
      assert Image(items, f) == Image(p, f) + {f(last)};
    }
  }

  lemma OperatorCount(shards: seq<Shard>, expiresAt: nat)
    ensures |Operators(NodeRecords(shards, expiresAt))| == |Places(NodeRecords(shards, expiresAt))| == |shards|
  {
    hide Dec;
    var records := NodeRecords(shards, expiresAt);
    var operator, place := (r: ProviderRecord) => r.operatorId, (r: ProviderRecord) => r.shard.shardIndex;
    forall i, j | 0 <= i < j < |records|
      ensures operator(records[i]) != operator(records[j])
    {
      OperatorsDiffer(i, j);
    }
    InjectiveCount(records, operator);
    InjectiveCount(records, place);
    assert Operators(records) == Image(records, operator);
    assert Places(records) == Image(records, place);
  }

  lemma OperatorsDiffer(i: nat, j: nat)
    requires i != j
    ensures "v0-operator-" + Dec(i) != "v0-operator-" + Dec(j)
  {
    hide Dec;
    if "v0-operator-" + Dec(i) == "v0-operator-" + Dec(j) {
      ConcatCancel("v0-operator-", Dec(i), "v0-operator-", Dec(j));
      DecInjective(i, j);
    }
  }

  lemma RegionCount(shards: seq<Shard>, expiresAt: nat)
    requires |shards| >= 2
    ensures |Regions(NodeRecords(shards, expiresAt))| == 2
  {
    hide Dec;
    var records := NodeRecords(shards, expiresAt);
    RegionsValid();
    assert records[0] in records && records[1] in records;
    assert records[0].region == "local-a" && records[1].region == "local-b";
    assert Regions(records) == {"local-a", "local-b"};
  }

  /** Local nodes count as many operators as shards, but only two regions. */
  lemma LocalReport(shards: seq<Shard>, expiresAt: nat, q: Requirement)
    requires |shards| >= 2 && q.minShards <= |shards| && q.minOperators <= |shards|
    ensures ReportOf(NodeRecords(shards, expiresAt), q).Satisfies() <==> q.minRegions <= 2
  {
    hide Durable, Dec;
    var records := NodeRecords(shards, expiresAt);
    AllDurable(records);
    OperatorCount(shards, expiresAt);
    RegionCount(shards, expiresAt);
    QualifiedNeverDecides(records, q);
  }

  // ---------------------------------------------------------- the theorem

  lemma ShardsInPlace(lib: ObjectStore.Library, p: StoragePolicy, oid: Oid, so: StoredObject)
    requires SoundLibrary(lib) && Safety.WholeObject(lib, p, oid, so) && p.Total() <= TWO_TO_64
    ensures InPlace(so.shards, so.record.segmentCid) && |so.shards| == p.Total() && so.record.shardCids == CidsOf(so.shards)
  {
    hide Codeword, LawfulCode, SoundLibrary, Canonical, ParseCanonical, ReadObject, Local.OnlyKept, ShardCid;
    var o := Safety.WholeReads(lib, p, oid, so);
    KeepsLawful(lib, p, oid, so, o, Everything(p.Total()));
  }

  lemma RecordsListing(shards: seq<Shard>, segment: Cid, expiresAt: nat)
    requires InPlace(shards, segment) && expiresAt > 0
    ensures Listing(NodeRecords(shards, expiresAt), segment)
  {
    hide Dec;
  }

  lemma RecordsEvident(so: StoredObject, p: StoragePolicy, expiresAt: nat)
    requires InPlace(so.shards, so.record.segmentCid) && |so.shards| == p.Total() && so.record.shardCids == CidsOf(so.shards)
    ensures forall i :: 0 <= i < |so.shards| ==> Evident(so, p, NodeRecords(so.shards, expiresAt)[i])
  {
    hide Dec;
    forall i | 0 <= i < |so.shards|
      ensures NodeRecord(so.shards, expiresAt, i).shard.shardCid in so.record.shardCids
    {
      assert CidsOf(so.shards)[i] == so.shards[i].cid;
    }
  }

  /** Once its local providers are published, and until they expire, a whole object
      whose segment had no other providers passes the availability check exactly
      when the storage policy asks for at most two regions: the local nodes are
      spread over two, whatever the policy says. */
  lemma LocallyAvailable(env: Daemon.Environment, d: Daemon.DaemonState, oid: Oid, now: nat, later: nat)
    requires SoundLibrary(env.store) && Safety.Whole(env.store, d.objects)
    requires ValidStorage(d.objects.policy) && d.objects.policy.Total() <= TWO_TO_64
    requires oid in d.objects.stored && At(d.availability, d.objects.stored[oid].record.segmentCid) == []
    requires later < now + 86400 && later < TWO_TO_64 - 1
    ensures PublishLocal(env.id, d.availability, d.objects, oid, now).0.Ok?
    ensures var after := d.(availability := PublishLocal(env.id, d.availability, d.objects, oid, now).1);
            Daemon.RequireAvailable(env, after, Some(oid), later) ==
              if d.objects.policy.minRegions <= 2 then Ok(()) else Err(Daemon.MissingDurableObject(oid))
  {
    hide SoundLibrary, Safety.Whole, Safety.WholeObject, NodeRecords, InPlace, Listing, Evident, LocalRecords, PublishAll, Gathered,
         ReportOf, At, Entries, ActiveRecords;
    var p, so := d.objects.policy, d.objects.stored[oid];
    assert Safety.WholeObject(env.store, p, oid, so) by { WholeAt(env.store, d.objects, oid); }
    ShardsInPlace(env.store, p, oid, so);
    var segment, expires := so.record.segmentCid, InADay(now);
    var records := NodeRecords(so.shards, expires);
    assert so.shards[..|so.shards|] == so.shards && records[..|records|] == records;
    LocalRecordsExact(so.shards, segment, expires, |so.shards|);
    RecordsListing(so.shards, segment, expires);
    RecordsEvident(so, p, expires);
    PublishAllListing(env.id, d.availability, records, segment, |records|);
    assert Entries(records)[..|records|] == Entries(records);
    RecordsActive(so.shards, expires, later);
    var published := PublishAll(env.id, d.availability, records).1;
    ActiveListing(published, records, segment, later);
    GatheredListing(env.id, so, p, records, segment, |records|);
    ActiveListing(Gathered(env.id, so, p, records).value, records, segment, later);
    LocalReport(so.shards, expires, RequirementOf(p));
  }

  lemma WholeAt(lib: ObjectStore.Library, s: Objects, oid: Oid)
    requires Safety.Whole(lib, s) && oid in s.stored
    ensures Safety.WholeObject(lib, s.policy, oid, s.stored[oid])
  {
  }

  lemma RecordsActive(shards: seq<Shard>, expiresAt: nat, now: nat)
    requires now < expiresAt
    ensures forall i :: 0 <= i < |shards| ==> NodeRecords(shards, expiresAt)[i].ActiveAt(now)
  {
    hide Dec;
  }

  /** So an object put through the daemon can be published under a ref at once, and
      for a day, exactly when the storage policy asks for at most two regions. */
  lemma PutThenPublishable(env: Daemon.Environment, d: Daemon.DaemonState, o: GitObject, secret: Secret, now: nat, later: nat)
    requires DaemonSafety.Usable(env) && DaemonSafety.Safe(env, d)
    requires ValidStorage(d.objects.policy) && d.objects.policy.Total() <= TWO_TO_64
    requires ObjectStore.Put(env.store, d.objects, o, secret).Ok?
    requires At(d.availability, ObjectStore.Put(env.store, d.objects, o, secret).value.0.segmentCid) == []
    requires later < now + 86400 && later < TWO_TO_64 - 1
    ensures Daemon.PutOne(env, d, o, secret, now).0.Ok?
    ensures Daemon.RequireAvailable(env, Daemon.PutOne(env, d, o, secret, now).1, Some(ObjectId(env.store.sha1, o)), later) ==
              if d.objects.policy.minRegions <= 2 then Ok(()) else Err(Daemon.MissingDurableObject(ObjectId(env.store.sha1, o)))
  {
    hide SoundLibrary, Safety.Whole, ObjectStore.Put, PublishLocal, Daemon.RequireAvailable, At, ValidStorage, DaemonSafety.RefsSound, DaemonSafety.LogForward;
    Safety.PutWhole(env.store, d.objects, o, secret);
    var (record, objects) := ObjectStore.Put(env.store, d.objects, o, secret).value;
    RecordStored(env.store, d.objects, o, secret);
    LocallyAvailable(env, d.(objects := objects), record.oid, now, later);
  }

  lemma RecordStored(lib: ObjectStore.Library, s: Objects, o: GitObject, secret: Secret)
    requires ObjectStore.Put(lib, s, o, secret).Ok?
    ensures var (record, after) := ObjectStore.Put(lib, s, o, secret).value;
            ObjectId(lib.sha1, o) in after.stored && after.stored[ObjectId(lib.sha1, o)].record == record
  {
    hide Store, ParseCanonical, Canonical;
  }
}
