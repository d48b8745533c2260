/** What the object store keeps: every object put stays readable, losses are undone
    by repair exactly while enough shards are left, and exports read back. */
module ObjectStoreSafety {
  import opened Prelude
  import opened Text
  import opened Core
  import opened Ordering
  import opened Erasure
  import opened GitOid
  import opened GitObjects
  import opened PackResolve
  import opened ObjectStore
  import Local = LocalRepair
  import Graph = ObjectGraph
  import opened Pack

  /** The object is stored with all of its shards. */
  ghost predicate WholeObject(lib: Library, p: StoragePolicy, oid: Oid, so: StoredObject) {
    exists o :: Keeps(lib, p, oid, so, o, Everything(p.Total())) && so.shards == Local.Originals(lib.hash, lib.rs, so.segment, p)
  }

  ghost predicate Whole(lib: Library, s: Objects) {
    forall oid :: oid in s.stored ==> WholeObject(lib, s.policy, oid, s.stored[oid])
  }

  /** A whole object is durable and reads back as an object with its id and kind. */
  lemma WholeReads(lib: Library, p: StoragePolicy, oid: Oid, so: StoredObject) returns (o: GitObject)
    requires SoundLibrary(lib) && WholeObject(lib, p, oid, so)
    ensures Keeps(lib, p, oid, so, o, Everything(p.Total())) && so.shards == Local.Originals(lib.hash, lib.rs, so.segment, p)
    ensures ReadObject(lib, p, so) == Ok(o) && so.record.durable && so.record.kind == o.kind
    ensures ObjectId(lib.sha1, o) == oid && |o.payload| < TWO_TO_64
  {
    hide Codeword, LawfulCode, SoundLibrary, Canonical, ParseCanonical, ReadObject, Local.OnlyKept;
    o :| Keeps(lib, p, oid, so, o, Everything(p.Total())) && so.shards == Local.Originals(lib.hash, lib.rs, so.segment, p);
    KeepsLawful(lib, p, oid, so, o, Everything(p.Total()));
    ReadExact(lib, p, oid, so, o, Everything(p.Total()));
    CanonicalExact(Canonical(o), o);
  }

  /** Putting keeps every stored object as it was and adds one that reads back. */
  lemma PutWhole(lib: Library, s: Objects, o: GitObject, secret: Secret)
    requires SoundLibrary(lib) && Whole(lib, s) && Put(lib, s, o, secret).Ok?
    ensures var (record, after) := Put(lib, s, o, secret).value;
            && Whole(lib, after) && after.policy == s.policy
            && (forall x :: x in s.stored ==> x in after.stored && after.stored[x] == s.stored[x])
            && record.oid == ObjectId(lib.sha1, o) && record.oid in after.stored
            && (record.oid !in s.stored ==> Get(lib, after, record.oid) == Ok(o))
  {
    hide Store, SoundLibrary, WholeObject, ReadObject, Canonical, ParseCanonical;
    var oid := ObjectId(lib.sha1, o);
    var after := Put(lib, s, o, secret).value.1;
    if oid in s.stored {
      WholeRecord(lib, s.policy, oid, s.stored[oid]);
    } else {
      ParsedIsItself(o);
      StoredWhole(lib, s.policy, o, secret);
    }
  }

  lemma WholeRecord(lib: Library, p: StoragePolicy, oid: Oid, so: StoredObject)
    requires WholeObject(lib, p, oid, so)
    ensures so.record.oid == oid
  {
    hide Codeword, Canonical, ParseCanonical, Local.OnlyKept;
  }

  lemma ParsedIsItself(o: GitObject)
    requires ParseCanonical(Canonical(o)).Ok?
    ensures ParseCanonical(Canonical(o)) == Ok(o)
  {
    hide Canonical, ParseCanonical;
    var r := ParseCanonical(Canonical(o)).value;
    CanonicalExact(Canonical(o), r);
    if |o.payload| < TWO_TO_64 {
      CanonicalExact(Canonical(o), o);
    } else {
      LongPayload(o, r);
    }
  }

  /** Canonical bytes that parse have a payload the header can count. */
  lemma LongPayload(o: GitObject, r: GitObject)
    requires Canonical(o) == Canonical(r) && |r.payload| < TWO_TO_64
    ensures |o.payload| < TWO_TO_64
  {
    hide KindBytes, Dec;
    var a, b := Canonical(o), Canonical(r);
    assert |KindBytes(o.kind)| >= 1 && |Ascii(Dec(|o.payload|))| >= 1;
    SplitAtNul(o);
    SplitAtNul(r);
  }

  lemma SplitAtNul(o: GitObject)
    ensures IndexOf(Canonical(o), 0) == |Canonical(o)| - |o.payload| - 1
  {
    hide KindBytes, Dec, Ascii;
    var header := KindBytes(o.kind) + [32] + Ascii(Dec(|o.payload|));
    AsciiDigits(|o.payload|);
    assert Canonical(o) == header + [0] + o.payload;
    assert 0 !in header;
    IndexOfAfter(header, 0, o.payload);
  }

  lemma StoredWhole(lib: Library, p: StoragePolicy, o: GitObject, secret: Secret)
    requires SoundLibrary(lib) && Store(lib, p, o, secret).Ok? && ParseCanonical(Canonical(o)) == Ok(o)
    ensures var so := Store(lib, p, o, secret).value;
            WholeObject(lib, p, ObjectId(lib.sha1, o), so) && ReadObject(lib, p, so) == Ok(o) && so.record.oid == ObjectId(lib.sha1, o)
  {
    hide Codeword, SoundLibrary, Canonical, ParseCanonical, ReadObject, Store, Local.OnlyKept, LawfulCode;
    StoreKeeps(lib, p, o, secret);
    var so := Store(lib, p, o, secret).value;
    ReadExact(lib, p, ObjectId(lib.sha1, o), so, o, Everything(p.Total()));
  }

  /** Repairing a whole object changes nothing. */
  lemma RepairWhole(lib: Library, s: Objects, oid: Oid)
    requires SoundLibrary(lib) && Whole(lib, s) && oid in s.stored
    ensures Repair(lib, s, oid).Ok? && Repair(lib, s, oid).value.1 == s
  {
    hide Codeword, LawfulCode, SoundLibrary, Canonical, ParseCanonical, ReadObject, RepairStored, Local.OnlyKept, Local.Originals, Everything;
    var so := s.stored[oid];
    var o := WholeReads(lib, s.policy, oid, so);
    RepairStoredExact(lib, s.policy, oid, so, o, Everything(s.policy.Total()));
    ReadExact(lib, s.policy, oid, so, o, Everything(s.policy.Total()));
    RepairStoredFields(lib, s.policy, so);
  }

  /** Repair rewrites the shards and the record's account of them, nothing else. */
  lemma RepairStoredFields(lib: Library, p: StoragePolicy, so: StoredObject)
    requires RepairStored(lib, p, so).Ok?
    ensures RepairStored(lib, p, so).value.1 == WithShards(so, RepairStored(lib, p, so).value.1.shards, p)
  {
    hide Local.Repair, Local.StoreAll, Local.Available;
  }

  function Lose(s: Objects, oid: Oid, lost: set<nat>): Objects
    requires oid in s.stored
  {
    s.(stored := s.stored[oid := WithShards(s.stored[oid], Surviving(s.stored[oid].shards, lost), s.policy)])
  }

  /** After any loss of shards: while at least `k` are left the object still reads
      the same and one repair undoes the loss; with fewer it neither reads nor
      repairs, and its record says so. */
  lemma LossExact(lib: Library, s: Objects, oid: Oid, lost: set<nat>)
    requires SoundLibrary(lib) && Whole(lib, s) && oid in s.stored
    ensures var left := |Everything(s.policy.Total()) - lost|;
            var t := Lose(s, oid, lost);
            if left >= s.policy.dataShards then
              && Get(lib, t, oid) == Get(lib, s, oid) && t.stored[oid].record.durable
              && Repair(lib, t, oid).Ok? && Repair(lib, t, oid).value.1 == s
            else Get(lib, t, oid).Err? && Repair(lib, t, oid).Err? && !t.stored[oid].record.durable
  {
    hide Codeword, LawfulCode, SoundLibrary, Canonical, ParseCanonical, ReadObject, RepairStored, Local.OnlyKept, Surviving, Local.Originals;
    var p, so := s.policy, s.stored[oid];
    var all := Everything(p.Total());
    var o := WholeReads(lib, p, oid, so);
    LossKeeps(lib, p, oid, so, o, all, lost);
    var lossy := WithShards(so, Surviving(so.shards, lost), p);
    KeptCount(lib, p, oid, lossy, o, all - lost);
    ReadExact(lib, p, oid, lossy, o, all - lost);
    RepairStoredExact(lib, p, oid, lossy, o, all - lost);
    if |lossy.shards| >= p.dataShards {
      RepairStoredFields(lib, p, lossy);
      var t := Lose(s, oid, lost);
      assert RepairStored(lib, p, lossy).value.1 == so;
      assert t.stored[oid := so] == s.stored;
    }
  }

  /** There are as many shards as kept places. */
  lemma KeptCount(lib: Library, p: StoragePolicy, oid: Oid, so: StoredObject, o: GitObject, kept: set<nat>)
    requires SoundLibrary(lib) && Keeps(lib, p, oid, so, o, kept) && kept <= Everything(p.Total())
    ensures |so.shards| == |kept|
  {
    hide Codeword, LawfulCode, SoundLibrary, Canonical, ParseCanonical, Local.OnlyKept, MakeShard;
    KeepsLawful(lib, p, oid, so, o, kept);
    var word := Codeword(lib.rs, so.segment, p).value;
    KeptPlaces(lib.hash, so.segment, p, word, kept, |word|);
    var originals := ShardsOf(lib.hash, so.segment, p, word);
    assert originals[..|word|] == originals;
    forall i | i in kept
      ensures i in IndicesOf(so.shards)
    {
      MakeShardIndex(lib.hash, so.segment, p, i, word[i]);
    }
    assert IndicesOf(so.shards) == kept;
  }

  // ------------------------------------------- when the steps succeed

  /** The object can be sealed and there is a code for the policy's counts. */
  predicate Storable(lib: Library, p: StoragePolicy, o: GitObject, secret: Secret) {
    lib.seal(secret, Canonical(o)).Some? && p.dataShards > 0 && lib.rs(p.dataShards, p.parityShards).Some?
  }

  /** A put succeeds exactly when the payload's length fits its header and the
      object is stored already or can be stored; a stored object answers with its
      record and changes nothing. */
  lemma PutSucceedsExact(lib: Library, s: Objects, o: GitObject, secret: Secret)
    requires SoundLibrary(lib)
    ensures Put(lib, s, o, secret).Ok? <==>
            |o.payload| < TWO_TO_64 && (ObjectId(lib.sha1, o) in s.stored || Storable(lib, s.policy, o, secret))
    ensures |o.payload| < TWO_TO_64 && ObjectId(lib.sha1, o) in s.stored ==>
            Put(lib, s, o, secret) == Ok((s.stored[ObjectId(lib.sha1, o)].record, s))
  {
    hide Canonical, ParseCanonical, ObjectId, Store, Storable, SoundLibrary;
    if |o.payload| < TWO_TO_64 { CanonicalExact(Canonical(o), o); }
    if ParseCanonical(Canonical(o)).Ok? {
      ParsedIsItself(o);
      CanonicalExact(Canonical(o), o);
    }
    StoreSucceeds(lib, s.policy, o, secret);
  }

  lemma StoreSucceeds(lib: Library, p: StoragePolicy, o: GitObject, secret: Secret)
    requires SoundLibrary(lib)
    ensures Store(lib, p, o, secret).Ok? <==> Storable(lib, p, o, secret)
  {
    hide Canonical, Codeword, Mds, ShardsOf;
    if lib.seal(secret, Canonical(o)).Some? {
      var segment := SegmentOf(lib.hash, lib.seal(secret, Canonical(o)).value);
      if p.dataShards > 0 && lib.rs(p.dataShards, p.parityShards).Some? { CodewordFacts(lib.rs, segment, p); }
      if Codeword(lib.rs, segment, p).Ok? { CodewordNeeds(lib.rs, segment, p); }
    }
  }

  /** Whatever the library does: what is read is the object that opening gives, its
      canonical bytes are as long as the record says, and an unknown id is an error. */
  lemma ReadSound(lib: Library, s: Objects, oid: Oid)
    ensures oid !in s.stored ==> Get(lib, s, oid) == Err(MissingObject(oid)) && Repair(lib, s, oid) == Err(MissingObject(oid))
    ensures Get(lib, s, oid).Ok? ==>
            var o, so := Get(lib, s, oid).value, s.stored[oid];
            |Canonical(o)| == so.record.canonicalLen && |o.payload| < TWO_TO_64 && exists c :: lib.unseal(so.secret, c) == Some(Canonical(o))
  {
    hide Reconstruct, AvailableFrom, Canonical, ParseCanonical;
    if Get(lib, s, oid).Ok? {
      var so := s.stored[oid];
      var ciphertext := Reconstruct(lib.hash, lib.rs, so.segment, s.policy, AvailableFrom(s.policy, so.shards).value).value;
      CanonicalExact(lib.unseal(so.secret, ciphertext).value, Get(lib, s, oid).value);
    }
  }

  /** The policy is replaced exactly while nothing is stored, by one whose counts
      are positive and whose minima the data shards can meet. */
  lemma SetPolicyExact(s: Objects, p: StoragePolicy)
    ensures SetStoragePolicy(s, p) ==
            if |s.stored| > 0 then Err(StoragePolicyLocked)
            else if p.dataShards > 0 && p.parityShards > 0 && 0 < p.minOperators <= p.dataShards && 0 < p.minRegions <= p.dataShards then
              Ok(Objects(p, map[]))
            else Err(InvalidStoragePolicy)
  {
  }

  // ------------------------------------------------------------- the view

  /** What the graph walks see of a whole store. */
  lemma WholeView(lib: Library, s: Objects, oid: Oid)
    requires SoundLibrary(lib) && Whole(lib, s) && oid in s.stored
    ensures Get(lib, s, oid).Ok?
    ensures ObjectId(lib.sha1, Get(lib, s, oid).value) == oid && |Get(lib, s, oid).value.payload| < TWO_TO_64
    ensures View(lib, s)[oid] == Graph.Node(Get(lib, s, oid).value.kind, true, Some(Get(lib, s, oid).value))
  {
    hide SoundLibrary, WholeObject, ReadObject, Canonical;
    var o := WholeReads(lib, s.policy, oid, s.stored[oid]);
  }

  lemma ViewExtends(lib: Library, s: Objects, t: Objects)
    requires t.policy == s.policy && forall x :: x in s.stored ==> x in t.stored && t.stored[x] == s.stored[x]
    ensures Graph.Extends(View(lib, s), View(lib, t))
  {
    hide ReadObject;
  }

  // ------------------------------------------------------------- the export

  function ReadAll(lib: Library, s: Objects, oids: seq<Oid>): Result<seq<GitObject>, StoreError> {
    if oids == [] then Ok([])
    else
      match ReadAll(lib, s, oids[..|oids| - 1])
      case Err(e) => Err(e)
      case Ok(before) =>
        match Get(lib, s, oids[|oids| - 1])
        case Err(e) => Err(e)
        case Ok(o) => Ok(before + [o])
  }

  /** `export_pack_reachable_from`, for any order of object ids. */
  function ExportReachable(lib: Library, z: Zlib, le: (Oid, Oid) -> bool, s: Objects, tips: seq<Oid>): Result<Bytes, StoreError>
    requires TotalOrder(le)
  {
    match Graph.Reachable(View(lib, s), tips)
    case Err(e) => Err(GraphError(e))
    case Ok(reachable) =>
      match ReadAll(lib, s, Sorted(reachable, le))
      case Err(e) => Err(e)
      case Ok(objects) =>
        match WritePack(lib.sha1, z, objects)
        case Err(e) => Err(Git(e))
        case Ok(bytes) => Ok(bytes)
  }

  lemma {:induction false} ReadAllWhole(lib: Library, s: Objects, oids: seq<Oid>)
    requires SoundLibrary(lib) && Whole(lib, s) && forall x :: x in oids ==> x in s.stored
    ensures ReadAll(lib, s, oids).Ok?
    ensures var objects := ReadAll(lib, s, oids).value;
            && |objects| == |oids|
            && forall i :: 0 <= i < |oids| ==> ObjectId(lib.sha1, objects[i]) == oids[i] && |objects[i].payload| < TWO_TO_64
  {
    hide SoundLibrary, Whole, Get, Canonical;
    if oids != [] {
      ReadAllWhole(lib, s, oids[..|oids| - 1]);
      WholeView(lib, s, oids[|oids| - 1]);
    }
  }

  /** From a whole store an export succeeds exactly when everything reachable from
      the tips is stored and can be counted; the pack then reads back as exactly
      the objects of the least closed set that holds the tips. */
  lemma ExportReadsBack(lib: Library, z: Zlib, le: (Oid, Oid) -> bool, s: Objects, tips: seq<Oid>)
    requires SoundLibrary(lib) && Whole(lib, s) && Faithful(z) && TotalOrder(le)
    ensures ExportReachable(lib, z, le, s, tips).Ok? <==>
            Graph.Reachable(View(lib, s), tips).Ok? && |Graph.Reachable(View(lib, s), tips).value| < TWO_TO_32
    ensures ExportReachable(lib, z, le, s, tips).Ok? ==>
            var pack := ParsePack(lib.sha1, z, ExportReachable(lib, z, le, s, tips).value);
            var oids := Sorted(Graph.Reachable(View(lib, s), tips).value, le);
            && pack.Ok? && pack.value.version == 2 && |pack.value.objects| == |oids|
            && forall i :: 0 <= i < |oids| ==> ObjectId(lib.sha1, pack.value.objects[i]) == oids[i]
  {
    hide SoundLibrary, Whole, View, WritePack, ParsePack, Canonical, Get, ReadAll, Sorted, TotalOrder, Faithful, Graph.Reachable;
    var r := Graph.Reachable(View(lib, s), tips);
    BoundedOfFaithful(z);
    if r.Ok? {
      ReachableStored(lib, s, tips);
      var oids := Sorted(r.value, le);
      ReadAllWhole(lib, s, oids);
      var objects := ReadAll(lib, s, oids).value;
      WriteCounts(lib.sha1, z, objects);
      if |objects| < TWO_TO_32 {
        assert forall o :: o in objects ==> |o.payload| < TWO_TO_64;
        PackRoundTrip(lib.sha1, z, objects);
      }
    }
  }

  lemma WriteCounts(sha1: Sha1, z: Zlib, objects: seq<GitObject>)
    ensures WritePack(sha1, z, objects).Ok? <==> |objects| < TWO_TO_32
  {
    hide ObjectsBytes;
  }

  lemma ReachableStored(lib: Library, s: Objects, tips: seq<Oid>)
    requires Graph.Reachable(View(lib, s), tips).Ok?
    ensures forall x :: x in Graph.Reachable(View(lib, s), tips).value ==> x in s.stored
  {
    hide Graph.Children, Graph.Reachable, ReadObject;
    Graph.ReachableExact(View(lib, s), tips);
  }
}
