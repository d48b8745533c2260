/** gitmesh-repository: the object store.  A Git object is encrypted, erasure-coded
    and kept as shards; reading rebuilds it from the shards that are there. */
module ObjectStore {
  import opened Prelude
  import opened Core
  import opened Ordering
  import opened Erasure
  import opened GitOid
  import opened GitObjects
  import opened PackResolve
  import opened Network
  import Directory
  import Local = LocalRepair
  import Graph = ObjectGraph
  import Pack

  datatype Secret = Secret(key: Bytes, nonce: Bytes)

  /** Hashes, Reed-Solomon and authenticated encryption. */
  datatype Library = Library(hash: Hash, sha1: Sha1, rs: ReedSolomon,
                             seal: (Secret, Bytes) -> Option<Bytes>, unseal: (Secret, Bytes) -> Option<Bytes>)

  /** Every Reed-Solomon code is MDS; opening what was sealed gives it back. */
  ghost predicate SoundLibrary(lib: Library) {
    && (forall k: nat, m: nat :: k > 0 && lib.rs(k, m).Some? ==> Mds(lib.rs(k, m).value, k, m))
    && (forall secret, plain :: lib.seal(secret, plain).Some? ==>
          lib.seal(secret, plain).value != [] && lib.unseal(secret, lib.seal(secret, plain).value) == Some(plain))
  }

  datatype StoreError =
    | MissingObject(oid: Oid)
    | Git(git: GitError)
    | Storage(storage: StorageError)
    | CryptoFailed
    | CanonicalLengthMismatch
    | StoragePolicyLocked
    | InvalidStoragePolicy
    | InvalidAvailabilityEvidence
    | NetworkError(network: NetworkError)
    | GraphError(graph: Graph.GraphError)

  datatype ObjectRecord = ObjectRecord(oid: Oid, kind: Kind, canonicalLen: nat, segmentCid: Cid, shardCids: seq<Cid>,
                                       available: nat, durable: bool)

  datatype StoredObject = StoredObject(record: ObjectRecord, segment: Segment, secret: Secret, shards: seq<Shard>)

  datatype Objects = Objects(policy: StoragePolicy, stored: map<Oid, StoredObject>)

  const DEFAULT_STORAGE := StoragePolicy(10, 6, 3, 2)

  const NO_OBJECTS := Objects(DEFAULT_STORAGE, map[])

  /** `StoragePolicy::validate`. */
  predicate ValidStorage(p: StoragePolicy) {
    p.dataShards > 0 && p.parityShards > 0 && 0 < p.minOperators <= p.dataShards && 0 < p.minRegions <= p.dataShards
  }

  /** `availability_requirement`. */
  function RequirementOf(p: StoragePolicy): Directory.Requirement {
    Directory.Requirement(p.dataShards, p.minOperators, p.minRegions)
  }

  function CidsOf(shards: seq<Shard>): seq<Cid> {
    seq(|shards|, i requires 0 <= i < |shards| => shards[i].cid)
  }

  // ------------------------------------------------------------- putting

  function SetStoragePolicy(s: Objects, p: StoragePolicy): Result<Objects, StoreError> {
    if s.stored != map[] then Err(StoragePolicyLocked)
    else if !ValidStorage(p) then Err(InvalidStoragePolicy)
    else Ok(s.(policy := p))
  }

  function SegmentOf(hash: Hash, ciphertext: Bytes): Segment {
    Segment(SegmentCid(hash, ciphertext), ciphertext, |ciphertext|)
  }

  function RecordOf(oid: Oid, kind: Kind, canonicalLen: nat, segment: Segment, shards: seq<Shard>, p: StoragePolicy): ObjectRecord {
    ObjectRecord(oid, kind, canonicalLen, segment.cid, CidsOf(shards), |shards|, |shards| >= p.dataShards)
  }

  /** Encrypt and encode an object that is not stored yet. */
  function Store(lib: Library, p: StoragePolicy, o: GitObject, secret: Secret): Result<StoredObject, StoreError> {
    match lib.seal(secret, Canonical(o))
    case None => Err(CryptoFailed)
    case Some(ciphertext) =>
      var segment := SegmentOf(lib.hash, ciphertext);
      match Encode(lib.hash, lib.rs, segment, p)
      case Err(e) => Err(Storage(e))
      case Ok(shards) =>
        Ok(StoredObject(RecordOf(ObjectId(lib.sha1, o), o.kind, |Canonical(o)|, segment, shards, p), segment, secret, shards))
  }

  /** `put_git_object`. */
  function Put(lib: Library, s: Objects, o: GitObject, secret: Secret): Result<(ObjectRecord, Objects), StoreError> {
    match ParseCanonical(Canonical(o))
    case Err(e) => Err(Git(e))
    case Ok(_) =>
      var oid := ObjectId(lib.sha1, o);
      if oid in s.stored then Ok((s.stored[oid].record, s))
      else
        match Store(lib, s.policy, o, secret)
        case Err(e) => Err(e)
        case Ok(so) => Ok((so.record, s.(stored := s.stored[oid := so])))
  }

  // ------------------------------------------------------------- reading

  /** `network_for` without losses, and what is available from it. */
  function AvailableFrom(p: StoragePolicy, shards: seq<Shard>): Result<seq<Shard>, StorageError> {
    var (r, nodes) := Local.StoreAll(Local.FreshNodes(p.Total()), shards);
    match r
    case Err(e) => Err(e)
    case Ok(_) => Ok(Local.Available(nodes))
  }

  function ReadObject(lib: Library, p: StoragePolicy, so: StoredObject): Result<GitObject, StoreError> {
    match AvailableFrom(p, so.shards)
    case Err(e) => Err(Storage(e))
    case Ok(available) =>
      match Reconstruct(lib.hash, lib.rs, so.segment, p, available)
      case Err(e) => Err(Storage(e))
      case Ok(ciphertext) =>
        match lib.unseal(so.secret, ciphertext)
        case None => Err(CryptoFailed)
        case Some(canonical) =>
          if |canonical| != so.record.canonicalLen then Err(CanonicalLengthMismatch)
          else
            match ParseCanonical(canonical)
            case Err(e) => Err(Git(e))
            case Ok(o) => Ok(o)
  }

  /** `get_git_object`. */
  function Get(lib: Library, s: Objects, oid: Oid): Result<GitObject, StoreError> {
    if oid !in s.stored then Err(MissingObject(oid)) else ReadObject(lib, s.policy, s.stored[oid])
  }

  /** What the graph walks see. */
  function NodeOf(lib: Library, p: StoragePolicy, so: StoredObject): Graph.Node {
    Graph.Node(so.record.kind, so.record.durable,
               match ReadObject(lib, p, so)
               case Ok(o) => Some(o)
               case Err(_) => None)
  }

  function View(lib: Library, s: Objects): Graph.View {
    map oid | oid in s.stored :: NodeOf(lib, s.policy, s.stored[oid])
  }

  // ------------------------------------------------------ loss and repair

  function WithShards(so: StoredObject, shards: seq<Shard>, p: StoragePolicy): StoredObject {
    so.(shards := shards,
        record := so.record.(shardCids := CidsOf(shards), available := |shards|, durable := |shards| >= p.dataShards))
  }

  /** `repair_object`: the outcome and the object rebuilt.  The new shards come out
      in node order, which is the order they are then sorted by. */
  function RepairStored(lib: Library, p: StoragePolicy, so: StoredObject): Result<(Local.RepairOutcome, StoredObject), StoreError> {
    var (r, nodes) := Local.StoreAll(Local.FreshNodes(p.Total()), so.shards);
    match r
    case Err(e) => Err(Storage(e))
    case Ok(_) =>
      match Local.Repair(lib.hash, lib.rs, so.segment, p, nodes)
      case Err(e) => Err(Storage(e))
      case Ok((outcome, after)) => Ok((outcome, WithShards(so, Local.Available(after), p)))
  }

  function Repair(lib: Library, s: Objects, oid: Oid): Result<(Local.RepairOutcome, Objects), StoreError> {
    if oid !in s.stored then Err(MissingObject(oid))
    else
      match RepairStored(lib, s.policy, s.stored[oid])
      case Err(e) => Err(e)
      case Ok((outcome, so)) => Ok((outcome, s.(stored := s.stored[oid := so])))
  }

  /** `simulate_object_shard_loss`. */
  function Surviving(shards: seq<Shard>, lost: set<nat>): seq<Shard> {
    if shards == [] then []
    else
      var n := |shards| - 1;
      Surviving(shards[..n], lost) + if shards[n].index in lost then [] else [shards[n]]
  }

  // ------------------------------------------------------ the store, in place

  class RepositoryObjectStore {
    var policy: StoragePolicy
    var stored: map<Oid, StoredObject>

    function State(): Objects
      reads this
    {
      Objects(policy, stored)
    }

    constructor ()
      ensures State() == NO_OBJECTS
    {
      policy, stored := DEFAULT_STORAGE, map[];
    }

    method SetPolicy(p: StoragePolicy) returns (r: Result<(), StoreError>)
      modifies this
      ensures match SetStoragePolicy(old(State()), p)
              case Ok(after) => r == Ok(()) && State() == after
              case Err(e) => r == Err(e) && State() == old(State())
    {
      if stored != map[] { return Err(StoragePolicyLocked); }
      if !ValidStorage(p) { return Err(InvalidStoragePolicy); }
      policy := p;
      return Ok(());
    }

    method PutGitObject(lib: Library, o: GitObject, secret: Secret) returns (r: Result<ObjectRecord, StoreError>)
      modifies this
      ensures match Put(lib, old(State()), o, secret)
              case Ok((record, after)) => r == Ok(record) && State() == after
              case Err(e) => r == Err(e) && State() == old(State())
    {
      hide Canonical, ParseCanonical, Encode;
      var canonical := Canonical(o);
      var parsed := ParseCanonical(canonical);
      if parsed.Err? { return Err(Git(parsed.error)); }
      var oid := ObjectId(lib.sha1, o);
      if oid in stored { return Ok(stored[oid].record); }
      var ciphertext := lib.seal(secret, canonical);
      if ciphertext.None? { return Err(CryptoFailed); }
      var segment := SegmentOf(lib.hash, ciphertext.value);
      var shards := ErasureEncode(lib.hash, lib.rs, segment, policy);
      if shards.Err? { return Err(Storage(shards.error)); }
      var record := RecordOf(oid, o.kind, |canonical|, segment, shards.value, policy);
      stored := stored[oid := StoredObject(record, segment, secret, shards.value)];
      return Ok(record);
    }

    method GetGitObject(lib: Library, oid: Oid) returns (r: Result<GitObject, StoreError>)
      ensures r == Get(lib, State(), oid)
    {
      hide Reconstruct, ParseCanonical, Local.StoreAll;
      if oid !in stored { return Err(MissingObject(oid)); }
      var so := stored[oid];
      var network := new Local.SimulatedNetwork(policy.Total());
      var placed := network.StoreShards(so.shards);
      if placed.Err? { return Err(Storage(placed.error)); }
      var available := network.AvailableShards();
      var ciphertext := ReconstructCiphertext(lib.hash, lib.rs, so.segment, policy, available);
      if ciphertext.Err? { return Err(Storage(ciphertext.error)); }
      var canonical := lib.unseal(so.secret, ciphertext.value);
      if canonical.None? { return Err(CryptoFailed); }
      if |canonical.value| != so.record.canonicalLen { return Err(CanonicalLengthMismatch); }
      var o := ParseCanonical(canonical.value);
      if o.Err? { return Err(Git(o.error)); }
      return Ok(o.value);
    }

    method RepairObject(lib: Library, oid: Oid) returns (r: Result<Local.RepairOutcome, StoreError>)
      modifies this
      ensures match Repair(lib, old(State()), oid)
              case Ok((outcome, after)) => r == Ok(outcome) && State() == after
              case Err(e) => r == Err(e) && State() == old(State())
    {
      hide Local.Repair, Local.StoreAll, Local.Available;
      if oid !in stored { return Err(MissingObject(oid)); }
      var so := stored[oid];
      var network := new Local.SimulatedNetwork(policy.Total());
      var placed := network.StoreShards(so.shards);
      if placed.Err? { return Err(Storage(placed.error)); }
      var outcome := network.RepairShards(lib.hash, lib.rs, so.segment, policy);
      if outcome.Err? { return Err(Storage(outcome.error)); }
      var shards := network.AvailableShards();
      stored := stored[oid := WithShards(so, shards, policy)];
      return Ok(outcome.value);
    }

    method SimulateObjectShardLoss(oid: Oid, lost: set<nat>) returns (r: Result<(), StoreError>)
      modifies this
      ensures oid !in old(stored) ==> r == Err(MissingObject(oid)) && State() == old(State())
      ensures oid in old(stored) ==>
                && r == Ok(())
                && var so := old(stored)[oid];
                   State() == Objects(old(policy), old(stored)[oid := WithShards(so, Surviving(so.shards, lost), old(policy))])
    {
      if oid !in stored { return Err(MissingObject(oid)); }
      var so := stored[oid];
      var shards: seq<Shard> := [];
      for k := 0 to |so.shards|
        invariant shards == Surviving(so.shards[..k], lost)
      {
        assert so.shards[..k + 1][..k] == so.shards[..k];
        if so.shards[k].index !in lost { shards := shards + [so.shards[k]]; }
      }
      assert so.shards[..|so.shards|] == so.shards;
      stored := stored[oid := WithShards(so, shards, policy)];
      return Ok(());
    }
  }

  // ------------------------------------------------------- what is stored

  /** The stored form of `o`, some of whose shards may be lost. */
  ghost predicate Keeps(lib: Library, p: StoragePolicy, oid: Oid, so: StoredObject, o: GitObject, kept: set<nat>) {
    && oid == ObjectId(lib.sha1, o) && ParseCanonical(Canonical(o)) == Ok(o)
    && lib.seal(so.secret, Canonical(o)) == Some(so.segment.ciphertext)
    && so.segment == SegmentOf(lib.hash, so.segment.ciphertext)
    && Codeword(lib.rs, so.segment, p).Ok?
    && so.shards == Local.OnlyKept(Local.Originals(lib.hash, lib.rs, so.segment, p), kept)
    && so.record == RecordOf(oid, o.kind, |Canonical(o)|, so.segment, so.shards, p)
  }

  lemma KeepsLawful(lib: Library, p: StoragePolicy, oid: Oid, so: StoredObject, o: GitObject, kept: set<nat>)
    requires SoundLibrary(lib) && Keeps(lib, p, oid, so, o, kept)
    ensures LawfulCode(lib.rs, so.segment, p) && |Codeword(lib.rs, so.segment, p).value| == p.Total()
    ensures lib.unseal(so.secret, so.segment.ciphertext) == Some(Canonical(o))
    ensures so.segment.ciphertextLen == |so.segment.ciphertext|
  {
    hide Mds, ParseCanonical, Canonical, Local.OnlyKept;
    CodewordNeeds(lib.rs, so.segment, p);
    assert lib.seal(so.secret, Canonical(o)).Some?;
    LawfulCodeword(lib.rs, so.segment, p);
  }

  lemma CodewordNeeds(rs: ReedSolomon, s: Segment, p: StoragePolicy)
    requires Codeword(rs, s, p).Ok?
    ensures p.dataShards > 0 && rs(p.dataShards, p.parityShards).Some?
  {
  }

  lemma OriginalsInPlace(hash: Hash, rs: ReedSolomon, s: Segment, p: StoragePolicy)
    requires Codeword(rs, s, p).Ok?
    ensures forall i :: 0 <= i < |Local.Originals(hash, rs, s, p)| ==> Local.Originals(hash, rs, s, p)[i].index == i
  {
    hide Codeword, ShardCid;
  }

  function IndicesOf(shards: seq<Shard>): set<nat> { set x | x in shards :: x.index }

  /** Exactly the genuine shards of the kept places below `n`, once each. */
  ghost predicate FillsPlaces(hash: Hash, s: Segment, p: StoragePolicy, word: seq<Bytes>, kept: set<nat>, n: nat, shards: seq<Shard>)
    requires n <= |word|
  {
    && (forall x :: x in shards ==> x.index < n && x.index in kept && x == MakeShard(hash, s, p, x.index, word[x.index]))
    && (forall i :: 0 <= i < n && i in kept ==> MakeShard(hash, s, p, i, word[i]) in shards)
    && |IndicesOf(shards)| == |shards|
  }

  lemma FillsNext(hash: Hash, s: Segment, p: StoragePolicy, word: seq<Bytes>, kept: set<nat>, n: nat, shards: seq<Shard>)
    requires n < |word| && FillsPlaces(hash, s, p, word, kept, n, shards)
    ensures n in kept ==> FillsPlaces(hash, s, p, word, kept, n + 1, shards + [MakeShard(hash, s, p, n, word[n])])
    ensures n !in kept ==> FillsPlaces(hash, s, p, word, kept, n + 1, shards)
  {
    hide MakeShard;
    if n in kept {
      var x := MakeShard(hash, s, p, n, word[n]);
      MakeShardIndex(hash, s, p, n, word[n]);
      assert forall y :: y in shards + [x] <==> y in shards || y == x;
      assert IndicesOf(shards + [x]) == IndicesOf(shards) + {n};
      assert n !in IndicesOf(shards);
    }
  }

  lemma {:induction false} KeptPlaces(hash: Hash, s: Segment, p: StoragePolicy, word: seq<Bytes>, kept: set<nat>, n: nat)
    requires n <= |word|
    ensures FillsPlaces(hash, s, p, word, kept, n, Local.OnlyKept(ShardsOf(hash, s, p, word)[..n], kept))
  {
    hide MakeShard;
    var originals := ShardsOf(hash, s, p, word);
    if n == 0 {
      assert IndicesOf([]) == {};
    } else {
      hide FillsPlaces;
      KeptPlaces(hash, s, p, word, kept, n - 1);
      assert originals[..n][..n - 1] == originals[..n - 1];
      var before := Local.OnlyKept(originals[..n - 1], kept);
      FillsNext(hash, s, p, word, kept, n - 1, before);
      assert before + [] == before;
    }
  }

  lemma MakeShardIndex(hash: Hash, s: Segment, p: StoragePolicy, i: nat, bytes: Bytes)
    ensures MakeShard(hash, s, p, i, bytes).index == i
  {
  }

  lemma KeptHarmless(hash: Hash, s: Segment, p: StoragePolicy, word: seq<Bytes>, kept: set<nat>)
    ensures var shards := Local.OnlyKept(ShardsOf(hash, s, p, word), kept);
            && (forall x :: x in shards ==> Harmless(hash, s, word, x))
            && |GenuinePlaces(hash, s, word, shards)| == |shards|
  {
    hide ShardCid, Local.OnlyKept;
    var shards := Local.OnlyKept(ShardsOf(hash, s, p, word), kept);
    KeptPlaces(hash, s, p, word, kept, |word|);
    assert ShardsOf(hash, s, p, word)[..|word|] == ShardsOf(hash, s, p, word);
    assert GenuinePlaces(hash, s, word, shards) == IndicesOf(shards);
  }

  /** A stored object is read back exactly when enough of its shards are left. */
  lemma ReadExact(lib: Library, p: StoragePolicy, oid: Oid, so: StoredObject, o: GitObject, kept: set<nat>)
    requires SoundLibrary(lib) && Keeps(lib, p, oid, so, o, kept)
    ensures |so.shards| >= p.dataShards ==> ReadObject(lib, p, so) == Ok(o)
    ensures |so.shards| < p.dataShards ==> ReadObject(lib, p, so).Err?
    ensures so.record.durable <==> |so.shards| >= p.dataShards
  {
    hide Codeword, LawfulCode, SoundLibrary, Canonical, ParseCanonical, Reconstruct, Local.OnlyKept, Local.StoreAll, Local.Available, ShardsOf;
    KeepsLawful(lib, p, oid, so, o, kept);
    var word := Codeword(lib.rs, so.segment, p).value;
    var originals := Local.Originals(lib.hash, lib.rs, so.segment, p);
    OriginalsInPlace(lib.hash, lib.rs, so.segment, p);
    Local.KeptNetwork(originals, kept);
    KeptHarmless(lib.hash, so.segment, p, word, kept);
    ReconstructExact(lib.hash, lib.rs, so.segment, p, so.shards);
  }

  // ----------------------------------------------------------- the repair

  lemma {:induction false} KeptAll(originals: seq<Shard>, kept: set<nat>)
    requires forall i :: 0 <= i < |originals| ==> i in kept
    ensures Local.OnlyKept(originals, kept) == originals
  {
    if originals != [] {
      KeptAll(originals[..|originals| - 1], kept);
    }
  }

  function Everything(n: nat): (r: set<nat>)
    ensures forall i: nat :: i in r <==> i < n
  {
    if n == 0 then {} else Everything(n - 1) + {n - 1}
  }

  /** The verified shards are the kept ones. */
  lemma KeptVerified(lib: Library, p: StoragePolicy, s: Segment, kept: set<nat>)
    requires LawfulCode(lib.rs, s, p) && |Codeword(lib.rs, s, p).value| == p.Total()
    ensures var originals := Local.Originals(lib.hash, lib.rs, s, p);
            var nodes := Local.KeptNodes(originals, kept);
            && Local.Discerned(lib.hash, lib.rs, s, p, nodes) && Local.Audit(lib.hash, s, p, nodes).Ok?
            && |Local.Audit(lib.hash, s, p, nodes).value.verified| == |Local.OnlyKept(originals, kept)|
  {
    hide Codeword, LawfulCode, Local.Discerned, Local.Audit, Local.OnlyKept;
    LawfulCodeword(lib.rs, s, p);
    var word := Codeword(lib.rs, s, p).value;
    var originals := Local.Originals(lib.hash, lib.rs, s, p);
    var nodes := Local.KeptNodes(originals, kept);
    Local.KeptDiscerned(lib.hash, lib.rs, s, p, kept);
    Local.AuditExact(lib.hash, lib.rs, s, p, nodes);
    var verified := Local.Audit(lib.hash, s, p, nodes).value.verified;
    AuditAscending(lib.hash, s, p, nodes);
    Local.ElementsSize(verified);
    KeptPlaces(lib.hash, s, p, word, kept, |word|);
    assert originals[..|word|] == originals;
    var shards := Local.OnlyKept(originals, kept);
    forall i: nat
      ensures i in Local.Elements(verified) <==> i in IndicesOf(shards)
    {
      if i < p.Total() && i in kept { MakeShardIndex(lib.hash, s, p, i, word[i]); }
    }
    assert Local.Elements(verified) == IndicesOf(shards);
  }

  lemma AuditAscending(hash: Hash, s: Segment, p: StoragePolicy, nodes: Local.Nodes)
    requires Local.Audit(hash, s, p, nodes).Ok?
    ensures var v := Local.Audit(hash, s, p, nodes).value.verified; forall a, b :: 0 <= a < b < |v| ==> v[a] < v[b]
  {
    hide Local.StatusOf;
  }

  /** Repair succeeds exactly when reading does, and then all shards are back. */
  lemma RepairStoredExact(lib: Library, p: StoragePolicy, oid: Oid, so: StoredObject, o: GitObject, kept: set<nat>)
    requires SoundLibrary(lib) && Keeps(lib, p, oid, so, o, kept)
    ensures RepairStored(lib, p, so).Ok? <==> |so.shards| >= p.dataShards
    ensures RepairStored(lib, p, so).Ok? ==>
            && Keeps(lib, p, oid, RepairStored(lib, p, so).value.1, o, Everything(p.Total()))
            && RepairStored(lib, p, so).value.1.shards == Local.Originals(lib.hash, lib.rs, so.segment, p)
  {
    hide Codeword, LawfulCode, SoundLibrary, Canonical, ParseCanonical, Local.OnlyKept, Local.StoreAll, Local.Available,
         Local.Repair, Local.Audit, Local.Discerned, Local.Originals;
    KeepsLawful(lib, p, oid, so, o, kept);
    var originals := Local.Originals(lib.hash, lib.rs, so.segment, p);
    OriginalsInPlace(lib.hash, lib.rs, so.segment, p);
    Local.KeptNetwork(originals, kept);
    KeptVerified(lib, p, so.segment, kept);
    var nodes := Local.KeptNodes(originals, kept);
    Local.RepairExact(lib.hash, lib.rs, so.segment, p, nodes);
    if RepairStored(lib, p, so).Ok? {
      var all := Everything(p.Total());
      var after := Local.Repair(lib.hash, lib.rs, so.segment, p, nodes).value.1;
      assert after == Local.KeptNodes(originals, all);
      Local.KeptNetwork(originals, all);
      KeptAll(originals, all);
    }
  }

  /** Losing shards keeps the rest as they were. */
  lemma {:induction false} SurvivingKept(originals: seq<Shard>, kept: set<nat>, lost: set<nat>)
    requires forall i :: 0 <= i < |originals| ==> originals[i].index == i
    ensures Surviving(Local.OnlyKept(originals, kept), lost) == Local.OnlyKept(originals, kept - lost)
  {
    if originals != [] {
      var n := |originals| - 1;
      SurvivingKept(originals[..n], kept, lost);
      var before := Local.OnlyKept(originals[..n], kept);
      if n in kept {
        var shards := before + [originals[n]];
        assert shards[..|shards| - 1] == before;
        assert Surviving(shards, lost) == Surviving(before, lost) + if n in lost then [] else [originals[n]];
      } else {
        assert before + [] == before;
        assert Surviving(before, lost) + [] == Surviving(before, lost);
      }
    }
  }

  lemma LossKeeps(lib: Library, p: StoragePolicy, oid: Oid, so: StoredObject, o: GitObject, kept: set<nat>, lost: set<nat>)
    requires Keeps(lib, p, oid, so, o, kept)
    ensures Keeps(lib, p, oid, WithShards(so, Surviving(so.shards, lost), p), o, kept - lost)
  {
    hide Codeword, Canonical, ParseCanonical, Local.OnlyKept, Surviving, Local.Originals;
    OriginalsInPlace(lib.hash, lib.rs, so.segment, p);
    SurvivingKept(Local.Originals(lib.hash, lib.rs, so.segment, p), kept, lost);
  }

  /** A new object is stored whole. */
  lemma StoreKeeps(lib: Library, p: StoragePolicy, o: GitObject, secret: Secret)
    requires SoundLibrary(lib) && Store(lib, p, o, secret).Ok? && ParseCanonical(Canonical(o)) == Ok(o)
    ensures var so := Store(lib, p, o, secret).value;
            && Keeps(lib, p, ObjectId(lib.sha1, o), so, o, Everything(p.Total()))
            && so.shards == Local.Originals(lib.hash, lib.rs, so.segment, p)
            && so.record.durable
  {
    hide Codeword, Canonical, ParseCanonical, Local.OnlyKept, Mds;
    var so := Store(lib, p, o, secret).value;
    var originals := Local.Originals(lib.hash, lib.rs, so.segment, p);
    CodewordNeeds(lib.rs, so.segment, p);
    assert lib.seal(secret, Canonical(o)).Some?;
    LawfulCodeword(lib.rs, so.segment, p);
    KeptAll(originals, Everything(p.Total()));
  }
}
