/** gitmesh-storage: the simulated network, its audit and its local repair. */
module LocalRepair {
  import opened Prelude
  import opened Core
  import opened Erasure

  datatype SimNode = SimNode(id: nat, shard: Option<Shard>, online: bool)

  type Nodes = seq<SimNode>

  /** `with_node_count`. */
  function FreshNodes(count: nat): Nodes {
    seq(count, i requires 0 <= i => SimNode(i, None, true))
  }

  // ---------------------------------------------------------------- faults

  function StoreAll(nodes: Nodes, shards: seq<Shard>): (r: (Result<(), StorageError>, Nodes))
    ensures |r.1| == |nodes|
    decreases |shards|
  {
    if shards == [] then (Ok(()), nodes)
    else
      var i := shards[0].index;
      if i >= |nodes| then (Err(MissingNode(i)), nodes)
      else StoreAll(nodes[i := nodes[i].(shard := Some(shards[0]))], shards[1..])
  }

  function DestroyAll(nodes: Nodes, ids: seq<nat>): (r: (Result<(), StorageError>, Nodes))
    ensures |r.1| == |nodes|
    decreases |ids|
  {
    if ids == [] then (Ok(()), nodes)
    else if ids[0] >= |nodes| then (Err(MissingNode(ids[0])), nodes)
    else DestroyAll(nodes[ids[0] := nodes[ids[0]].(shard := None, online := false)], ids[1..])
  }

  function CorruptOne(nodes: Nodes, id: nat): (r: (Result<(), StorageError>, Nodes))
    ensures |r.1| == |nodes|
  {
    if id >= |nodes| || nodes[id].shard.None? then (Err(MissingNode(id)), nodes)
    else
      var shard := nodes[id].shard.value;
      (Ok(()), nodes[id := nodes[id].(shard := Some(shard.(bytes := Flip(shard.bytes))))])
  }

  /** `available_shards`: what the online nodes hold, in node order. */
  function Available(nodes: Nodes): seq<Shard> {
    if nodes == [] then []
    else
      var n := |nodes| - 1;
      Available(nodes[..n]) + if nodes[n].online && nodes[n].shard.Some? then [nodes[n].shard.value] else []
  }

  // ----------------------------------------------------------------- audit

  datatype AuditReport = AuditReport(verified: seq<nat>, missing: seq<nat>, corrupt: seq<nat>, durable: bool, repairNeeded: bool)

  function StatusOf(hash: Hash, s: Segment, p: StoragePolicy, node: SimNode): Status {
    if node.shard.None? || !node.online then Missing
    else if VerifyShard(hash, s, p, node.shard.value) then Verified
    else Corrupt
  }

  /** The indices below `n` with a status, in increasing order. */
  function WithStatus(hash: Hash, s: Segment, p: StoragePolicy, nodes: Nodes, n: nat, status: Status): (r: seq<nat>)
    requires n <= |nodes|
    ensures forall i: nat :: i in r <==> i < n && StatusOf(hash, s, p, nodes[i]) == status
    ensures forall a, b :: 0 <= a < b < |r| ==> r[a] < r[b]
  {
    if n == 0 then []
    else
      var r := WithStatus(hash, s, p, nodes, n - 1, status);
      assert forall a :: 0 <= a < |r| ==> r[a] in r;
      if StatusOf(hash, s, p, nodes[n - 1]) == status then r + [n - 1] else r
  }

  lemma WithStatusNone(hash: Hash, s: Segment, p: StoragePolicy, nodes: Nodes)
    ensures forall status :: WithStatus(hash, s, p, nodes, 0, status) == []
  {
  }

  lemma WithStatusStep(hash: Hash, s: Segment, p: StoragePolicy, nodes: Nodes, n: nat)
    requires n < |nodes|
    ensures forall status :: WithStatus(hash, s, p, nodes, n + 1, status) ==
              if StatusOf(hash, s, p, nodes[n]) == status then WithStatus(hash, s, p, nodes, n, status) + [n]
              else WithStatus(hash, s, p, nodes, n, status)
  {
    hide StatusOf;
  }

  /** `audit_segment_shards`. */
  function Audit(hash: Hash, s: Segment, p: StoragePolicy, nodes: Nodes): Result<AuditReport, StorageError> {
    if |nodes| < p.Total() then Err(MissingNode(|nodes|))
    else
      var v := WithStatus(hash, s, p, nodes, p.Total(), Verified);
      var m := WithStatus(hash, s, p, nodes, p.Total(), Missing);
      var c := WithStatus(hash, s, p, nodes, p.Total(), Corrupt);
      Ok(AuditReport(v, m, c, |v| >= p.dataShards, |v| < p.Total() || m != [] || c != []))
  }

  // ---------------------------------------------------------------- repair

  datatype RepairOutcome = RepairOutcome(repaired: seq<nat>, verifiedAfter: nat, durable: bool)

  function SlotsFrom(nodes: Nodes, n: nat, indices: seq<nat>): (slots: seq<Option<Bytes>>)
    requires n <= |nodes| && forall i :: i in indices ==> i < n && nodes[i].shard.Some?
    ensures |slots| == n
    ensures forall i :: 0 <= i < n ==> slots[i] == if i in indices then Some(nodes[i].shard.value.bytes) else None
  {
    seq(n, i requires 0 <= i < n => if i in indices then Some(nodes[i].shard.value.bytes) else None)
  }

  function RepairedNode(hash: Hash, s: Segment, p: StoragePolicy, node: SimNode, i: nat, bytes: Bytes): SimNode
    requires p.dataShards > 0
  {
    node.(online := true, shard := Some(MakeShard(hash, s, p, i, Resize(bytes, DivCeil(|s.ciphertext|, p.dataShards)))))
  }

  function RepairAll(hash: Hash, s: Segment, p: StoragePolicy, nodes: Nodes, word: seq<Bytes>, targets: seq<nat>): (r: Nodes)
    requires p.dataShards > 0 && |word| <= |nodes| && forall i :: i in targets ==> i < |word|
    ensures |r| == |nodes|
    ensures forall i :: 0 <= i < |nodes| ==>
              r[i] == if i in targets then RepairedNode(hash, s, p, nodes[i], i, word[i]) else nodes[i]
  {
    seq(|nodes|, i requires 0 <= i < |nodes| =>
      if i in targets then RepairedNode(hash, s, p, nodes[i], i, word[i]) else nodes[i])
  }

  /** `repair_segment_shards`: nothing is changed unless every check passes. */
  function Repair(hash: Hash, rs: ReedSolomon, s: Segment, p: StoragePolicy, nodes: Nodes): Result<(RepairOutcome, Nodes), StorageError> {
    var before :- Audit(hash, s, p, nodes);
    if |before.verified| < p.dataShards then Err(NotEnoughShards(|before.verified|, p.dataShards))
    else
      match rs(p.dataShards, p.parityShards)
      case None => Err(ErasureFailed)
      case Some(code) =>
        if p.dataShards == 0 then Err(ErasureFailed)
        else
          match code.rebuild(SlotsFrom(nodes, p.Total(), before.verified))
          case None => Err(ErasureFailed)
          case Some(word) =>
            if |word| != p.Total() then Err(ErasureFailed)
            else
              var targets := before.missing + before.corrupt;
              var repaired := RepairAll(hash, s, p, nodes, word, targets);
              var after :- Audit(hash, s, p, repaired);
              Ok((RepairOutcome(targets, |after.verified|, after.durable), repaired))
  }

  // ------------------------------------------------- the network, in place

  class SimulatedNetwork {
    var nodes: Nodes

    constructor (count: nat)
      ensures nodes == FreshNodes(count)
    {
      nodes := FreshNodes(count);
    }

    method StoreShards(shards: seq<Shard>) returns (r: Result<(), StorageError>)
      modifies this
      ensures (r, nodes) == StoreAll(old(nodes), shards)
    {
      var k := 0;
      while k < |shards|
        invariant k <= |shards|
        invariant StoreAll(old(nodes), shards) == StoreAll(nodes, shards[k..])
      {
        var i := shards[k].index;
        if i >= |nodes| { return Err(MissingNode(i)); }
        assert shards[k..][1..] == shards[k + 1..];
        nodes := nodes[i := nodes[i].(shard := Some(shards[k]))];
        k := k + 1;
      }
      return Ok(());
    }

    method DestroyNodes(ids: seq<nat>) returns (r: Result<(), StorageError>)
      modifies this
      ensures (r, nodes) == DestroyAll(old(nodes), ids)
    {
      var k := 0;
      while k < |ids|
        invariant k <= |ids|
        invariant DestroyAll(old(nodes), ids) == DestroyAll(nodes, ids[k..])
      {
        if ids[k] >= |nodes| { return Err(MissingNode(ids[k])); }
        assert ids[k..][1..] == ids[k + 1..];
        nodes := nodes[ids[k] := nodes[ids[k]].(shard := None, online := false)];
        k := k + 1;
      }
      return Ok(());
    }

    method CorruptNodeShard(id: nat) returns (r: Result<(), StorageError>)
      modifies this
      ensures (r, nodes) == CorruptOne(old(nodes), id)
    {
      if id >= |nodes| || nodes[id].shard.None? { return Err(MissingNode(id)); }
      var shard := nodes[id].shard.value;
      var bytes: Bytes := if shard.bytes == [] then [0xFF] else shard.bytes[0 := 0xFF - shard.bytes[0]];
      assert bytes == Flip(shard.bytes);
      nodes := nodes[id := nodes[id].(shard := Some(shard.(bytes := bytes)))];
      return Ok(());
    }

    method AvailableShards() returns (shards: seq<Shard>)
      ensures shards == Available(nodes)
    {
      shards := [];
      for i := 0 to |nodes|
        invariant shards == Available(nodes[..i])
      {
        assert nodes[..i + 1][..i] == nodes[..i];
        if nodes[i].online && nodes[i].shard.Some? {
          shards := shards + [nodes[i].shard.value];
        }
      }
      assert nodes[..|nodes|] == nodes;
    }

    method AuditShards(hash: Hash, s: Segment, p: StoragePolicy) returns (r: Result<AuditReport, StorageError>)
      ensures r == Audit(hash, s, p, nodes)
    {
      hide VerifyShard, WithStatus, StatusOf;
      if |nodes| < p.Total() { return Err(MissingNode(|nodes|)); }
      var verified: seq<nat>, missing: seq<nat>, corrupt: seq<nat> := [], [], [];
      WithStatusNone(hash, s, p, nodes);
      for i := 0 to p.Total()
        invariant verified == WithStatus(hash, s, p, nodes, i, Verified)
        invariant missing == WithStatus(hash, s, p, nodes, i, Missing)
        invariant corrupt == WithStatus(hash, s, p, nodes, i, Corrupt)
      {
        WithStatusStep(hash, s, p, nodes, i);
        var node := nodes[i];
        StatusIs(hash, s, p, node);
        if node.shard.Some? && node.online {
          if VerifyShard(hash, s, p, node.shard.value) {
            verified := verified + [i];
          } else {
            corrupt := corrupt + [i];
          }
        } else {
          missing := missing + [i];
        }
      }
      return Ok(AuditReport(verified, missing, corrupt, |verified| >= p.dataShards,
                            |verified| < p.Total() || missing != [] || corrupt != []));
    }

    method RepairShards(hash: Hash, rs: ReedSolomon, s: Segment, p: StoragePolicy) returns (r: Result<RepairOutcome, StorageError>)
      modifies this
      ensures match Repair(hash, rs, s, p, old(nodes))
              case Ok((outcome, after)) => r == Ok(outcome) && nodes == after
              case Err(e) => r == Err(e) && nodes == old(nodes)
    {
      hide VerifyShard, StatusOf, SlotsFrom;
      var before := AuditShards(hash, s, p);
      if before.Err? { return Err(before.error); }
      if |before.value.verified| < p.dataShards { return Err(NotEnoughShards(|before.value.verified|, p.dataShards)); }
      var code := rs(p.dataShards, p.parityShards);
      if code.None? || p.dataShards == 0 { return Err(ErasureFailed); }
      VerifiedHeld(hash, s, p, nodes, before.value.verified);
      var word := code.value.rebuild(SlotsFrom(nodes, p.Total(), before.value.verified));
      if word.None? || |word.value| != p.Total() { return Err(ErasureFailed); }
      var targets := before.value.missing + before.value.corrupt;
      DistinctTargets(hash, s, p, nodes, targets);
      nodes := RepairTargets(hash, s, p, nodes, word.value, targets);
      var after := AuditShards(hash, s, p);
      return Ok(RepairOutcome(targets, |after.value.verified|, after.value.durable));
    }
  }

  lemma StatusIs(hash: Hash, s: Segment, p: StoragePolicy, node: SimNode)
    ensures StatusOf(hash, s, p, node) ==
            if node.shard.Some? && node.online then (if VerifyShard(hash, s, p, node.shard.value) then Verified else Corrupt) else Missing
  {
    hide VerifyShard;
  }

  /** The write-back loop of `repair_segment_shards`. */
  method RepairTargets(hash: Hash, s: Segment, p: StoragePolicy, nodes: Nodes, word: seq<Bytes>, targets: seq<nat>) returns (repaired: Nodes)
    requires p.dataShards > 0 && |word| <= |nodes| && forall i :: i in targets ==> i < |word|
    requires forall k :: 0 <= k < |targets| ==> targets[k] !in targets[..k]
    ensures repaired == RepairAll(hash, s, p, nodes, word, targets)
  {
    hide RepairedNode;
    repaired := nodes;
    for k := 0 to |targets|
      invariant |repaired| == |nodes|
      invariant forall i :: 0 <= i < |nodes| ==>
                  repaired[i] == if i < |word| && i in targets[..k] then RepairedNode(hash, s, p, nodes[i], i, word[i]) else nodes[i]
    {
      var i := targets[k];
      assert i in targets && i !in targets[..k];
      assert targets[..k + 1] == targets[..k] + [i];
      repaired := repaired[i := RepairedNode(hash, s, p, repaired[i], i, word[i])];
    }
    assert targets[..|targets|] == targets;
  }

  lemma VerifiedHeld(hash: Hash, s: Segment, p: StoragePolicy, nodes: Nodes, verified: seq<nat>)
    requires p.Total() <= |nodes| && verified == WithStatus(hash, s, p, nodes, p.Total(), Verified)
    ensures forall i :: i in verified ==> i < p.Total() && nodes[i].shard.Some?
  {
    hide VerifyShard, WithStatus;
  }

  lemma DistinctTargets(hash: Hash, s: Segment, p: StoragePolicy, nodes: Nodes, targets: seq<nat>)
    requires p.Total() <= |nodes|
    requires targets == WithStatus(hash, s, p, nodes, p.Total(), Missing) + WithStatus(hash, s, p, nodes, p.Total(), Corrupt)
    ensures forall a, b :: 0 <= a < b < |targets| ==> targets[a] != targets[b]
    ensures forall k :: 0 <= k < |targets| ==> targets[k] !in targets[..k]
  {
    hide WithStatus;
    var m, c := WithStatus(hash, s, p, nodes, p.Total(), Missing), WithStatus(hash, s, p, nodes, p.Total(), Corrupt);
    forall a, b | 0 <= a < b < |targets|
      ensures targets[a] != targets[b]
    {
      assert targets[a] in m || targets[a] in c;
      if a < |m| <= b {
        assert targets[a] in m && targets[b] in c;
      }
    }
  }

  // ------------------------------------------- genuine shards, some missing

  /** The shards whose index is kept, in order. */
  function OnlyKept(originals: seq<Shard>, kept: set<nat>): seq<Shard> {
    if originals == [] then []
    else
      var n := |originals| - 1;
      OnlyKept(originals[..n], kept) + if n in kept then [originals[n]] else []
  }

  function KeptNode(originals: seq<Shard>, kept: set<nat>, i: nat): SimNode
    requires i < |originals|
  {
    SimNode(i, if i in kept then Some(originals[i]) else None, true)
  }

  function KeptNodes(originals: seq<Shard>, kept: set<nat>): (nodes: Nodes)
    ensures |nodes| == |originals|
    ensures forall i :: 0 <= i < |nodes| ==> nodes[i] == KeptNode(originals, kept, i)
  {
    seq(|originals|, i requires 0 <= i < |originals| => KeptNode(originals, kept, i))
  }

  lemma {:induction false} StoreAllPush(nodes: Nodes, shards: seq<Shard>, x: Shard)
    requires StoreAll(nodes, shards).0.Ok?
    ensures var after := StoreAll(nodes, shards).1;
            StoreAll(nodes, shards + [x]) ==
              if x.index >= |after| then (Err(MissingNode(x.index)), after) else (Ok(()), after[x.index := after[x.index].(shard := Some(x))])
    decreases |shards|
  {
    if shards == [] {
      assert shards + [x] == [x];
    } else {
      assert (shards + [x])[1..] == shards[1..] + [x];
      StoreAllPush(nodes[shards[0].index := nodes[shards[0].index].(shard := Some(shards[0]))], shards[1..], x);
    }
  }

  /** Storing the kept shards in an empty network. */
  lemma {:induction false} StoreKept(originals: seq<Shard>, kept: set<nat>, n: nat)
    requires n <= |originals| && forall i :: 0 <= i < |originals| ==> originals[i].index == i
    ensures var (r, nodes) := StoreAll(FreshNodes(|originals|), OnlyKept(originals[..n], kept));
            && r == Ok(()) && |nodes| == |originals|
            && forall i :: 0 <= i < |nodes| ==> nodes[i] == if i < n then KeptNode(originals, kept, i) else SimNode(i, None, true)
  {
    if n > 0 {
      StoreKept(originals, kept, n - 1);
      assert originals[..n][..n - 1] == originals[..n - 1];
      if n - 1 in kept {
        StoreAllPush(FreshNodes(|originals|), OnlyKept(originals[..n - 1], kept), originals[n - 1]);
      } else {
        assert OnlyKept(originals[..n], kept) == OnlyKept(originals[..n - 1], kept);
      }
    }
  }

  lemma {:induction false} AvailableKept(originals: seq<Shard>, kept: set<nat>, n: nat)
    requires n <= |originals|
    ensures Available(KeptNodes(originals, kept)[..n]) == OnlyKept(originals[..n], kept)
  {
    if n > 0 {
      AvailableKept(originals, kept, n - 1);
      assert originals[..n][..n - 1] == originals[..n - 1];
      assert KeptNodes(originals, kept)[..n][..n - 1] == KeptNodes(originals, kept)[..n - 1];
    }
  }

  /** A network that lost some genuine shards and holds the rest. */
  lemma KeptNetwork(originals: seq<Shard>, kept: set<nat>)
    requires forall i :: 0 <= i < |originals| ==> originals[i].index == i
    ensures StoreAll(FreshNodes(|originals|), OnlyKept(originals, kept)) == (Ok(()), KeptNodes(originals, kept))
    ensures Available(KeptNodes(originals, kept)) == OnlyKept(originals, kept)
  {
    hide StoreAll, Available, OnlyKept;
    var n := |originals|;
    assert originals[..n] == originals && KeptNodes(originals, kept)[..n] == KeptNodes(originals, kept);
    StoreKept(originals, kept, n);
    AvailableKept(originals, kept, n);
    assert StoreAll(FreshNodes(n), OnlyKept(originals, kept)).1 == KeptNodes(originals, kept);
  }

  // --------------------------------------------------- every run of faults

  /** The hash tells each genuine shard from its flipped form. */
  ghost predicate Lawful(hash: Hash, rs: ReedSolomon, s: Segment, p: StoragePolicy) {
    && LawfulCode(rs, s, p)
    && forall i :: 0 <= i < |Codeword(rs, s, p).value| ==>
         CollisionFree(hash, FaultTranscripts(s.cid, i, Codeword(rs, s, p).value[i]))
  }

  function FaultTranscripts(segment: Cid, index: nat, bytes: Bytes): set<Bytes> {
    {CidTranscript(ShardKind, ShardTranscript(segment, index, bytes)),
     CidTranscript(ShardKind, ShardTranscript(segment, index, Flip(bytes)))}
  }

  /** Every shard held is the genuine one of its node, or that one with its first
      byte flipped and its identifier kept. */
  predicate Faulted(originals: seq<Shard>, nodes: Nodes) {
    forall i :: 0 <= i < |nodes| && nodes[i].shard.Some? ==>
      i < |originals| &&
      (nodes[i].shard.value == originals[i] || nodes[i].shard.value == originals[i].(bytes := Flip(originals[i].bytes)))
  }

  predicate Indexed(originals: seq<Shard>) {
    forall i :: 0 <= i < |originals| ==> originals[i].index == i && originals[i].bytes != []
  }

  datatype Step =
    | Store(shards: seq<Shard>)
    | Destroy(ids: seq<nat>)
    | Damage(id: nat)
    | RepairStep

  function After(hash: Hash, rs: ReedSolomon, s: Segment, p: StoragePolicy, nodes: Nodes, step: Step): Nodes {
    match step
    case Store(shards) => StoreAll(nodes, shards).1
    case Destroy(ids) => DestroyAll(nodes, ids).1
    case Damage(id) => CorruptOne(nodes, id).1
    case RepairStep =>
      match Repair(hash, rs, s, p, nodes)
      case Ok((_, after)) => after
      case Err(_) => nodes
  }

  function AfterAll(hash: Hash, rs: ReedSolomon, s: Segment, p: StoragePolicy, nodes: Nodes, steps: seq<Step>): Nodes {
    if steps == [] then nodes
    else After(hash, rs, s, p, AfterAll(hash, rs, s, p, nodes, steps[..|steps| - 1]), steps[|steps| - 1])
  }

  lemma {:induction false} StoreKeepsFaulted(originals: seq<Shard>, nodes: Nodes, shards: seq<Shard>)
    requires Indexed(originals) && Faulted(originals, nodes)
    requires forall x :: x in shards ==> x in originals
    ensures Faulted(originals, StoreAll(nodes, shards).1)
    decreases |shards|
  {
    if shards != [] {
      var x := shards[0];
      assert x in originals;
      if x.index < |nodes| {
        StoreKeepsFaulted(originals, nodes[x.index := nodes[x.index].(shard := Some(x))], shards[1..]);
      }
    }
  }

  lemma {:induction false} DestroyKeepsFaulted(originals: seq<Shard>, nodes: Nodes, ids: seq<nat>)
    requires Faulted(originals, nodes)
    ensures Faulted(originals, DestroyAll(nodes, ids).1)
    decreases |ids|
  {
    if ids != [] && ids[0] < |nodes| {
      DestroyKeepsFaulted(originals, nodes[ids[0] := nodes[ids[0]].(shard := None, online := false)], ids[1..]);
    }
  }

  lemma DamageKeepsFaulted(originals: seq<Shard>, nodes: Nodes, id: nat)
    requires Indexed(originals) && Faulted(originals, nodes)
    ensures Faulted(originals, CorruptOne(nodes, id).1)
  {
    if id < |nodes| && nodes[id].shard.Some? {
      var b := originals[id].bytes;
      assert Flip(Flip(b)) == b;
    }
  }

  function Originals(hash: Hash, rs: ReedSolomon, s: Segment, p: StoragePolicy): (r: seq<Shard>)
    requires Codeword(rs, s, p).Ok?
    ensures |r| == |Codeword(rs, s, p).value|
  {
    ShardsOf(hash, s, p, Codeword(rs, s, p).value)
  }

  /** Verified means online and equal to the original shard, byte for byte. */
  ghost predicate Discerned(hash: Hash, rs: ReedSolomon, s: Segment, p: StoragePolicy, nodes: Nodes)
    requires Codeword(rs, s, p).Ok? && |Codeword(rs, s, p).value| == p.Total()
  {
    && p.Total() <= |nodes|
    && forall i :: 0 <= i < p.Total() ==>
         (StatusOf(hash, s, p, nodes[i]) == Verified <==> nodes[i].online && nodes[i].shard == Some(Originals(hash, rs, s, p)[i]))
  }

  /** Flipped shards are told apart by the hash. */
  lemma FaultedDiscerned(hash: Hash, rs: ReedSolomon, s: Segment, p: StoragePolicy, nodes: Nodes)
    requires Lawful(hash, rs, s, p) && p.Total() <= |nodes|
    requires Faulted(Originals(hash, rs, s, p), nodes)
    ensures |Codeword(rs, s, p).value| == p.Total() && Discerned(hash, rs, s, p, nodes)
  {
    hide Codeword, ShardCid, Mds, FaultTranscripts;
    LawfulCodeword(rs, s, p);
    var word := Codeword(rs, s, p).value;
    forall i | 0 <= i < p.Total()
      ensures StatusOf(hash, s, p, nodes[i]) == Verified <==> nodes[i].online && nodes[i].shard == Some(Originals(hash, rs, s, p)[i])
    {
      if nodes[i].shard.Some? {
        var x := nodes[i].shard.value;
        if x != MakeShard(hash, s, p, i, word[i]) && x.cid == ShardCid(hash, s.cid, x.index, x.bytes) {
          FaultTranscriptsAre(s.cid, i, word[i]);
          EqualShardCidEqualBytes(hash, s.cid, i, word[i], Flip(word[i]));
        }
      }
    }
  }

  lemma FaultTranscriptsAre(segment: Cid, index: nat, bytes: Bytes)
    ensures FaultTranscripts(segment, index, bytes) ==
            {CidTranscript(ShardKind, ShardTranscript(segment, index, bytes)),
             CidTranscript(ShardKind, ShardTranscript(segment, index, Flip(bytes)))}
  {
  }

  lemma {:induction false} StatusesPartition(hash: Hash, s: Segment, p: StoragePolicy, nodes: Nodes, n: nat)
    requires n <= |nodes|
    ensures |WithStatus(hash, s, p, nodes, n, Verified)| + |WithStatus(hash, s, p, nodes, n, Missing)|
            + |WithStatus(hash, s, p, nodes, n, Corrupt)| == n
  {
    hide StatusOf, WithStatus;
    WithStatusNone(hash, s, p, nodes);
    if n > 0 {
      StatusesPartition(hash, s, p, nodes, n - 1);
      WithStatusStep(hash, s, p, nodes, n - 1);
    }
  }

  /** The audit puts every index below `n` in exactly one list: verified where the
      original shard is online, missing where nothing is, corrupt elsewhere. */
  lemma AuditExact(hash: Hash, rs: ReedSolomon, s: Segment, p: StoragePolicy, nodes: Nodes)
    requires Codeword(rs, s, p).Ok? && |Codeword(rs, s, p).value| == p.Total() && Discerned(hash, rs, s, p, nodes)
    ensures p.Total() <= |nodes| && Audit(hash, s, p, nodes).Ok?
    ensures var a := Audit(hash, s, p, nodes).value;
            var originals := Originals(hash, rs, s, p);
            && |a.verified| + |a.missing| + |a.corrupt| == p.Total()
            && (forall i: nat :: i in a.verified <==> i < p.Total() && nodes[i].online && nodes[i].shard == Some(originals[i]))
            && (forall i: nat :: i in a.missing <==> i < p.Total() && (!nodes[i].online || nodes[i].shard.None?))
            && (forall i: nat :: i in a.corrupt <==> i < p.Total() && nodes[i].online && nodes[i].shard.Some? && nodes[i].shard != Some(originals[i]))
            && (a.durable <==> |a.verified| >= p.dataShards) && (a.repairNeeded <==> |a.verified| < p.Total())
  {
    hide Codeword, StatusOf, WithStatus, Originals;
    StatusesPartition(hash, s, p, nodes, p.Total());
    forall i | 0 <= i < p.Total()
      ensures StatusOf(hash, s, p, nodes[i]) == Missing <==> !nodes[i].online || nodes[i].shard.None?
    {
      StatusMissing(hash, s, p, nodes[i]);
    }
  }

  lemma StatusMissing(hash: Hash, s: Segment, p: StoragePolicy, node: SimNode)
    ensures StatusOf(hash, s, p, node) == Missing <==> !node.online || node.shard.None?
  {
    hide VerifyShard;
  }

  function Elements(a: seq<nat>): set<nat> {
    set i | i in a
  }

  lemma {:induction false} ElementsSize(a: seq<nat>)
    requires forall i, j :: 0 <= i < j < |a| ==> a[i] < a[j]
    ensures |Elements(a)| == |a|
  {
    if a == [] {
      assert Elements(a) == {};
    } else {
      var p, last := a[..|a| - 1], a[|a| - 1];
      ElementsSize(p);
      assert last !in p;
      assert a == p + [last];
      assert Elements(a) == Elements(p) + {last};
    }
  }

  lemma SomeElement(a: seq<nat>)
    ensures a == [] || a[0] in a
  {
  }

  lemma RebuildsWord(hash: Hash, rs: ReedSolomon, s: Segment, p: StoragePolicy, nodes: Nodes)
    requires LawfulCode(rs, s, p) && |Codeword(rs, s, p).value| == p.Total() && Discerned(hash, rs, s, p, nodes)
    requires Audit(hash, s, p, nodes).Ok? && |Audit(hash, s, p, nodes).value.verified| >= p.dataShards
    ensures forall i :: i in Audit(hash, s, p, nodes).value.verified ==> i < p.Total() && nodes[i].shard.Some?
    ensures rs(p.dataShards, p.parityShards).value.rebuild(SlotsFrom(nodes, p.Total(), Audit(hash, s, p, nodes).value.verified))
            == Some(Codeword(rs, s, p).value)
  {
    hide Codeword, StatusOf, Discerned, Mds, SlotsFrom, ShardCid, DivCeil;
    AuditExact(hash, rs, s, p, nodes);
    CodewordFacts(rs, s, p);
    var verified := Audit(hash, s, p, nodes).value.verified;
    var word := Codeword(rs, s, p).value;
    var slots := SlotsFrom(nodes, p.Total(), verified);
    ElementsSize(verified);
    assert Present(slots) == Elements(verified);
    assert PartOf(slots, word);
  }

  /** The nodes after a full repair. */
  predicate Restored(originals: seq<Shard>, before: Nodes, after: Nodes) {
    && |after| == |before| && |originals| <= |after|
    && (forall i :: 0 <= i < |originals| ==> after[i] == before[i].(online := true, shard := Some(originals[i])))
    && (forall i :: |originals| <= i < |after| ==> after[i] == before[i])
  }

  /** Repair succeeds exactly when at least `k` shards are verified.  It then
      touches exactly the missing and corrupt indices, every shard equals the
      original, and a second repair changes nothing. */
  lemma RepairExact(hash: Hash, rs: ReedSolomon, s: Segment, p: StoragePolicy, nodes: Nodes)
    requires LawfulCode(rs, s, p) && |Codeword(rs, s, p).value| == p.Total() && Discerned(hash, rs, s, p, nodes)
    ensures Audit(hash, s, p, nodes).Ok?
    ensures Repair(hash, rs, s, p, nodes).Ok? <==> |Audit(hash, s, p, nodes).value.verified| >= p.dataShards
    ensures Repair(hash, rs, s, p, nodes).Err? ==>
            Repair(hash, rs, s, p, nodes) == Err(NotEnoughShards(|Audit(hash, s, p, nodes).value.verified|, p.dataShards))
    ensures Repair(hash, rs, s, p, nodes).Ok? ==>
            var (outcome, after) := Repair(hash, rs, s, p, nodes).value;
            var a := Audit(hash, s, p, nodes).value;
            && Restored(Originals(hash, rs, s, p), nodes, after)
            && outcome == RepairOutcome(a.missing + a.corrupt, p.Total(), true)
            && Repair(hash, rs, s, p, after) == Ok((RepairOutcome([], p.Total(), true), after))
  {
    hide Codeword, StatusOf, LawfulCode, Discerned, SlotsFrom, RepairAll, Restored, Audit, Originals;
    LawfulCodeword(rs, s, p);
    AuditExact(hash, rs, s, p, nodes);
    var a := Audit(hash, s, p, nodes).value;
    if |a.verified| >= p.dataShards {
      var word := Codeword(rs, s, p).value;
      RebuildsWord(hash, rs, s, p, nodes);
      var after := RepairAll(hash, s, p, nodes, word, a.missing + a.corrupt);
      RepairAllRestores(hash, rs, s, p, nodes);
      RestoredDiscerned(hash, rs, s, p, nodes, after);
      RestoredAudit(hash, rs, s, p, nodes, after);
      assert Repair(hash, rs, s, p, nodes) == Ok((RepairOutcome(a.missing + a.corrupt, p.Total(), true), after));
      RebuildsWord(hash, rs, s, p, after);
      NoTargets(hash, s, p, after, word);
      var none: seq<nat> := [];
      assert none + none == none;
    }
  }

  lemma NoTargets(hash: Hash, s: Segment, p: StoragePolicy, nodes: Nodes, word: seq<Bytes>)
    requires p.dataShards > 0 && |word| <= |nodes|
    ensures RepairAll(hash, s, p, nodes, word, []) == nodes
  {
    hide RepairedNode;
  }

  lemma RepairAllRestores(hash: Hash, rs: ReedSolomon, s: Segment, p: StoragePolicy, nodes: Nodes)
    requires LawfulCode(rs, s, p) && |Codeword(rs, s, p).value| == p.Total() && Discerned(hash, rs, s, p, nodes)
    requires Audit(hash, s, p, nodes).Ok?
    ensures var a := Audit(hash, s, p, nodes).value;
            var word := Codeword(rs, s, p).value;
            && (forall i :: i in a.missing + a.corrupt ==> i < |word|)
            && Restored(Originals(hash, rs, s, p), nodes, RepairAll(hash, s, p, nodes, word, a.missing + a.corrupt))
  {
    hide Codeword, StatusOf, Discerned, ShardCid, DivCeil, Mds, RepairAll, Audit;
    AuditExact(hash, rs, s, p, nodes);
    CodewordFacts(rs, s, p);
    var a := Audit(hash, s, p, nodes).value;
    var word := Codeword(rs, s, p).value;
    var after := RepairAll(hash, s, p, nodes, word, a.missing + a.corrupt);
    var originals := Originals(hash, rs, s, p);
    forall i | 0 <= i < |originals|
      ensures after[i] == nodes[i].(online := true, shard := Some(originals[i]))
    {
      assert word[i] in word;
      assert i in a.verified || i in a.missing + a.corrupt;
      if i in a.verified {
        assert i !in a.missing && i !in a.corrupt;
      } else {
        assert Resize(word[i], |word[i]|) == word[i];
      }
    }
    forall i | |originals| <= i < |after|
      ensures after[i] == nodes[i]
    {
      assert i !in a.missing + a.corrupt;
    }
  }

  lemma RestoredDiscerned(hash: Hash, rs: ReedSolomon, s: Segment, p: StoragePolicy, nodes: Nodes, after: Nodes)
    requires Codeword(rs, s, p).Ok? && |Codeword(rs, s, p).value| == p.Total()
    requires Restored(Originals(hash, rs, s, p), nodes, after)
    ensures Discerned(hash, rs, s, p, after)
  {
    hide Codeword, ShardCid;
    var word := Codeword(rs, s, p).value;
    forall i | 0 <= i < p.Total()
      ensures StatusOf(hash, s, p, after[i]) == Verified
    {
      GenuineVerified(hash, s, p, i, word[i]);
    }
  }

  lemma GenuineVerified(hash: Hash, s: Segment, p: StoragePolicy, i: nat, bytes: Bytes)
    requires i < p.Total()
    ensures VerifyShard(hash, s, p, MakeShard(hash, s, p, i, bytes))
  {
    hide ShardCid;
  }

  lemma RestoredAudit(hash: Hash, rs: ReedSolomon, s: Segment, p: StoragePolicy, nodes: Nodes, after: Nodes)
    requires LawfulCode(rs, s, p) && |Codeword(rs, s, p).value| == p.Total() && Discerned(hash, rs, s, p, after)
    requires Restored(Originals(hash, rs, s, p), nodes, after)
    ensures Audit(hash, s, p, after).Ok?
    ensures var a := Audit(hash, s, p, after).value;
            |a.verified| == p.Total() && a.missing == [] && a.corrupt == [] && a.durable
  {
    hide Codeword, StatusOf, LawfulCode, WithStatus, Discerned, Originals;
    LawfulCodeword(rs, s, p);
    AuditExact(hash, rs, s, p, after);
    var a := Audit(hash, s, p, after).value;
    SomeElement(a.missing);
    SomeElement(a.corrupt);
  }

  lemma KeptDiscerned(hash: Hash, rs: ReedSolomon, s: Segment, p: StoragePolicy, kept: set<nat>)
    requires Codeword(rs, s, p).Ok? && |Codeword(rs, s, p).value| == p.Total()
    ensures Discerned(hash, rs, s, p, KeptNodes(Originals(hash, rs, s, p), kept))
  {
    hide Codeword, ShardCid;
    var word := Codeword(rs, s, p).value;
    var nodes := KeptNodes(Originals(hash, rs, s, p), kept);
    forall i | 0 <= i < p.Total()
      ensures StatusOf(hash, s, p, nodes[i]) == Verified <==> nodes[i].online && nodes[i].shard == Some(Originals(hash, rs, s, p)[i])
    {
      GenuineVerified(hash, s, p, i, word[i]);
    }
  }

  /** Originals only: the steps of a run store nothing but the segment's own shards. */
  predicate OwnShards(originals: seq<Shard>, step: Step) {
    step.Store? ==> forall x :: x in step.shards ==> x in originals
  }

  lemma OriginalsIndexed(hash: Hash, rs: ReedSolomon, s: Segment, p: StoragePolicy)
    requires LawfulCode(rs, s, p)
    ensures Indexed(Originals(hash, rs, s, p))
  {
    hide Codeword, Mds, ShardCid, DivCeil;
    CodewordFacts(rs, s, p);
    var word := Codeword(rs, s, p).value;
    assert forall i :: 0 <= i < |word| ==> word[i] in word;
  }

  /** The audit and repair theorems apply after any run of storing, destroying,
      corrupting and repairing, starting from an empty network. */
  lemma {:induction false} EveryRunDiscerned(hash: Hash, rs: ReedSolomon, s: Segment, p: StoragePolicy, count: nat, steps: seq<Step>)
    requires Lawful(hash, rs, s, p) && p.Total() <= count
    requires forall x :: x in steps ==> OwnShards(Originals(hash, rs, s, p), x)
    ensures |AfterAll(hash, rs, s, p, FreshNodes(count), steps)| == count
    ensures Faulted(Originals(hash, rs, s, p), AfterAll(hash, rs, s, p, FreshNodes(count), steps))
    ensures |Codeword(rs, s, p).value| == p.Total() && Discerned(hash, rs, s, p, AfterAll(hash, rs, s, p, FreshNodes(count), steps))
  {
    hide Codeword, LawfulCode, Originals, Repair, Discerned;
    LawfulCodeword(rs, s, p);
    var originals := Originals(hash, rs, s, p);
    if steps != [] {
      var before, step := steps[..|steps| - 1], steps[|steps| - 1];
      EveryRunDiscerned(hash, rs, s, p, count, before);
      var nodes := AfterAll(hash, rs, s, p, FreshNodes(count), before);
      OriginalsIndexed(hash, rs, s, p);
      assert step in steps;
      match step
      case Store(shards) => StoreKeepsFaulted(originals, nodes, shards);
      case Destroy(ids) => DestroyKeepsFaulted(originals, nodes, ids);
      case Damage(id) => DamageKeepsFaulted(originals, nodes, id);
      case RepairStep =>
        RepairExact(hash, rs, s, p, nodes);
        if Repair(hash, rs, s, p, nodes).Ok? {
          RestoredFaulted(originals, nodes, Repair(hash, rs, s, p, nodes).value.1);
        }
    }
    FaultedDiscerned(hash, rs, s, p, AfterAll(hash, rs, s, p, FreshNodes(count), steps));
  }

  lemma RestoredFaulted(originals: seq<Shard>, before: Nodes, after: Nodes)
    requires Faulted(originals, before) && Restored(originals, before, after)
    ensures Faulted(originals, after)
  {
  }

  // ------------------------------------------------ what the faults do

  /** Destroying nodes empties exactly those and takes them offline. */
  lemma {:induction false} DestroyExact(nodes: Nodes, ids: seq<nat>)
    requires forall id :: id in ids ==> id < |nodes|
    ensures DestroyAll(nodes, ids).0 == Ok(())
    ensures forall i :: 0 <= i < |nodes| ==>
              DestroyAll(nodes, ids).1[i] == if i in ids then SimNode(nodes[i].id, None, false) else nodes[i]
    decreases |ids|
  {
    if ids != [] {
      var id := ids[0];
      assert id in ids && forall x :: x in ids[1..] ==> x in ids;
      DestroyExact(nodes[id := nodes[id].(shard := None, online := false)], ids[1..]);
    }
  }

  /** Corrupting a node's shard flips its first byte and nothing else. */
  lemma CorruptExact(nodes: Nodes, id: nat)
    requires id < |nodes| && nodes[id].shard.Some? && nodes[id].shard.value.bytes != []
    ensures CorruptOne(nodes, id).0 == Ok(())
    ensures var x, after := nodes[id].shard.value, CorruptOne(nodes, id).1;
            && (forall i :: 0 <= i < |nodes| && i != id ==> after[i] == nodes[i])
            && after[id].online == nodes[id].online && after[id].shard.Some?
            && var y := after[id].shard.value;
               && y == x.(bytes := y.bytes) && |y.bytes| == |x.bytes| && y.bytes[1..] == x.bytes[1..]
               && y.bytes[0] == 255 - x.bytes[0] && y.bytes != x.bytes
  {
  }

  /** Storing puts every shard on the node of its index. */
  lemma {:induction false} StoreExact(nodes: Nodes, shards: seq<Shard>, k: nat)
    requires k < |shards| && forall x :: x in shards ==> x.index < |nodes|
    requires forall j :: k < j < |shards| ==> shards[j].index != shards[k].index
    ensures StoreAll(nodes, shards).0 == Ok(())
    ensures StoreAll(nodes, shards).1[shards[k].index].shard == Some(shards[k])
    decreases |shards|
  {
    var i := shards[0].index;
    assert shards[0] in shards && forall x :: x in shards[1..] ==> x in shards;
    var next := nodes[i := nodes[i].(shard := Some(shards[0]))];
    if k > 0 {
      StoreExact(next, shards[1..], k - 1);
    } else {
      assert forall x :: x in shards[1..] ==> x.index != i;
      StoreElsewhere(next, shards[1..], i);
    }
  }

  lemma {:induction false} StoreElsewhere(nodes: Nodes, shards: seq<Shard>, i: nat)
    requires i < |nodes| && forall x :: x in shards ==> x.index < |nodes| && x.index != i
    ensures StoreAll(nodes, shards).0 == Ok(()) && StoreAll(nodes, shards).1[i] == nodes[i]
    decreases |shards|
  {
    if shards != [] {
      var x := shards[0];
      assert x in shards && forall y :: y in shards[1..] ==> y in shards;
      StoreElsewhere(nodes[x.index := nodes[x.index].(shard := Some(x))], shards[1..], i);
    }
  }

  /** The next audit finds exactly the destroyed nodes missing, besides what was. */
  lemma DestroyAudited(hash: Hash, rs: ReedSolomon, s: Segment, p: StoragePolicy, nodes: Nodes, ids: seq<nat>)
    requires Lawful(hash, rs, s, p) && p.Total() <= |nodes| && Faulted(Originals(hash, rs, s, p), nodes)
    requires forall id :: id in ids ==> id < |nodes|
    ensures var before, after := Audit(hash, s, p, nodes), Audit(hash, s, p, DestroyAll(nodes, ids).1);
            && before.Ok? && after.Ok?
            && (forall i: nat :: i in after.value.missing <==> i in before.value.missing || (i in ids && i < p.Total()))
            && (forall i: nat :: i in after.value.verified <==> i in before.value.verified && i !in ids)
            && (forall i: nat :: i in after.value.corrupt <==> i in before.value.corrupt && i !in ids)
  {
    hide Codeword, Audit, Faulted, Discerned, LawfulCode, Originals, DestroyAll, CollisionFree;
    LawfulCodeword(rs, s, p);
    DestroyExact(nodes, ids);
    DestroyKeepsFaulted(Originals(hash, rs, s, p), nodes, ids);
    FaultedDiscerned(hash, rs, s, p, nodes);
    FaultedDiscerned(hash, rs, s, p, DestroyAll(nodes, ids).1);
    AuditExact(hash, rs, s, p, nodes);
    AuditExact(hash, rs, s, p, DestroyAll(nodes, ids).1);
  }

  /** The next audit finds a corrupted verified shard corrupt, and a shard corrupted
      twice verified again; no other index moves. */
  lemma DamageAudited(hash: Hash, rs: ReedSolomon, s: Segment, p: StoragePolicy, nodes: Nodes, id: nat)
    requires Lawful(hash, rs, s, p) && p.Total() <= |nodes| && Faulted(Originals(hash, rs, s, p), nodes)
    requires id < p.Total() && nodes[id].shard.Some? && nodes[id].online
    ensures var before, after := Audit(hash, s, p, nodes), Audit(hash, s, p, CorruptOne(nodes, id).1);
            && before.Ok? && after.Ok?
            && (id in after.value.corrupt <==> id in before.value.verified) && (id in after.value.verified <==> id in before.value.corrupt)
            && (forall i: nat :: i != id ==> (i in after.value.verified <==> i in before.value.verified))
            && (forall i: nat :: i != id ==> (i in after.value.corrupt <==> i in before.value.corrupt))
            && (forall i: nat :: i in after.value.missing <==> i in before.value.missing)
  {
    hide Codeword, Audit, Discerned, LawfulCode, Originals, CollisionFree;
    LawfulCodeword(rs, s, p);
    var originals, after := Originals(hash, rs, s, p), CorruptOne(nodes, id).1;
    OriginalsIndexed(hash, rs, s, p);
    DamageKeepsFaulted(originals, nodes, id);
    FaultedDiscerned(hash, rs, s, p, nodes);
    FaultedDiscerned(hash, rs, s, p, after);
    AuditExact(hash, rs, s, p, nodes);
    AuditExact(hash, rs, s, p, after);
    CorruptExact(nodes, id);
    assert Flip(Flip(originals[id].bytes)) == originals[id].bytes;
  }

  lemma {:induction false} AvailableAppend(a: Nodes, b: Nodes)
    ensures Available(a + b) == Available(a) + Available(b)
    decreases |b|
  {
    if b == [] {
      assert a + b == a;
      assert Available(a) + [] == Available(a);
    } else {
      var n := |b| - 1;
      assert (a + b)[..|a| + n] == a + b[..n];
      AvailableAppend(a, b[..n]);
    }
  }

  lemma AvailableAround(left: Nodes, node: SimNode, right: Nodes)
    ensures Available(left + [node] + right) ==
            Available(left) + (if node.online && node.shard != None then [node.shard.value] else []) + Available(right)
  {
    hide Available;
    AvailableAppend(left + [node], right);
    AvailableAppend(left, [node]);
    AvailableOne(node);
  }

  /** What is available: exactly the shards that online nodes hold, in node order,
      one for each such node. */
  lemma AvailableExact(nodes: Nodes, i: nat)
    requires i < |nodes|
    ensures Available(nodes) ==
            Available(nodes[..i]) +
            (if nodes[i].online && nodes[i].shard != None then [nodes[i].shard.value] else []) + Available(nodes[i + 1..])
  {
    hide Available;
    AvailableAround(nodes[..i], nodes[i], nodes[i + 1..]);
    assert nodes == nodes[..i] + [nodes[i]] + nodes[i + 1..];
  }

  lemma AvailableOne(node: SimNode)
    ensures Available([node]) == if node.online && node.shard != None then [node.shard.value] else []
  {
    assert [node][..0] == [];
    assert Available([]) == [];
  }
}
