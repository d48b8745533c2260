/** gitmesh-coordination: the ref store.  Compare-and-swap updates, idempotency
    receipts, the mutation log and the hash-chained checkpoint log. */
module RefStores {
  import opened Prelude
  import opened Core
  import opened GitOid
  import opened RefModel

  datatype Store = Store(
    refs: map<string, Oid>,
    receipts: map<string, (string, Receipt)>,
    mutations: seq<Mutation>,
    checkpoints: seq<Checkpoint>)

  const EMPTY := Store(map[], map[], [], [])

  function Current(refs: map<string, Oid>, name: string): Option<Oid> {
    if name in refs then Some(refs[name]) else None
  }

  function SetRef(refs: map<string, Oid>, name: string, oid: Option<Oid>): map<string, Oid> {
    match oid
    case Some(o) => refs[name := o]
    case None => refs - {name}
  }

  /** `self.mutations.len() as u64 + 1`, wrapping as a release build does. */
  function NextSequence(n: nat): u64 { (n + 1) % TWO_TO_64 }

  function LatestCid(checkpoints: seq<Checkpoint>): Option<Cid> {
    if checkpoints == [] then None else Some(checkpoints[|checkpoints| - 1].checkpointCid)
  }

  function LatestHistory(checkpoints: seq<Checkpoint>): Option<Cid> {
    if checkpoints == [] then None else Some(checkpoints[|checkpoints| - 1].historyRoot)
  }

  /** The checkpoint `append_checkpoint` pushes after the refs have moved. */
  function NextCheckpoint(hash: Hash, refs: map<string, Oid>, checkpoints: seq<Checkpoint>, m: Mutation): Checkpoint {
    var parent := LatestCid(checkpoints);
    var refsRoot := RefsRoot(hash, refs);
    var historyRoot := HistoryRoot(hash, LatestHistory(checkpoints), m);
    Checkpoint(m.sequence, parent, refsRoot, historyRoot, CheckpointCid(hash, m.sequence, parent, refsRoot, historyRoot))
  }

  /** `preflight_receipt`. */
  function Preflight(s: Store, u: RefUpdate): Option<Receipt> {
    if u.tx !in s.receipts then None
    else if s.receipts[u.tx].0 == Fingerprint(u) then Some(s.receipts[u.tx].1)
    else Some(Rejected(u.tx, IdempotencyViolation))
  }

  function MutationOf(s: Store, u: RefUpdate): Mutation {
    Mutation(NextSequence(|s.mutations|), u.tx, Fingerprint(u), u.refName, u.expectedOld, u.newOid, u.force, u.signer)
  }

  /** `apply`: the store after the update, and the receipt returned. */
  function Apply(hash: Hash, s: Store, u: RefUpdate): (Store, Receipt) {
    var actual := Current(s.refs, u.refName);
    if Preflight(s, u).Some? then (s, Preflight(s, u).value)
    else if actual != u.expectedOld then
      var receipt := Rejected(u.tx, Conflict(u.expectedOld, actual));
      (s.(receipts := s.receipts[u.tx := (Fingerprint(u), receipt)]), receipt)
    else
      var receipt := Committed(u.tx, u.refName, actual, u.newOid);
      var refs := SetRef(s.refs, u.refName, u.newOid);
      var m := MutationOf(s, u);
      (Store(refs, s.receipts[u.tx := (Fingerprint(u), receipt)], s.mutations + [m],
             s.checkpoints + [NextCheckpoint(hash, refs, s.checkpoints, m)]),
       receipt)
  }

  // --------------------------------------------------- the store, in place

  class RefStore {
    var refs: map<string, Oid>
    var receipts: map<string, (string, Receipt)>
    var mutations: seq<Mutation>
    var checkpoints: seq<Checkpoint>
    const hash: Hash

    function State(): Store
      reads this
    {
      Store(refs, receipts, mutations, checkpoints)
    }

    constructor (hash: Hash)
      ensures State() == EMPTY && this.hash == hash
    {
      this.hash := hash;
      refs, receipts, mutations, checkpoints := map[], map[], [], [];
    }

    method AppendCheckpoint(m: Mutation)
      modifies this`checkpoints
      ensures checkpoints == old(checkpoints) + [NextCheckpoint(hash, refs, old(checkpoints), m)]
    {
      hide RefsRoot, HistoryRoot, CheckpointCid;
      var parent, previousHistory := None, None;
      if |checkpoints| > 0 {
        var latest := checkpoints[|checkpoints| - 1];
        parent, previousHistory := Some(latest.checkpointCid), Some(latest.historyRoot);
      }
      var refsRoot := RefsRoot(hash, refs);
      var historyRoot := HistoryRoot(hash, previousHistory, m);
      var cid := CheckpointCid(hash, m.sequence, parent, refsRoot, historyRoot);
      checkpoints := checkpoints + [Checkpoint(m.sequence, parent, refsRoot, historyRoot, cid)];
    }

    method ApplyUpdate(u: RefUpdate) returns (receipt: Receipt)
      modifies this
      ensures (State(), receipt) == Apply(hash, old(State()), u)
    {
      hide RefsRoot, HistoryRoot, CheckpointCid, Fingerprint;
      var fingerprint := Fingerprint(u);
      if u.tx in receipts {
        if receipts[u.tx].0 == fingerprint {
          return receipts[u.tx].1;
        }
        return Rejected(u.tx, IdempotencyViolation);
      }
      var actual := Current(refs, u.refName);
      if actual == u.expectedOld {
        if u.newOid.Some? {
          refs := refs[u.refName := u.newOid.value];
        } else {
          refs := refs - {u.refName};
        }
        receipt := Committed(u.tx, u.refName, actual, u.newOid);
      } else {
        receipt := Rejected(u.tx, Conflict(u.expectedOld, actual));
      }
      receipts := receipts[u.tx := (fingerprint, receipt)];
      if receipt.Committed? {
        var m := Mutation(NextSequence(|mutations|), u.tx, fingerprint, receipt.refName,
                          receipt.oldOid, receipt.newOid, u.force, u.signer);
        AppendCheckpoint(m);
        mutations := mutations + [m];
      }
    }
  }

  // ----------------------------------------------------------- consistency

  /** The refs that a mutation log leaves behind. */
  function Replay(ms: seq<Mutation>): map<string, Oid> {
    if ms == [] then map[]
    else
      var m := ms[|ms| - 1];
      SetRef(Replay(ms[..|ms| - 1]), m.refName, m.newOid)
  }

  /** `validate_mutation_receipt`. */
  predicate ReceiptMatches(m: Mutation, entry: (string, Receipt)) {
    entry.0 == m.fingerprint && entry.1 == Committed(m.tx, m.refName, m.oldOid, m.newOid)
  }

  /** Entry `i` of the log: the compare-and-swap held, its receipt is on file and
      its checkpoint is the one recomputed from the replayed refs. */
  predicate EntryConsistent(hash: Hash, s: Store, i: nat)
    requires i < |s.mutations| == |s.checkpoints|
  {
    var m := s.mutations[i];
    && Current(Replay(s.mutations[..i]), m.refName) == m.oldOid
    && m.tx in s.receipts && ReceiptMatches(m, s.receipts[m.tx])
    && s.checkpoints[i] == NextCheckpoint(hash, Replay(s.mutations[..i + 1]), s.checkpoints[..i], m)
  }

  /** What `validate_store_consistency` accepts. */
  predicate Consistent(hash: Hash, s: Store) {
    && |s.mutations| == |s.checkpoints|
    && (forall i :: 0 <= i < |s.mutations| ==> EntryConsistent(hash, s, i))
    && s.refs == Replay(s.mutations)
  }

  /** The loop of `validate_store_consistency`. */
  method ValidateStoreConsistency(hash: Hash, s: Store) returns (ok: bool)
    ensures ok <==> Consistent(hash, s)
  {
    hide RefsRoot, HistoryRoot, CheckpointCid;
    if |s.mutations| != |s.checkpoints| {
      return false;
    }
    var refs: map<string, Oid> := map[];
    var previousHistory: Option<Cid> := None;
    var previousCheckpoint: Option<Cid> := None;
    for i := 0 to |s.mutations|
      invariant refs == Replay(s.mutations[..i])
      invariant previousHistory == LatestHistory(s.checkpoints[..i])
      invariant previousCheckpoint == LatestCid(s.checkpoints[..i])
      invariant forall j :: 0 <= j < i ==> EntryConsistent(hash, s, j)
    {
      var m := s.mutations[i];
      assert s.mutations[..i + 1][..i] == s.mutations[..i];
      if Current(refs, m.refName) != m.oldOid {
        assert !EntryConsistent(hash, s, i);
        return false;
      }
      refs := SetRef(refs, m.refName, m.newOid);
      if m.tx !in s.receipts || !ReceiptMatches(m, s.receipts[m.tx]) {
        assert !EntryConsistent(hash, s, i);
        return false;
      }
      var refsRoot := RefsRoot(hash, refs);
      var historyRoot := HistoryRoot(hash, previousHistory, m);
      var expected := CheckpointCid(hash, m.sequence, previousCheckpoint, refsRoot, historyRoot);
      if s.checkpoints[i] != Checkpoint(m.sequence, previousCheckpoint, refsRoot, historyRoot, expected) {
        assert !EntryConsistent(hash, s, i);
        return false;
      }
      previousHistory := Some(historyRoot);
      previousCheckpoint := Some(s.checkpoints[i].checkpointCid);
    }
    assert s.mutations[..|s.mutations|] == s.mutations;
    return refs == s.refs;
  }

  /** `validate_mutation_sequence` over the whole log: 1, 2, 3, … */
  predicate Numbered(s: Store) {
    forall i :: 0 <= i < |s.mutations| ==> s.mutations[i].sequence == i + 1
  }

  /** `validate_checkpoint_chain` over the whole chain. */
  predicate Chained(hash: Hash, cps: seq<Checkpoint>) {
    forall i :: 0 <= i < |cps| ==>
      && cps[i].sequence == i + 1
      && cps[i].parent == LatestCid(cps[..i])
      && cps[i].checkpointCid ==
           CheckpointCid(hash, cps[i].sequence, cps[i].parent, cps[i].refsRoot, cps[i].historyRoot)
  }

  /** Everything that loading checks. */
  predicate Loadable(hash: Hash, s: Store) {
    Consistent(hash, s) && Numbered(s) && Chained(hash, s.checkpoints)
  }

  /** Receipts are filed under their own transaction id. */
  predicate ReceiptsFiled(s: Store) {
    forall tx :: tx in s.receipts ==> s.receipts[tx].1.tx == tx
  }

  // ------------------------------------------------------------------ runs

  function Run(hash: Hash, s: Store, us: seq<RefUpdate>): Store {
    if us == [] then s else Apply(hash, Run(hash, s, us[..|us| - 1]), us[|us| - 1]).0
  }

  lemma ReplayPush(ms: seq<Mutation>, m: Mutation)
    ensures Replay(ms + [m]) == SetRef(Replay(ms), m.refName, m.newOid)
  {
    assert (ms + [m])[..|ms|] == ms;
  }

  /** A consistent entry stays consistent while the logs and receipts only grow. */
  lemma EntryStays(hash: Hash, s: Store, t: Store, i: nat)
    requires |s.mutations| == |s.checkpoints| && |t.mutations| == |t.checkpoints|
    requires s.mutations <= t.mutations && s.checkpoints <= t.checkpoints
    requires forall tx :: tx in s.receipts ==> tx in t.receipts && t.receipts[tx] == s.receipts[tx]
    requires i < |s.mutations| && EntryConsistent(hash, s, i)
    ensures EntryConsistent(hash, t, i)
  {
    hide NextCheckpoint;
    assert t.mutations[..i] == s.mutations[..i] && t.mutations[..i + 1] == s.mutations[..i + 1];
    assert t.checkpoints[..i] == s.checkpoints[..i];
  }

  /** Appending a mutation whose compare-and-swap held, with its checkpoint. */
  lemma PushKeepsLoadable(hash: Hash, s: Store, m: Mutation, receipts: map<string, (string, Receipt)>)
    requires Loadable(hash, s) && m.sequence == |s.mutations| + 1
    requires forall tx :: tx in s.receipts ==> tx in receipts && receipts[tx] == s.receipts[tx]
    requires m.tx in receipts && ReceiptMatches(m, receipts[m.tx])
    requires Current(s.refs, m.refName) == m.oldOid
    ensures var refs := SetRef(s.refs, m.refName, m.newOid);
            Loadable(hash, Store(refs, receipts, s.mutations + [m],
                                 s.checkpoints + [NextCheckpoint(hash, refs, s.checkpoints, m)]))
  {
    hide RefsRoot, HistoryRoot, CheckpointCid;
    var refs := SetRef(s.refs, m.refName, m.newOid);
    var n := |s.mutations|;
    var t := Store(refs, receipts, s.mutations + [m], s.checkpoints + [NextCheckpoint(hash, refs, s.checkpoints, m)]);
    ReplayPush(s.mutations, m);
    assert t.mutations[..n] == s.mutations && t.checkpoints[..n] == s.checkpoints;
    assert t.mutations[..n + 1] == t.mutations;
    assert EntryConsistent(hash, t, n);
    forall i | 0 <= i < n
      ensures EntryConsistent(hash, t, i)
    {
      EntryStays(hash, s, t, i);
    }
    assert forall i :: 0 <= i < n ==> t.checkpoints[..i] == s.checkpoints[..i];
  }

  /** A committed update keeps every earlier entry consistent and adds one that is. */
  lemma ApplyKeepsLoadable(hash: Hash, s: Store, u: RefUpdate)
    requires Loadable(hash, s) && |s.mutations| + 1 < TWO_TO_64
    ensures Loadable(hash, Apply(hash, s, u).0)
  {
    hide NextCheckpoint, Fingerprint;
    var t := Apply(hash, s, u).0;
    if Preflight(s, u).None? {
      if Current(s.refs, u.refName) == u.expectedOld {
        PushKeepsLoadable(hash, s, MutationOf(s, u), t.receipts);
      } else {
        forall i | 0 <= i < |s.mutations|
          ensures EntryConsistent(hash, t, i)
        {
          EntryStays(hash, s, t, i);
        }
      }
    }
  }

  lemma ApplyGrowth(hash: Hash, s: Store, u: RefUpdate)
    ensures |s.mutations| <= |Apply(hash, s, u).0.mutations| <= |s.mutations| + 1
    ensures s.mutations <= Apply(hash, s, u).0.mutations
    ensures forall tx :: tx in s.receipts ==>
              tx in Apply(hash, s, u).0.receipts && Apply(hash, s, u).0.receipts[tx] == s.receipts[tx]
    ensures Apply(hash, s, u).0.receipts.Keys == s.receipts.Keys + {u.tx}
  {
    hide RefsRoot, HistoryRoot, CheckpointCid, Fingerprint;
  }

  /** Every state reached from the empty store is one that loading would accept:
      its refs are the replay of its log and its checkpoint chain is genuine. */
  lemma {:induction false} ReachableLoadable(hash: Hash, us: seq<RefUpdate>)
    requires |us| < TWO_TO_64 - 1
    ensures Loadable(hash, Run(hash, EMPTY, us))
    ensures ReceiptsFiled(Run(hash, EMPTY, us))
    ensures |Run(hash, EMPTY, us).mutations| <= |us|
  {
    if us != [] {
      var p := us[..|us| - 1];
      ReachableLoadable(hash, p);
      ApplyGrowth(hash, Run(hash, EMPTY, p), us[|us| - 1]);
      ApplyKeepsLoadable(hash, Run(hash, EMPTY, p), us[|us| - 1]);
    }
  }

  // --------------------------------------------------------- exactly once

  predicate Seen(us: seq<RefUpdate>, tx: string) {
    exists i :: 0 <= i < |us| && us[i].tx == tx
  }

  /** The updates whose transaction id did not occur earlier. */
  function Firsts(us: seq<RefUpdate>): seq<RefUpdate> {
    if us == [] then []
    else
      var p, u := us[..|us| - 1], us[|us| - 1];
      if Seen(p, u.tx) then Firsts(p) else Firsts(p) + [u]
  }

  lemma {:induction false} RunReceipts(hash: Hash, us: seq<RefUpdate>)
    ensures forall tx :: tx in Run(hash, EMPTY, us).receipts <==> Seen(us, tx)
  {
    hide Apply;
    if us != [] {
      var p, u := us[..|us| - 1], us[|us| - 1];
      RunReceipts(hash, p);
      ApplyGrowth(hash, Run(hash, EMPTY, p), u);
      forall tx
        ensures Seen(us, tx) <==> Seen(p, tx) || tx == u.tx
      {
        if Seen(p, tx) {
          var i :| 0 <= i < |p| && p[i].tx == tx;
          assert us[i].tx == tx;
        }
        if tx == u.tx { assert us[|us| - 1].tx == tx; }
        if Seen(us, tx) {
          var i :| 0 <= i < |us| && us[i].tx == tx;
          assert i < |p| ==> p[i].tx == tx;
        }
      }
    }
  }

  /** Repeated transaction ids have no effect at all: the run that drops them
      ends in the same store. */
  lemma {:induction false} ExactlyOnce(hash: Hash, us: seq<RefUpdate>)
    ensures Run(hash, EMPTY, Firsts(us)) == Run(hash, EMPTY, us)
  {
    if us != [] {
      var p, u := us[..|us| - 1], us[|us| - 1];
      ExactlyOnce(hash, p);
      RunReceipts(hash, p);
      if !Seen(p, u.tx) {
        assert Firsts(us)[..|Firsts(us)| - 1] == Firsts(p);
      }
    }
  }

  /** The receipts of a run, one for each update. */
  function Receipts(hash: Hash, s: Store, us: seq<RefUpdate>): (r: seq<Receipt>)
    ensures |r| == |us|
  {
    if us == [] then []
    else
      var p := us[..|us| - 1];
      Receipts(hash, s, p) + [Apply(hash, Run(hash, s, p), us[|us| - 1]).1]
  }

  function FirstReceipts(hash: Hash, us: seq<RefUpdate>): seq<Receipt> {
    if us == [] then []
    else
      var p, u := us[..|us| - 1], us[|us| - 1];
      var r := Apply(hash, Run(hash, EMPTY, p), u).1;
      if Seen(p, u.tx) then FirstReceipts(hash, p) else FirstReceipts(hash, p) + [r]
  }

  /** The updates that are kept get the receipts they got before the others were dropped. */
  lemma {:induction false} ExactlyOnceReceipts(hash: Hash, us: seq<RefUpdate>)
    ensures Receipts(hash, EMPTY, Firsts(us)) == FirstReceipts(hash, us)
  {
    if us != [] {
      var p, u := us[..|us| - 1], us[|us| - 1];
      ExactlyOnceReceipts(hash, p);
      ExactlyOnce(hash, p);
      if !Seen(p, u.tx) {
        assert Firsts(us)[..|Firsts(us)| - 1] == Firsts(p);
      }
    }
  }

  /** A receipt on file came from the first update under that id, and stays. */
  lemma {:induction false} ReceiptOfFirst(hash: Hash, us: seq<RefUpdate>, i: nat)
    requires i < |us| && !Seen(us[..i], us[i].tx)
    ensures us[i].tx in Run(hash, EMPTY, us).receipts
    ensures Run(hash, EMPTY, us).receipts[us[i].tx] ==
            (Fingerprint(us[i]), Apply(hash, Run(hash, EMPTY, us[..i]), us[i]).1)
  {
    var p := us[..|us| - 1];
    if i == |us| - 1 {
      RunReceipts(hash, p);
    } else {
      assert p[..i] == us[..i];
      ReceiptOfFirst(hash, p, i);
      ApplyGrowth(hash, Run(hash, EMPTY, p), us[|us| - 1]);
    }
  }

  /** A later update under a used id changes nothing.  It is answered with the
      original receipt exactly when it is the original operation. */
  lemma RepeatAnswered(hash: Hash, us: seq<RefUpdate>, i: nat, v: RefUpdate)
    requires i < |us| && !Seen(us[..i], us[i].tx) && v.tx == us[i].tx
    requires ValidRefName(us[i].refName) && ValidRefName(v.refName)
    ensures Apply(hash, Run(hash, EMPTY, us), v).0 == Run(hash, EMPTY, us)
    ensures var original := Apply(hash, Run(hash, EMPTY, us[..i]), us[i]).1;
            Apply(hash, Run(hash, EMPTY, us), v).1 ==
              if v == us[i] then original else Rejected(v.tx, IdempotencyViolation)
  {
    ReceiptOfFirst(hash, us, i);
    FingerprintExact(us[i], v);
  }

  /** Receipts of first updates are never idempotency violations, so the two
      answers of `RepeatAnswered` are told apart. */
  lemma FirstReceiptIsOriginal(hash: Hash, us: seq<RefUpdate>, u: RefUpdate)
    requires !Seen(us, u.tx)
    ensures Apply(hash, Run(hash, EMPTY, us), u).1 != Rejected(u.tx, IdempotencyViolation)
  {
    RunReceipts(hash, us);
  }
}
