/** What updates do to the refs: the effect of one update, field by field, and
    what a ref holds after any run of them. */
module RefHistory {
  import opened Prelude
  import opened Core
  import opened GitOid
  import opened RefModel
  import opened RefStores

  // ------------------------------------------------------------- one update

  /** The name maps to exactly the object, or is absent. */
  predicate HoldsAt(refs: map<string, Oid>, name: string, oid: Option<Oid>) {
    match oid
    case Some(o) => name in refs && refs[name] == o
    case None => name !in refs
  }

  ghost predicate SameExcept(a: map<string, Oid>, b: map<string, Oid>, name: string) {
    forall n :: n != name ==> (n in a <==> n in b) && (n in a ==> a[n] == b[n])
  }

  /** The checkpoint chained to the last one, over the refs after the mutation. */
  predicate Chains(hash: Hash, before: seq<Checkpoint>, refs: map<string, Oid>, m: Mutation, c: Checkpoint) {
    var n := |before|;
    && c.sequence == m.sequence
    && c.parent == (if n == 0 then None else Some(before[n - 1].checkpointCid))
    && c.refsRoot == RefsRoot(hash, refs)
    && c.historyRoot == HistoryRoot(hash, if n == 0 then None else Some(before[n - 1].historyRoot), m)
    && c.checkpointCid == CheckpointCid(hash, c.sequence, c.parent, c.refsRoot, c.historyRoot)
  }

  /** The first update under an id whose expectation holds commits: the name then
      holds exactly the new object, every other name what it held, and log and
      checkpoint chain grow by one. */
  lemma CommitExact(hash: Hash, s: Store, u: RefUpdate)
    requires u.tx !in s.receipts && HoldsAt(s.refs, u.refName, u.expectedOld)
    ensures var (t, receipt) := Apply(hash, s, u);
            && receipt == Committed(u.tx, u.refName, u.expectedOld, u.newOid)
            && HoldsAt(t.refs, u.refName, u.newOid) && SameExcept(s.refs, t.refs, u.refName)
            && t.receipts == s.receipts[u.tx := (Fingerprint(u), receipt)]
            && var m := Mutation((|s.mutations| + 1) % TWO_TO_64, u.tx, Fingerprint(u), u.refName, u.expectedOld, u.newOid, u.force, u.signer);
               && t.mutations == s.mutations + [m]
               && |t.checkpoints| == |s.checkpoints| + 1 && s.checkpoints <= t.checkpoints
               && Chains(hash, s.checkpoints, t.refs, m, t.checkpoints[|s.checkpoints|])
  {
    hide Fingerprint, RefsRoot, HistoryRoot, CheckpointCid;
  }

  /** The first update under an id whose expectation fails only files its receipt,
      which tells what the ref held. */
  lemma ConflictExact(hash: Hash, s: Store, u: RefUpdate, actual: Option<Oid>)
    requires u.tx !in s.receipts && HoldsAt(s.refs, u.refName, actual) && actual != u.expectedOld
    ensures var (t, receipt) := Apply(hash, s, u);
            && receipt == Rejected(u.tx, Conflict(u.expectedOld, actual))
            && t == s.(receipts := s.receipts[u.tx := (Fingerprint(u), receipt)])
  {
    hide Fingerprint, RefsRoot, HistoryRoot, CheckpointCid;
  }

  // -------------------------------------------------------------- whole runs

  /** Update `i` of a run moved its ref: it is the first under its id and was committed. */
  predicate Moved(us: seq<RefUpdate>, receipts: seq<Receipt>, i: nat)
    requires |receipts| == |us|
  {
    i < |us| && !Seen(us[..i], us[i].tx) && receipts[i].Committed?
  }

  /** What the last update that moved `name` gave it. */
  function Given(us: seq<RefUpdate>, receipts: seq<Receipt>, name: string): Option<Oid>
    requires |receipts| == |us|
  {
    if us == [] then None
    else
      var n := |us| - 1;
      if us[n].refName == name && Moved(us, receipts, n) then us[n].newOid else Given(us[..n], receipts[..n], name)
  }

  lemma MovedPrefix(us: seq<RefUpdate>, receipts: seq<Receipt>, n: nat, i: nat)
    requires |receipts| == |us| && i < n <= |us|
    ensures Moved(us, receipts, i) <==> Moved(us[..n], receipts[..n], i)
  {
    assert us[..n][..i] == us[..i];
  }

  lemma {:induction false} ReceiptsPrefix(hash: Hash, us: seq<RefUpdate>, n: nat)
    requires n <= |us|
    ensures Receipts(hash, EMPTY, us)[..n] == Receipts(hash, EMPTY, us[..n])
    decreases |us|
  {
    hide Apply;
    if n == |us| {
      assert us[..n] == us;
    } else {
      ReceiptsPrefix(hash, us[..|us| - 1], n);
      assert us[..|us| - 1][..n] == us[..n];
    }
  }

  /** After any run every name holds what its last committed update gave it. */
  lemma {:induction false} RefsHoldLastGiven(hash: Hash, us: seq<RefUpdate>, name: string)
    ensures HoldsAt(Run(hash, EMPTY, us).refs, name, Given(us, Receipts(hash, EMPTY, us), name))
  {
    hide Apply;
    if us != [] {
      var n := |us| - 1;
      var p, u := us[..n], us[n];
      var s := Run(hash, EMPTY, p);
      RefsHoldLastGiven(hash, p, name);
      RunReceipts(hash, p);
      assert Receipts(hash, EMPTY, us)[..n] == Receipts(hash, EMPTY, p);
      if Seen(p, u.tx) {
        KnownUnchanged(hash, s, u);
      } else {
        var held := if u.refName in s.refs then Some(s.refs[u.refName]) else None;
        if held == u.expectedOld { CommitExact(hash, s, u); } else { ConflictExact(hash, s, u, held); }
      }
    }
  }

  lemma KnownUnchanged(hash: Hash, s: Store, u: RefUpdate)
    requires u.tx in s.receipts
    ensures Apply(hash, s, u).0 == s
  {
  }

  /** Compare and swap over a whole history, without any store: the first update
      under an id is committed exactly when it expects what the last committed
      update of its ref gave. */
  lemma CompareAndSwap(hash: Hash, us: seq<RefUpdate>, i: nat)
    requires i < |us| && !Seen(us[..i], us[i].tx)
    ensures var receipts, u := Receipts(hash, EMPTY, us), us[i];
            var held := Given(us[..i], receipts[..i], u.refName);
            receipts[i] == if held == u.expectedOld then Committed(u.tx, u.refName, u.expectedOld, u.newOid)
                           else Rejected(u.tx, Conflict(u.expectedOld, held))
  {
    hide Apply, Run, Given;
    var u := us[i];
    var s := Run(hash, EMPTY, us[..i]);
    RunReceipts(hash, us[..i]);
    ReceiptsPrefix(hash, us, i);
    ReceiptsPrefix(hash, us, i + 1);
    RefsHoldLastGiven(hash, us[..i], u.refName);
    assert us[..i + 1][..i] == us[..i];
    var held := Given(us[..i], Receipts(hash, EMPTY, us)[..i], u.refName);
    assert Receipts(hash, EMPTY, us)[i] == Receipts(hash, EMPTY, us[..i + 1])[i] == Apply(hash, s, u).1;
    if held == u.expectedOld { CommitExact(hash, s, u); } else { ConflictExact(hash, s, u, held); }
  }

  /** The last update that moved a name: no later one did. */
  predicate LastMove(us: seq<RefUpdate>, receipts: seq<Receipt>, name: string, i: nat)
    requires |receipts| == |us|
  {
    && Moved(us, receipts, i) && us[i].refName == name
    && forall j :: i < j < |us| && us[j].refName == name ==> !Moved(us, receipts, j)
  }

  /** `Given` is what its name says: the object of the last move. */
  lemma {:induction false} GivenByLastMove(us: seq<RefUpdate>, receipts: seq<Receipt>, name: string, i: nat)
    requires |receipts| == |us| && LastMove(us, receipts, name, i)
    ensures Given(us, receipts, name) == us[i].newOid
  {
    hide Moved;
    MovedInRange(us, receipts, i);
    var n := |us| - 1;
    if i < n {
      forall j: nat | j < n
        ensures Moved(us, receipts, j) <==> Moved(us[..n], receipts[..n], j)
      {
        MovedPrefix(us, receipts, n, j);
      }
      GivenByLastMove(us[..n], receipts[..n], name, i);
    }
  }

  lemma MovedInRange(us: seq<RefUpdate>, receipts: seq<Receipt>, i: nat)
    requires |receipts| == |us| && Moved(us, receipts, i)
    ensures i < |us|
  {
  }

  /** A name that no update moved holds nothing. */
  lemma {:induction false} GivenNothing(us: seq<RefUpdate>, receipts: seq<Receipt>, name: string)
    requires |receipts| == |us|
    requires forall i: nat :: i < |us| && us[i].refName == name ==> !Moved(us, receipts, i)
    ensures Given(us, receipts, name) == None
  {
    hide Moved;
    if us != [] {
      var n := |us| - 1;
      forall j: nat | j < n
        ensures Moved(us, receipts, j) <==> Moved(us[..n], receipts[..n], j)
      {
        MovedPrefix(us, receipts, n, j);
      }
      GivenNothing(us[..n], receipts[..n], name);
    }
  }

  // ----------------------------------------------------- what loading checks

  /** What the last mutation of `name` in a log gave it. */
  function GivenBy(ms: seq<Mutation>, name: string): Option<Oid> {
    if ms == [] then None
    else if ms[|ms| - 1].refName == name then ms[|ms| - 1].newOid
    else GivenBy(ms[..|ms| - 1], name)
  }

  /** Replaying a log leaves every name with what its last mutation gave it. */
  lemma {:induction false} ReplayGives(ms: seq<Mutation>, name: string)
    ensures HoldsAt(Replay(ms), name, GivenBy(ms, name))
  {
    if ms != [] { ReplayGives(ms[..|ms| - 1], name); }
  }

  /** What is checked of entry `i`: the compare-and-swap held against the log before
      it, the receipt is on file as committed under the same fingerprint, and the
      checkpoint is chained over the refs that the log had left. */
  predicate EntryPasses(hash: Hash, s: Store, i: nat)
    requires i < |s.mutations| == |s.checkpoints|
  {
    var m := s.mutations[i];
    && m.oldOid == GivenBy(s.mutations[..i], m.refName)
    && m.tx in s.receipts && s.receipts[m.tx] == (m.fingerprint, Committed(m.tx, m.refName, m.oldOid, m.newOid))
    && Chains(hash, s.checkpoints[..i], Replay(s.mutations[..i + 1]), m, s.checkpoints[i])
  }

  lemma EntryExact(hash: Hash, s: Store, i: nat)
    requires i < |s.mutations| == |s.checkpoints|
    ensures EntryConsistent(hash, s, i) <==> EntryPasses(hash, s, i)
  {
    hide RefsRoot, HistoryRoot, CheckpointCid, Replay, GivenBy;
    ReplayGives(s.mutations[..i], s.mutations[i].refName);
  }

  /** The validator accepts exactly the stores with as many checkpoints as mutations
      whose entries all pass and whose refs hold what the log gave them. */
  lemma ConsistentExact(hash: Hash, s: Store)
    ensures Consistent(hash, s) <==>
            && |s.mutations| == |s.checkpoints|
            && (forall i :: 0 <= i < |s.mutations| ==> EntryPasses(hash, s, i))
            && HoldsGiven(s.refs, s.mutations)
  {
    hide EntryPasses, EntryConsistent, HoldsGiven, Replay, GivenBy;
    if |s.mutations| == |s.checkpoints| {
      forall i | 0 <= i < |s.mutations|
        ensures EntryConsistent(hash, s, i) <==> EntryPasses(hash, s, i)
      {
        EntryExact(hash, s, i);
      }
    }
    RefsGiven(s.refs, s.mutations);
  }

  /** Every name holds what the log gave it. */
  ghost predicate HoldsGiven(refs: map<string, Oid>, ms: seq<Mutation>) {
    forall name :: HoldsAt(refs, name, GivenBy(ms, name))
  }

  lemma RefsGiven(refs: map<string, Oid>, ms: seq<Mutation>)
    ensures refs == Replay(ms) <==> HoldsGiven(refs, ms)
  {
    hide Replay, GivenBy;
    if refs == Replay(ms) {
      forall name
        ensures HoldsAt(refs, name, GivenBy(ms, name))
      {
        ReplayGives(ms, name);
      }
    }
    if HoldsGiven(refs, ms) {
      forall name
        ensures (name in refs <==> name in Replay(ms)) && (name in refs ==> refs[name] == Replay(ms)[name])
      {
        ReplayGives(ms, name);
        HoldOne(refs, Replay(ms), name, GivenBy(ms, name));
      }
      assert refs == Replay(ms);
    }
  }

  lemma HoldOne(a: map<string, Oid>, b: map<string, Oid>, name: string, oid: Option<Oid>)
    requires HoldsAt(b, name, oid)
    ensures HoldsAt(a, name, oid) ==> (name in a <==> name in b) && (name in a ==> a[name] == b[name])
  {
  }
}
