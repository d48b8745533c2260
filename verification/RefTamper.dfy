/** Tamper evidence: the latest checkpoint identifier commits to the whole
    mutation log, the refs and every earlier checkpoint. */
module RefTamper {
  import opened Prelude
  import opened Core
  import opened RefModel
  import opened RefStores

  /** The transcripts hashed to check entry `i` of the log. */
  function EntryTranscripts(s: Store, i: nat): set<Bytes>
    requires i < |s.mutations| == |s.checkpoints|
  {
    var c := s.checkpoints[i];
    {CidTranscript(ProtocolObject, CheckpointTranscript(c.sequence, c.parent, c.refsRoot, c.historyRoot)),
     CidTranscript(ProtocolObject, HistoryTranscript(LatestHistory(s.checkpoints[..i]), s.mutations[i]))}
  }

  function Transcripts(s: Store): set<Bytes>
    requires |s.mutations| == |s.checkpoints|
  {
    set i, b | 0 <= i < |s.mutations| && b in EntryTranscripts(s, i) :: b
  }

  predicate RepresentableLog(s: Store) {
    forall m :: m in s.mutations ==> RepresentableMutation(m)
  }

  /** What the checks say about one entry, in terms of its two transcripts. */
  lemma EntryHashes(hash: Hash, s: Store, i: nat)
    requires Loadable(hash, s) && i < |s.mutations|
    ensures |s.mutations| == |s.checkpoints|
    ensures var c := s.checkpoints[i];
            && c.parent == LatestCid(s.checkpoints[..i]) && c.sequence == i + 1
            && c.refsRoot.kind == ProtocolObject
            && c.historyRoot == HistoryRoot(hash, LatestHistory(s.checkpoints[..i]), s.mutations[i])
            && c.checkpointCid == CheckpointCid(hash, c.sequence, c.parent, c.refsRoot, c.historyRoot)
    ensures EntryTranscripts(s, i) <= Transcripts(s)
  {
    hide HistoryRoot, CheckpointCid, EntryTranscripts;
    assert EntryConsistent(hash, s, i);
  }

  /** One link of the chain: equal checkpoint identifiers at positions `i` and `j`
      mean equal positions, equal checkpoints and equal mutations. */
  lemma EqualCidEqualEntry(hash: Hash, s: Store, i: nat, t: Store, j: nat)
    requires Loadable(hash, s) && Loadable(hash, t)
    requires RepresentableLog(s) && RepresentableLog(t)
    requires i < |s.mutations| && j < |t.mutations|
    requires CollisionFree(hash, Transcripts(s) + Transcripts(t))
    requires s.checkpoints[i].checkpointCid == t.checkpoints[j].checkpointCid
    ensures i == j
    ensures s.checkpoints[i] == t.checkpoints[i] && s.mutations[i] == t.mutations[i]
  {
    hide Loadable, Transcripts, CheckpointTranscript, HistoryTranscript, CidTranscript;
    EntryHashes(hash, s, i);
    EntryHashes(hash, t, j);
    var c, d := s.checkpoints[i], t.checkpoints[j];
    var m, n := s.mutations[i], t.mutations[j];
    var p, q := LatestHistory(s.checkpoints[..i]), LatestHistory(t.checkpoints[..j]);
    var x, y := CheckpointTranscript(c.sequence, c.parent, c.refsRoot, c.historyRoot),
                CheckpointTranscript(d.sequence, d.parent, d.refsRoot, d.historyRoot);
    NewCidInjective(hash, ProtocolObject, x, ProtocolObject, y);
    CheckpointTranscriptInjective(c.sequence, c.parent, c.refsRoot, c.historyRoot,
                                  d.sequence, d.parent, d.refsRoot, d.historyRoot);
    NewCidInjective(hash, ProtocolObject, HistoryTranscript(p, m), ProtocolObject, HistoryTranscript(q, n));
    HistoryTranscriptInjective(p, m, q, n);
  }

  /** Backward along the chain: equal identifiers at `i` mean equal logs up to `i`. */
  lemma {:induction false} EqualCidEqualPrefix(hash: Hash, s: Store, i: nat, t: Store)
    requires Loadable(hash, s) && Loadable(hash, t)
    requires RepresentableLog(s) && RepresentableLog(t)
    requires i < |s.mutations| && i < |t.mutations|
    requires CollisionFree(hash, Transcripts(s) + Transcripts(t))
    requires s.checkpoints[i].checkpointCid == t.checkpoints[i].checkpointCid
    ensures s.mutations[..i + 1] == t.mutations[..i + 1]
    ensures s.checkpoints[..i + 1] == t.checkpoints[..i + 1]
  {
    hide Loadable, Transcripts, EntryTranscripts, CollisionFree, HistoryRoot, CheckpointCid;
    EntryHashes(hash, s, i);
    EntryHashes(hash, t, i);
    EqualCidEqualEntry(hash, s, i, t, i);
    if i > 0 {
      EqualCidEqualPrefix(hash, s, i - 1, t);
    }
    assert s.mutations[..i + 1] == s.mutations[..i] + [s.mutations[i]];
    assert t.mutations[..i + 1] == t.mutations[..i] + [t.mutations[i]];
    assert s.checkpoints[..i + 1] == s.checkpoints[..i] + [s.checkpoints[i]];
    assert t.checkpoints[..i + 1] == t.checkpoints[..i] + [t.checkpoints[i]];
  }

  /** Two loadable stores with the same latest checkpoint identifier have the same
      log, the same refs, the same checkpoint chain and the same receipts for
      every logged transaction, unless two of their transcripts collide. */
  lemma TamperEvidence(hash: Hash, s: Store, t: Store)
    requires Loadable(hash, s) && Loadable(hash, t)
    requires RepresentableLog(s) && RepresentableLog(t)
    requires CollisionFree(hash, Transcripts(s) + Transcripts(t))
    requires LatestCid(s.checkpoints) == LatestCid(t.checkpoints)
    ensures s.mutations == t.mutations && s.refs == t.refs && s.checkpoints == t.checkpoints
    ensures forall m :: m in s.mutations ==>
              m.tx in s.receipts && m.tx in t.receipts && s.receipts[m.tx] == t.receipts[m.tx]
  {
    hide CollisionFree, Transcripts, NextCheckpoint, CheckpointCid;
    var i, j := |s.mutations| - 1, |t.mutations| - 1;
    if s.mutations != [] {
      EqualCidEqualEntry(hash, s, i, t, j);
      EqualCidEqualPrefix(hash, s, i, t);
      assert s.mutations[..i + 1] == s.mutations && t.mutations[..i + 1] == t.mutations;
      assert s.checkpoints[..i + 1] == s.checkpoints && t.checkpoints[..i + 1] == t.checkpoints;
    }
    forall m | m in s.mutations
      ensures m.tx in s.receipts && m.tx in t.receipts && s.receipts[m.tx] == t.receipts[m.tx]
    {
      var k :| 0 <= k < |s.mutations| && s.mutations[k] == m;
      assert EntryConsistent(hash, s, k) && EntryConsistent(hash, t, k);
    }
  }
}
