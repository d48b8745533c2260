/** Reading a saved ref store gives the same store back, and saving succeeds
    exactly when no signer holds a tab or a line break. */
module RefRoundTrip {
  import opened Prelude
  import opened Core
  import opened Ordering
  import opened GitOid
  import opened RefModel
  import opened RefStores
  import opened RefSnapshot

  // ------------------------------------------------------ safe fields

  lemma DecSafe(n: nat)
    ensures SnapshotField(Dec(n))
  {
    assert forall c :: c in Dec(n) ==> IsDigit(c);
  }

  lemma OidTextSafe(oid: Option<Oid>)
    ensures SnapshotField(OptionalOidText(oid))
    ensures ParseOptionalOid(OptionalOidText(oid)) == Ok(oid)
  {
    if oid.Some? {
      assert forall c :: c in Hex(oid.value) ==> IsLowerHex(c);
      ParseOidOfHex(oid.value);
      assert |"none"| != |Hex(oid.value)|;
    }
  }

  lemma CidTextSafe(cid: Cid)
    requires cid.kind == ProtocolObject
    ensures SnapshotField(CidText(cid)) && CidText(cid) != "none"
    ensures ParseProtocolCid(CidText(cid)) == Ok(cid)
  {
    CidTextLacks(cid, '\t');
    CidTextLacks(cid, '\n');
    CidTextLacks(cid, '\r');
    CidTextUnfold(cid);
    ParseCidOfText(cid);
    assert "gitmesh:" <= CidText(cid);
  }

  lemma OptionalCidTextSafe(cid: Option<Cid>)
    requires cid.Some? ==> cid.value.kind == ProtocolObject
    ensures SnapshotField(OptionalCidText(cid))
    ensures ParseOptionalCid(OptionalCidText(cid)) == Ok(cid)
  {
    if cid.Some? { CidTextSafe(cid.value); }
  }

  lemma RefNameSafe(name: string)
    requires ValidRefName(name)
    ensures SnapshotField(name)
  {
    assert forall c :: c in name ==> RefNameChar(c);
  }

  lemma TransactionIdSafe(tx: string)
    requires ValidTransactionId(tx)
    ensures SnapshotField(tx)
  {
    assert forall c :: c in tx ==> TransactionChar(c);
  }

  // ------------------------------------------------------- line by line

  predicate PlainLine(fields: seq<string>) {
    && |fields| >= 1 && fields[0] != [] && !IsWhitespace(fields[0][0])
    && forall f :: f in fields ==> SnapshotField(f)
  }

  /** A printed line stays one line and is split into the fields it was made of. */
  lemma LineReadsBack(hash: Hash, s: Store, fields: seq<string>)
    requires PlainLine(fields)
    ensures SingleLine(Join(fields, '\t'))
    ensures ReadLine(hash, s, Join(fields, '\t')) == ReadFields(hash, s, fields)
  {
    hide ReadFields;
    var line := Join(fields, '\t');
    assert forall f :: f in fields ==> SnapshotField(f);
    JoinLacks(fields, '\t', '\n');
    JoinLacks(fields, '\t', '\r');
    SplitJoin(fields, '\t');
    assert line[0] == fields[0][0];
    assert line[0] in line;
  }

  lemma RefLineReads(hash: Hash, s: Store, name: string, oid: Oid)
    requires ValidRefName(name)
    ensures PlainLine(RefFields(name, oid))
    ensures ReadFields(hash, s, RefFields(name, oid)) == Ok(s.(refs := s.refs[name := oid]))
  {
    RefNameSafe(name);
    OidTextSafe(Some(oid));
  }

  /** What a receipt needs to be read back under the id it is filed under. */
  predicate ReceiptNamed(tx: string, entry: (string, Receipt)) {
    && ValidTransactionId(tx) && entry.1.tx == tx
    && (entry.1.Committed? ==> ValidRefName(entry.1.refName))
  }

  lemma ReceiptLineReads(hash: Hash, s: Store, tx: string, entry: (string, Receipt))
    requires ReceiptNamed(tx, entry) && SnapshotField(entry.0)
    ensures PlainLine(ReceiptFields(tx, entry))
    ensures ReadFields(hash, s, ReceiptFields(tx, entry)) == Ok(s.(receipts := s.receipts[tx := entry]))
  {
    hide ValidRefName, ValidTransactionId, OptionalOidText, ParseOptionalOid, SnapshotField;
    TransactionIdSafe(tx);
    TagSafe();
    match entry.1
    case Committed(_, name, oldOid, newOid) =>
      RefNameSafe(name);
      OidTextSafe(oldOid);
      OidTextSafe(newOid);
    case Rejected(_, Conflict(expected, actual)) =>
      OidTextSafe(expected);
      OidTextSafe(actual);
    case Rejected(_, IdempotencyViolation) =>
  }

  lemma TagSafe()
    ensures SnapshotField("receipt_committed") && SnapshotField("receipt_rejected_conflict")
    ensures SnapshotField("receipt_rejected_idempotency")
    ensures SnapshotField("mutation") && SnapshotField("checkpoint")
  {
    LowercaseSafe("receipt_committed");
    LowercaseSafe("receipt_rejected_conflict");
    LowercaseSafe("receipt_rejected_idempotency");
    LowercaseSafe("mutation");
    LowercaseSafe("checkpoint");
  }

  lemma LowercaseSafe(tag: string)
    requires forall i :: 0 <= i < |tag| ==> 'a' <= tag[i] <= 'z' || tag[i] == '_'
    ensures SnapshotField(tag)
  {
  }

  predicate MutationNamed(m: Mutation) {
    ValidTransactionId(m.tx) && ValidRefName(m.refName)
  }

  lemma MutationLineReads(hash: Hash, s: Store, m: Mutation)
    requires MutationNamed(m) && SnapshotField(m.fingerprint) && SnapshotField(m.signer)
    requires FollowsMutation(s.mutations, m)
    ensures PlainLine(MutationLine(m))
    ensures ReadFields(hash, s, MutationLine(m)) == Ok(s.(mutations := s.mutations + [m]))
  {
    hide ValidRefName, ValidTransactionId, OptionalOidText, ParseOptionalOid, SnapshotField, FollowsMutation, Dec, ParseUnsigned;
    TagSafe();
    TransactionIdSafe(m.tx);
    RefNameSafe(m.refName);
    OidTextSafe(m.oldOid);
    OidTextSafe(m.newOid);
    DecSafe(m.sequence);
    ParseUnsignedOfDec(m.sequence, TWO_TO_64);
    BoolTextSafe(m.force);
  }

  lemma BoolTextSafe(b: bool)
    ensures SnapshotField(BoolText(b)) && ParseBool(BoolText(b)) == Ok(b)
  {
  }

  predicate ProtocolCheckpoint(c: Checkpoint) {
    && (c.parent.Some? ==> c.parent.value.kind == ProtocolObject)
    && c.refsRoot.kind == c.historyRoot.kind == c.checkpointCid.kind == ProtocolObject
  }

  lemma CheckpointLineReads(hash: Hash, s: Store, c: Checkpoint)
    requires ProtocolCheckpoint(c) && FollowsCheckpoint(hash, s.checkpoints, c)
    ensures PlainLine(CheckpointLine(c))
    ensures ReadFields(hash, s, CheckpointLine(c)) == Ok(s.(checkpoints := s.checkpoints + [c]))
  {
    hide SnapshotField, FollowsCheckpoint, Dec, ParseUnsigned, CidText, OptionalCidText, ParseProtocolCid, ParseOptionalCid;
    TagSafe();
    DecSafe(c.sequence);
    ParseUnsignedOfDec(c.sequence, TWO_TO_64);
    OptionalCidTextSafe(c.parent);
    CidTextSafe(c.refsRoot);
    CidTextSafe(c.historyRoot);
    CidTextSafe(c.checkpointCid);
  }

  // ------------------------------------------------------ group by group

  predicate PlainLines(lines: seq<seq<string>>) {
    forall l :: l in lines ==> PlainLine(l)
  }

  lemma {:induction false} TabJoinedAppend(a: seq<seq<string>>, b: seq<seq<string>>)
    requires PlainLines(a) && PlainLines(b)
    ensures PlainLines(a + b)
    ensures TabJoined(a + b) == TabJoined(a) + TabJoined(b)
  {
    if a == [] {
      assert a + b == b;
    } else {
      assert (a + b)[1..] == a[1..] + b;
      TabJoinedAppend(a[1..], b);
    }
  }

  lemma {:induction false} ReadLinesAppend(hash: Hash, s: Store, a: seq<string>, b: seq<string>)
    requires ReadLines(hash, s, a).Ok?
    ensures ReadLines(hash, s, a + b) == ReadLines(hash, ReadLines(hash, s, a).value, b)
    decreases |a|
  {
    hide ReadLine;
    if a == [] {
      assert a + b == b;
    } else {
      assert (a + b)[1..] == a[1..] + b;
      ReadLinesAppend(hash, ReadLine(hash, s, a[0]).value, a[1..], b);
    }
  }

  lemma ReadStep(hash: Hash, s: Store, fields: seq<string>, rest: seq<seq<string>>, t: Store)
    requires PlainLine(fields) && PlainLines(rest)
    requires ReadFields(hash, s, fields) == Ok(t)
    ensures PlainLines([fields] + rest)
    ensures ReadLines(hash, s, TabJoined([fields] + rest)) == ReadLines(hash, t, TabJoined(rest))
  {
    hide PlainLine, ReadFields, ReadLine;
    assert forall l :: l in [fields] + rest ==> l == fields || l in rest;
    LineReadsBack(hash, s, fields);
    assert ([fields] + rest)[1..] == rest;
    var lines := TabJoined([fields] + rest);
    assert lines[0] == Join(fields, '\t') && lines[1..] == TabJoined(rest);
  }

  function Taken(refs: map<string, Oid>, names: seq<string>): map<string, Oid>
    requires forall n :: n in names ==> n in refs
  {
    map n | n in names :: refs[n]
  }

  lemma NoneTaken(refs: map<string, Oid>)
    ensures Taken(refs, []) == map[]
  {
  }

  lemma TakenStep(r: map<string, Oid>, refs: map<string, Oid>, names: seq<string>)
    requires names != [] && forall n :: n in names ==> n in refs
    ensures r[names[0] := refs[names[0]]] + Taken(refs, names[1..]) == r + Taken(refs, names)
  {
    assert forall n :: n in names <==> n == names[0] || n in names[1..];
  }

  lemma {:induction false} RefsReadBack(hash: Hash, s: Store, refs: map<string, Oid>, names: seq<string>)
    requires forall n :: n in names ==> n in refs && ValidRefName(n)
    ensures PlainLines(RefLines(refs, names))
    ensures ReadLines(hash, s, TabJoined(RefLines(refs, names))) == Ok(s.(refs := s.refs + Taken(refs, names)))
    decreases |names|
  {
    hide PlainLine, ValidRefName, ReadFields, ReadLine, Taken;
    if names == [] {
      NoneTaken(refs);
      assert s.refs + map[] == s.refs;
    } else {
      var n := names[0];
      var t := s.(refs := s.refs[n := refs[n]]);
      RefLineReads(hash, s, n, refs[n]);
      RefsReadBack(hash, t, refs, names[1..]);
      ReadStep(hash, s, RefFields(n, refs[n]), RefLines(refs, names[1..]), t);
      TakenStep(s.refs, refs, names);
    }
  }

  function TakenReceipts(receipts: map<string, (string, Receipt)>, txs: seq<string>): map<string, (string, Receipt)>
    requires forall t :: t in txs ==> t in receipts
  {
    map t | t in txs :: receipts[t]
  }

  lemma NoReceiptsTaken(receipts: map<string, (string, Receipt)>)
    ensures TakenReceipts(receipts, []) == map[]
  {
  }

  lemma TakenReceiptsStep(r: map<string, (string, Receipt)>, receipts: map<string, (string, Receipt)>, txs: seq<string>)
    requires txs != [] && forall t :: t in txs ==> t in receipts
    ensures r[txs[0] := receipts[txs[0]]] + TakenReceipts(receipts, txs[1..]) == r + TakenReceipts(receipts, txs)
  {
    assert forall t :: t in txs <==> t == txs[0] || t in txs[1..];
  }

  lemma {:induction false} ReceiptsReadBack(hash: Hash, s: Store, receipts: map<string, (string, Receipt)>, txs: seq<string>)
    requires forall t :: t in txs ==> t in receipts && ReceiptNamed(t, receipts[t]) && SnapshotField(receipts[t].0)
    ensures PlainLines(ReceiptLines(receipts, txs))
    ensures ReadLines(hash, s, TabJoined(ReceiptLines(receipts, txs))) ==
            Ok(s.(receipts := s.receipts + TakenReceipts(receipts, txs)))
    decreases |txs|
  {
    hide PlainLine, ReceiptNamed, SnapshotField, ReadFields, ReadLine, TakenReceipts;
    if txs == [] {
      NoReceiptsTaken(receipts);
      assert s.receipts + map[] == s.receipts;
    } else {
      var tx := txs[0];
      var t := s.(receipts := s.receipts[tx := receipts[tx]]);
      ReceiptLineReads(hash, s, tx, receipts[tx]);
      ReceiptsReadBack(hash, t, receipts, txs[1..]);
      ReadStep(hash, s, ReceiptFields(tx, receipts[tx]), ReceiptLines(receipts, txs[1..]), t);
      TakenReceiptsStep(s.receipts, receipts, txs);
    }
  }

  lemma {:induction false} MutationsReadBack(hash: Hash, s: Store, ms: seq<Mutation>)
    requires forall m :: m in ms ==> MutationNamed(m) && SnapshotField(m.fingerprint) && SnapshotField(m.signer)
    requires Numbered(s.(mutations := s.mutations + ms))
    ensures PlainLines(MutationLines(ms))
    ensures ReadLines(hash, s, TabJoined(MutationLines(ms))) == Ok(s.(mutations := s.mutations + ms))
    decreases |ms|
  {
    hide PlainLine, MutationNamed, SnapshotField, ReadFields, ReadLine;
    if ms == [] {
      assert s.mutations + ms == s.mutations;
    } else {
      var m := ms[0];
      var t := s.(mutations := s.mutations + [m]);
      assert t.mutations + ms[1..] == s.mutations + ms;
      assert (s.mutations + ms)[|s.mutations|] == m;
      assert s.mutations != [] ==> (s.mutations + ms)[|s.mutations| - 1] == s.mutations[|s.mutations| - 1];
      MutationLineReads(hash, s, m);
      MutationsReadBack(hash, t, ms[1..]);
      ReadStep(hash, s, MutationLine(m), MutationLines(ms[1..]), t);
    }
  }

  lemma {:induction false} CheckpointsReadBack(hash: Hash, s: Store, cs: seq<Checkpoint>)
    requires forall c :: c in cs ==> ProtocolCheckpoint(c)
    requires Chained(hash, s.checkpoints + cs)
    ensures PlainLines(CheckpointLines(cs))
    ensures ReadLines(hash, s, TabJoined(CheckpointLines(cs))) == Ok(s.(checkpoints := s.checkpoints + cs))
    decreases |cs|
  {
    hide PlainLine, ProtocolCheckpoint, ReadFields, ReadLine, CheckpointCid;
    if cs == [] {
      assert s.checkpoints + cs == s.checkpoints;
    } else {
      var c := cs[0];
      var t := s.(checkpoints := s.checkpoints + [c]);
      var all := s.checkpoints + cs;
      assert t.checkpoints + cs[1..] == all;
      assert all[|s.checkpoints|] == c && all[..|s.checkpoints|] == s.checkpoints;
      assert s.checkpoints != [] ==> all[|s.checkpoints| - 1] == s.checkpoints[|s.checkpoints| - 1];
      CheckpointLineReads(hash, s, c);
      CheckpointsReadBack(hash, t, cs[1..]);
      ReadStep(hash, s, CheckpointLine(c), CheckpointLines(cs[1..]), t);
    }
  }

  // ---------------------------------------------------------- round trip

  /** Names and ids are ones their constructors accept. */
  predicate WellNamed(s: Store) {
    && (forall n :: n in s.refs ==> ValidRefName(n))
    && (forall tx :: tx in s.receipts ==> ReceiptNamed(tx, s.receipts[tx]))
    && (forall m :: m in s.mutations ==> MutationNamed(m))
  }

  lemma {:induction false} LoadableCheckpointKinds(hash: Hash, s: Store, i: nat)
    requires Loadable(hash, s) && i < |s.checkpoints|
    ensures ProtocolCheckpoint(s.checkpoints[i])
  {
    assert EntryConsistent(hash, s, i);
    if i > 0 { assert EntryConsistent(hash, s, i - 1); }
  }

  lemma {:induction false} TabJoinedSingle(lines: seq<seq<string>>)
    requires PlainLines(lines)
    ensures forall t :: t in TabJoined(lines) ==> SingleLine(t)
  {
    hide PlainLine;
    if lines != [] {
      LineReadsBack(_ => seq(32, _ => 0), EMPTY, lines[0]);
      TabJoinedSingle(lines[1..]);
    }
  }

  /** The four groups, one after the other. */
  lemma StoreLinesReadBack(hash: Hash, s: Store, names: seq<string>, txs: seq<string>)
    requires Loadable(hash, s) && WellNamed(s) && Savable(s)
    requires forall n :: n in names <==> n in s.refs
    requires forall t :: t in txs <==> t in s.receipts
    ensures var lines := RefLines(s.refs, names) + (ReceiptLines(s.receipts, txs) +
                         (MutationLines(s.mutations) + CheckpointLines(s.checkpoints)));
            PlainLines(lines) && ReadLines(hash, EMPTY, TabJoined(lines)) == Ok(s)
  {
    hide PlainLine, PlainLines, ReadLines, Savable, Loadable, WellNamed, RefLines, ReceiptLines, MutationLines, CheckpointLines, TabJoined, ReceiptNamed, MutationNamed, ProtocolCheckpoint, SnapshotField;
    GroupFacts(hash, s);
    var a, b := RefLines(s.refs, names), ReceiptLines(s.receipts, txs);
    var c, d := MutationLines(s.mutations), CheckpointLines(s.checkpoints);
    var s1 := EMPTY.(refs := s.refs);
    var s2 := s1.(receipts := s.receipts);
    var s3 := s2.(mutations := s.mutations);
    RefsReadBack(hash, EMPTY, s.refs, names);
    assert map[] + Taken(s.refs, names) == s.refs;
    ReceiptsReadBack(hash, s1, s.receipts, txs);
    assert map[] + TakenReceipts(s.receipts, txs) == s.receipts;
    assert [] + s.mutations == s.mutations && [] + s.checkpoints == s.checkpoints;
    MutationsReadBack(hash, s2, s.mutations);
    CheckpointsReadBack(hash, s3, s.checkpoints);
    assert s3.(checkpoints := s.checkpoints) == s;
    TabJoinedAppend(c, d);
    TabJoinedAppend(b, c + d);
    TabJoinedAppend(a, b + (c + d));
    ReadLinesAppend(hash, s2, TabJoined(c), TabJoined(d));
    ReadLinesAppend(hash, s1, TabJoined(b), TabJoined(c + d));
    ReadLinesAppend(hash, EMPTY, TabJoined(a), TabJoined(b + (c + d)));
  }

  lemma GroupFacts(hash: Hash, s: Store)
    requires Loadable(hash, s) && WellNamed(s) && Savable(s)
    ensures forall n :: n in s.refs ==> ValidRefName(n)
    ensures forall t :: t in s.receipts ==> ReceiptNamed(t, s.receipts[t]) && SnapshotField(s.receipts[t].0)
    ensures forall m :: m in s.mutations ==> MutationNamed(m) && SnapshotField(m.fingerprint) && SnapshotField(m.signer)
    ensures forall c :: c in s.checkpoints ==> ProtocolCheckpoint(c)
    ensures Numbered(s) && Chained(hash, s.checkpoints)
  {
    hide ValidRefName, ReceiptNamed, SnapshotField, MutationNamed, Chained, Consistent, ProtocolCheckpoint;
    forall c | c in s.checkpoints
      ensures ProtocolCheckpoint(c)
    {
      var i :| 0 <= i < |s.checkpoints| && s.checkpoints[i] == c;
      LoadableCheckpointKinds(hash, s, i);
    }
  }

  lemma LoadUnlines(hash: Hash, body: seq<string>)
    requires forall l :: l in body ==> SingleLine(l)
    ensures Load(hash, Unlines([HEADER] + body)) ==
            match ReadLines(hash, EMPTY, body)
            case Ok(s) => if Consistent(hash, s) then Ok(s) else Err(InvalidSnapshot)
            case Err(e) => Err(e)
  {
    hide ReadLines, Consistent;
    var lines := [HEADER] + body;
    LowercaseOrDashSafe(HEADER);
    assert forall l :: l in lines ==> l == HEADER || l in body;
    LinesUnlines(lines);
    assert lines[1..] == body;
  }

  lemma LowercaseOrDashSafe(text: string)
    requires forall i :: 0 <= i < |text| ==> text[i] >= '-'
    ensures SingleLine(text)
  {
  }

  /** Whenever saving a loadable store succeeds, reading the text gives back
      exactly the same refs, receipts, mutations and checkpoints. */
  lemma SnapshotRoundTrip(hash: Hash, s: Store)
    requires Loadable(hash, s) && WellNamed(s) && Save(s).Ok?
    ensures Load(hash, Save(s).value) == Ok(s)
  {
    hide PlainLines, ReadLines, Consistent, WellNamed, Savable, StoreLines, TabJoined, SortedStrings, Load, Unlines;
    StoreLinesReadBack(hash, s, SortedStrings(s.refs.Keys), SortedStrings(s.receipts.Keys));
    StoreLinesUnfold(s);
    TabJoinedSingle(StoreLines(s));
    LoadUnlines(hash, TabJoined(StoreLines(s)));
  }

  lemma StoreLinesUnfold(s: Store)
    ensures StoreLines(s) == RefLines(s.refs, SortedStrings(s.refs.Keys)) +
              (ReceiptLines(s.receipts, SortedStrings(s.receipts.Keys)) +
               (MutationLines(s.mutations) + CheckpointLines(s.checkpoints)))
  {
    hide RefLines, ReceiptLines, MutationLines, CheckpointLines, SortedStrings;
  }

  // ------------------------------------------------------------ every run

  lemma {:induction false} ReachableWellNamed(hash: Hash, us: seq<RefUpdate>)
    requires forall u :: u in us ==> ValidUpdate(u)
    ensures WellNamed(Run(hash, EMPTY, us))
  {
    hide ValidRefName, ValidTransactionId, Fingerprint, NextCheckpoint;
    if us != [] {
      var p, u := us[..|us| - 1], us[|us| - 1];
      ReachableWellNamed(hash, p);
      ReceiptsFiledStep(hash, p, u);
      assert ValidUpdate(u);
    }
  }

  lemma ReceiptsFiledStep(hash: Hash, p: seq<RefUpdate>, u: RefUpdate)
    ensures Preflight(Run(hash, EMPTY, p), u).None? ==> Apply(hash, Run(hash, EMPTY, p), u).1.tx == u.tx
  {
  }

  /** A fingerprint can be written to a snapshot exactly when its signer can. */
  lemma FingerprintLacks(u: RefUpdate, x: char)
    requires ValidUpdate(u) && x in "\t\n\r"
    ensures x in Fingerprint(u) <==> x in u.signer
  {
    hide CidText, DebugOid, Dec, BoolText, ValidRefName;
    RefNameSafe(u.refName);
    CidTextLacks(u.repo, x);
    DecSafe(u.policyEpoch);
    BoolTextLacks(u.force, x);
    DebugOidLacks(u.expectedOld, x);
    DebugOidLacks(u.newOid, x);
    var f4 := Dec(u.policyEpoch) + [':'] + u.signer;
    var f3 := BoolText(u.force) + [':'] + f4;
    var f2 := DebugOid(u.newOid) + [':'] + f3;
    var f1 := DebugOid(u.expectedOld) + [':'] + f2;
    var f0 := u.refName + [':'] + f1;
    assert x in f4 <==> x in u.signer;
    assert x in f3 <==> x in f4;
    assert x in f2 <==> x in f3;
    assert x in f1 <==> x in f2;
    assert x in f0 <==> x in f1;
  }

  lemma BoolTextLacks(b: bool, x: char)
    requires x in "\t\n\r"
    ensures x !in BoolText(b)
  {
  }

  lemma FingerprintSafe(u: RefUpdate)
    requires ValidUpdate(u)
    ensures SnapshotField(Fingerprint(u)) <==> SnapshotField(u.signer)
  {
    hide Fingerprint;
    assert '\t' in "\t\n\r" && '\n' in "\t\n\r" && '\r' in "\t\n\r";
    FingerprintLacks(u, '\t');
    FingerprintLacks(u, '\n');
    FingerprintLacks(u, '\r');
  }

  /** Every logged mutation carries the fingerprint and signer of the update that made it. */
  lemma {:induction false} LoggedFromUpdates(hash: Hash, us: seq<RefUpdate>)
    ensures forall m :: m in Run(hash, EMPTY, us).mutations ==>
              exists i :: 0 <= i < |us| && !Seen(us[..i], us[i].tx) && m.fingerprint == Fingerprint(us[i]) && m.signer == us[i].signer
    ensures forall tx :: tx in Run(hash, EMPTY, us).receipts ==>
              exists i :: 0 <= i < |us| && !Seen(us[..i], us[i].tx) && us[i].tx == tx
                          && Run(hash, EMPTY, us).receipts[tx].0 == Fingerprint(us[i])
  {
    hide Fingerprint, NextCheckpoint;
    if us != [] {
      var p, u := us[..|us| - 1], us[|us| - 1];
      var s, t := Run(hash, EMPTY, p), Run(hash, EMPTY, us);
      LoggedFromUpdates(hash, p);
      RunReceipts(hash, p);
      forall m | m in t.mutations
        ensures exists i :: 0 <= i < |us| && !Seen(us[..i], us[i].tx) && m.fingerprint == Fingerprint(us[i]) && m.signer == us[i].signer
      {
        if m in s.mutations {
          var i :| 0 <= i < |p| && !Seen(p[..i], p[i].tx) && m.fingerprint == Fingerprint(p[i]) && m.signer == p[i].signer;
          assert us[..i] == p[..i] && us[i] == p[i];
        } else {
          assert us[..|p|] == p && us[|p|] == u;
        }
      }
      forall tx | tx in t.receipts
        ensures exists i :: 0 <= i < |us| && !Seen(us[..i], us[i].tx) && us[i].tx == tx && t.receipts[tx].0 == Fingerprint(us[i])
      {
        if tx in s.receipts {
          var i :| 0 <= i < |p| && !Seen(p[..i], p[i].tx) && p[i].tx == tx && s.receipts[tx].0 == Fingerprint(p[i]);
          assert us[..i] == p[..i] && us[i] == p[i];
        } else {
          assert us[..|p|] == p && us[|p|] == u;
        }
      }
    }
  }

  /** After any run of valid updates, saving succeeds exactly when the signer of
      every first update under its id can be written on one line; and whenever
      it succeeds, the text reads back as the same store. */
  lemma EveryRunRoundTrips(hash: Hash, us: seq<RefUpdate>)
    requires |us| < TWO_TO_64 - 1
    requires forall u :: u in us ==> ValidUpdate(u)
    ensures Save(Run(hash, EMPTY, us)).Ok? <==>
            forall i :: 0 <= i < |us| && !Seen(us[..i], us[i].tx) ==> SnapshotField(us[i].signer)
    ensures var s := Run(hash, EMPTY, us);
            Save(s).Ok? ==> Load(hash, Save(s).value) == Ok(s)
  {
    hide Run, Fingerprint, Loadable, WellNamed, Load, SnapshotField, ValidRefName;
    var s := Run(hash, EMPTY, us);
    ReachableLoadable(hash, us);
    ReachableWellNamed(hash, us);
    LoggedFromUpdates(hash, us);
    forall i | 0 <= i < |us|
      ensures SnapshotField(Fingerprint(us[i])) <==> SnapshotField(us[i].signer)
    {
      assert us[i] in us;
      FingerprintSafe(us[i]);
    }
    forall i | 0 <= i < |us| && !Seen(us[..i], us[i].tx)
      ensures us[i].tx in s.receipts && s.receipts[us[i].tx].0 == Fingerprint(us[i])
    {
      ReceiptOfFirst(hash, us, i);
    }
    assert Savable(s) <==> Save(s).Ok?;
    if Save(s).Ok? {
      SnapshotRoundTrip(hash, s);
    }
  }

  // ------------------------------------------------- every accepted text

  lemma ReceiptNamedStays(s: Store, tx: string, entry: (string, Receipt))
    requires WellNamed(s) && Savable(s) && ReceiptNamed(tx, entry) && SnapshotField(entry.0)
    ensures var t := s.(receipts := s.receipts[tx := entry]); WellNamed(t) && Savable(t)
  {
    hide ReceiptNamed, SnapshotField, ValidRefName, MutationNamed;
  }

  lemma MutationNamedStays(s: Store, m: Mutation)
    requires WellNamed(s) && Savable(s) && MutationNamed(m) && SnapshotField(m.fingerprint) && SnapshotField(m.signer)
    ensures var t := s.(mutations := s.mutations + [m]); WellNamed(t) && Savable(t)
  {
    hide ReceiptNamed, SnapshotField, ValidRefName, MutationNamed;
  }

  lemma ReadLineNamed(hash: Hash, s: Store, line: string)
    requires WellNamed(s) && Savable(s) && ReadLine(hash, s, line).Ok?
    ensures WellNamed(ReadLine(hash, s, line).value) && Savable(ReadLine(hash, s, line).value)
  {
    hide FollowsCheckpoint, ParseProtocolCid, ParseOptionalCid, ParseOptionalOid, ParseU64, IsBlank, Split, ValidRefName,
         ValidTransactionId, SnapshotField, FollowsMutation, ParseBool;
    if !IsBlank(line) {
      var parts, t := Split(line, '\t'), ReadLine(hash, s, line).value;
      if parts[0] == "receipt_committed" || parts[0] == "receipt_rejected_conflict" || parts[0] == "receipt_rejected_idempotency" {
        hide WellNamed, Savable;
        ReceiptNamedStays(s, parts[1], t.receipts[parts[1]]);
      } else if parts[0] == "mutation" {
        hide WellNamed, Savable;
        MutationNamedStays(s, t.mutations[|s.mutations|]);
      }
    }
  }

  lemma {:induction false} ReadLinesNamed(hash: Hash, s: Store, lines: seq<string>)
    requires WellNamed(s) && Savable(s) && ReadLines(hash, s, lines).Ok?
    ensures WellNamed(ReadLines(hash, s, lines).value) && Savable(ReadLines(hash, s, lines).value)
    decreases |lines|
  {
    hide WellNamed, Savable, ReadLine;
    if lines != [] {
      ReadLineNamed(hash, s, lines[0]);
      ReadLinesNamed(hash, ReadLine(hash, s, lines[0]).value, lines[1..]);
    }
  }

  /** Whatever text is accepted, its store has only valid names and can be saved
      again, and the new text loads to the same store. */
  lemma AcceptedSavesAgain(hash: Hash, text: string)
    requires Load(hash, text).Ok?
    ensures var s := Load(hash, text).value;
            && (forall n :: n in s.refs ==> ValidRefName(n))
            && (forall tx :: tx in s.receipts ==> ValidTransactionId(tx))
            && (forall m :: m in s.mutations ==> ValidRefName(m.refName) && ValidTransactionId(m.tx))
            && Save(s).Ok? && Load(hash, Save(s).value) == Ok(s)
  {
    hide ReadLines, ValidRefName, ValidTransactionId, Lines, StoreLines;
    var s := Load(hash, text).value;
    LoadSound(hash, text);
    ReadLinesNamed(hash, EMPTY, Lines(text)[1..]);
    SnapshotRoundTrip(hash, s);
  }

  function NonBlank(lines: seq<string>): seq<string> {
    if lines == [] then []
    else if IsBlank(lines[0]) then NonBlank(lines[1..])
    else [lines[0]] + NonBlank(lines[1..])
  }

  lemma {:induction false} BlanksIgnored(hash: Hash, s: Store, lines: seq<string>)
    ensures ReadLines(hash, s, lines) == ReadLines(hash, s, NonBlank(lines))
    decreases |lines|
  {
    hide ReadFields, IsBlank, Split;
    if lines != [] {
      var next := ReadLine(hash, s, lines[0]);
      if next.Ok? { BlanksIgnored(hash, next.value, lines[1..]); }
      if !IsBlank(lines[0]) {
        assert NonBlank(lines)[0] == lines[0] && NonBlank(lines)[1..] == NonBlank(lines[1..]);
      }
    }
  }

  /** Without its header a text is refused; with it, only the lines that are not
      blank matter, wherever the blank ones are. */
  lemma HeaderAndBlanks(hash: Hash, text: string, other: string)
    ensures Load(hash, text).Ok? ==> Lines(text) != [] && Lines(text)[0] == "gitmesh-ref-store-v0"
    ensures (Lines(text) != [] && Lines(other) != [] && Lines(text)[0] == Lines(other)[0] &&
             NonBlank(Lines(text)[1..]) == NonBlank(Lines(other)[1..])) ==> Load(hash, text) == Load(hash, other)
  {
    hide Lines, ReadLines, NonBlank, Consistent;
    if Lines(text) != [] && Lines(other) != [] {
      BlanksIgnored(hash, EMPTY, Lines(text)[1..]);
      BlanksIgnored(hash, EMPTY, Lines(other)[1..]);
    }
  }

  /** Identifiers in a snapshot are protocol objects, in their text form or as the
      bare sixty-four digits of their digest. */
  lemma ProtocolCidExact(value: string, cid: Cid)
    ensures ParseProtocolCid(value) == Ok(cid) <==>
            && cid.kind == ProtocolObject
            && if "gitmesh:" <= value then ParseCid(value) == Some(cid)
               else |value| == 64 && DecodeHex(value) == Some(cid.digest)
    ensures ParseProtocolCid(Hex(cid.digest)) == Ok(Cid(ProtocolObject, cid.digest))
  {
    hide ParseCid, Hex, DecodeHex;
    DecodeHexOfHex(cid.digest);
    HexLooks(cid.digest);
  }

  lemma HexLooks(digest: Digest32)
    ensures |Hex(digest)| == 64 && !("gitmesh:" <= Hex(digest))
  {
    assert forall c :: c in Hex(digest) ==> IsLowerHex(c);
    assert Hex(digest)[0] in Hex(digest);
  }
}
