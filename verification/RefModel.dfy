/** gitmesh-coordination: the values a repository coordinator handles, their
    validation, and the transcripts that checkpoints hash. */
module RefModel {
  import opened Prelude
  import opened Text
  import opened Core
  import opened Ordering
  import opened GitOid

  // -------------------------------------------------------------- names

  predicate StartsWith(s: string, p: string) { p <= s }

  predicate EndsWith(s: string, p: string) { |p| <= |s| && s[|s| - |p|..] == p }

  predicate Contains(s: string, p: string) {
    exists i :: 0 <= i <= |s| && p <= s[i..]
  }

  predicate RefNameChar(c: char) {
    c > ' ' && c !in "~^:?*[\\"
  }

  /** `validate_ref_name`. */
  predicate ValidRefName(value: string) {
    && StartsWith(value, "refs/") && !EndsWith(value, "/") && !Contains(value, "..")
    && (forall c :: c in value ==> RefNameChar(c))
    && (forall part :: part in Split(value, '/') ==> part != [] && !EndsWith(part, ".lock"))
  }

  predicate TransactionChar(c: char) {
    '0' <= c <= '9' || 'a' <= c <= 'z' || 'A' <= c <= 'Z' || c == '-' || c == '_'
  }

  /** `TransactionId::new`. */
  predicate ValidTransactionId(value: string) {
    value != [] && forall c :: c in value ==> TransactionChar(c)
  }

  // ------------------------------------------------------------- values

  datatype RefUpdate = RefUpdate(
    repo: Cid,
    refName: string,
    expectedOld: Option<Oid>,
    newOid: Option<Oid>,
    force: bool,
    policyEpoch: u64,
    tx: string,
    signer: string)

  /** What the constructors of `RefName`, `TransactionId` and `RepoId` guarantee. */
  predicate ValidUpdate(u: RefUpdate) {
    ValidRefName(u.refName) && ValidTransactionId(u.tx) && u.repo.kind == ProtocolObject
  }

  datatype Reason = Conflict(expected: Option<Oid>, actual: Option<Oid>) | IdempotencyViolation

  datatype Receipt =
    | Committed(tx: string, refName: string, oldOid: Option<Oid>, newOid: Option<Oid>)
    | Rejected(tx: string, reason: Reason)

  datatype Mutation = Mutation(
    sequence: u64,
    tx: string,
    fingerprint: string,
    refName: string,
    oldOid: Option<Oid>,
    newOid: Option<Oid>,
    force: bool,
    signer: string)

  datatype Checkpoint = Checkpoint(
    sequence: u64,
    parent: Option<Cid>,
    refsRoot: Cid,
    historyRoot: Cid,
    checkpointCid: Cid)

  // --------------------------------------------------------- fingerprint

  function BoolText(b: bool): string { if b then "true" else "false" }

  /** The `Debug` form of an optional object id. */
  function DebugOid(oid: Option<Oid>): string {
    match oid
    case None => "None"
    case Some(o) => "Some(GitSha1Oid(\"" + Hex(o) + "\"))"
  }

  /** `operation_fingerprint`; the transaction id is not part of it. */
  function Fingerprint(u: RefUpdate): string {
    CidText(u.repo) + [':'] + (u.refName + [':'] + (DebugOid(u.expectedOld) + [':'] +
      (DebugOid(u.newOid) + [':'] + (BoolText(u.force) + [':'] + (Dec(u.policyEpoch) + [':'] + u.signer)))))
  }

  predicate SameOperation(u: RefUpdate, v: RefUpdate) {
    u.(tx := v.tx) == v
  }

  lemma CidTextCancel(a: Cid, x: string, b: Cid, y: string)
    requires CidText(a) + [':'] + x == CidText(b) + [':'] + y
    ensures a == b && x == y
  {
    CidTextUnfold(a);
    CidTextUnfold(b);
    CidFieldsLack(a, ':');
    CidFieldsLack(b, ':');
    var a3, b3 := Hex(a.digest) + [':'] + x, Hex(b.digest) + [':'] + y;
    var a2, b2 := "Blake3_256" + [':'] + a3, "Blake3_256" + [':'] + b3;
    var a1, b1 := a.kind.Label() + [':'] + a2, b.kind.Label() + [':'] + b2;
    var a0, b0 := "v0" + [':'] + a1, "v0" + [':'] + b1;
    assert CidText(a) + [':'] + x == "gitmesh" + [':'] + a0;
    assert CidText(b) + [':'] + y == "gitmesh" + [':'] + b0;
    SeparatorCancel("gitmesh", a0, "gitmesh", b0, ':');
    SeparatorCancel("v0", a1, "v0", b1, ':');
    assert a.kind.Label() in CidFields(a) && b.kind.Label() in CidFields(b);
    SeparatorCancel(a.kind.Label(), a2, b.kind.Label(), b2, ':');
    SeparatorCancel("Blake3_256", a3, "Blake3_256", b3, ':');
    assert Hex(a.digest) in CidFields(a) && Hex(b.digest) in CidFields(b);
    SeparatorCancel(Hex(a.digest), x, Hex(b.digest), y, ':');
    HexInjective(a.digest, b.digest);
  }

  lemma DebugOidLacks(oid: Option<Oid>, x: char)
    requires x in ":\t\n\r"
    ensures x !in DebugOid(oid)
  {
    if oid.Some? {
      assert forall c :: c in Hex(oid.value) ==> IsLowerHex(c);
    }
  }

  lemma DebugOidInjective(a: Option<Oid>, b: Option<Oid>)
    requires DebugOid(a) == DebugOid(b)
    ensures a == b
  {
    if a.Some? && b.Some? {
      assert Hex(a.value) == DebugOid(a)[|"Some(GitSha1Oid(\""|..][..40];
      assert Hex(b.value) == DebugOid(b)[|"Some(GitSha1Oid(\""|..][..40];
      HexInjective(a.value, b.value);
    }
  }

  /** Two updates have the same fingerprint exactly when they agree on every
      field but the transaction id: a valid ref name holds no colon, so the
      colons of the text can be told apart. */
  lemma FingerprintExact(u: RefUpdate, v: RefUpdate)
    requires ValidRefName(u.refName) && ValidRefName(v.refName)
    ensures Fingerprint(u) == Fingerprint(v) <==> SameOperation(u, v)
  {
    if Fingerprint(u) == Fingerprint(v) {
      assert forall c :: c in u.refName || c in v.refName ==> RefNameChar(c);
      var u4, v4 := Dec(u.policyEpoch) + [':'] + u.signer, Dec(v.policyEpoch) + [':'] + v.signer;
      var u3, v3 := BoolText(u.force) + [':'] + u4, BoolText(v.force) + [':'] + v4;
      var u2, v2 := DebugOid(u.newOid) + [':'] + u3, DebugOid(v.newOid) + [':'] + v3;
      var u1, v1 := DebugOid(u.expectedOld) + [':'] + u2, DebugOid(v.expectedOld) + [':'] + v2;
      CidTextCancel(u.repo, u.refName + [':'] + u1, v.repo, v.refName + [':'] + v1);
      SeparatorCancel(u.refName, u1, v.refName, v1, ':');
      DebugOidLacks(u.expectedOld, ':');
      DebugOidLacks(v.expectedOld, ':');
      SeparatorCancel(DebugOid(u.expectedOld), u2, DebugOid(v.expectedOld), v2, ':');
      DebugOidLacks(u.newOid, ':');
      DebugOidLacks(v.newOid, ':');
      SeparatorCancel(DebugOid(u.newOid), u3, DebugOid(v.newOid), v3, ':');
      SeparatorCancel(BoolText(u.force), u4, BoolText(v.force), v4, ':');
      SeparatorCancel(Dec(u.policyEpoch), u.signer, Dec(v.policyEpoch), v.signer, ':');
      DebugOidInjective(u.expectedOld, v.expectedOld);
      DebugOidInjective(u.newOid, v.newOid);
      DecInjective(u.policyEpoch, v.policyEpoch);
    }
  }

  // --------------------------------------------------------- transcripts

  function OptionalOidText(oid: Option<Oid>): string {
    match oid
    case None => "none"
    case Some(o) => Hex(o)
  }

  function OptionalCidText(cid: Option<Cid>): string {
    match cid
    case None => "none"
    case Some(c) => CidText(c)
  }

  function BoolByte(b: bool): byte { if b then 1 else 0 }

  function RefEntries(refs: map<string, Oid>, names: seq<string>): Bytes
    requires forall n :: n in names ==> n in refs
  {
    if names == [] then []
    else TextField(names[0]) + (TextField(Hex(refs[names[0]])) + RefEntries(refs, names[1..]))
  }

  /** The bytes `compute_refs_root` hashes, in the order of a `BTreeMap`. */
  function RefsTranscript(refs: map<string, Oid>): Bytes {
    Ascii("gitmesh.v0.refs-root") + RefsBody(refs)
  }

  function RefsBody(refs: map<string, Oid>): Bytes {
    Be(|refs|, 8) + RefEntries(refs, SortedStrings(refs.Keys))
  }

  function HistoryTranscript(previous: Option<Cid>, m: Mutation): Bytes {
    Ascii("gitmesh.v0.ref-history-root") + (TextField(OptionalCidText(previous)) + (Be(m.sequence, 8) +
      (TextField(m.fingerprint) + (TextField(m.tx) + (TextField(m.refName) +
      (TextField(OptionalOidText(m.oldOid)) + (TextField(OptionalOidText(m.newOid)) +
      ([BoolByte(m.force)] + TextField(m.signer)))))))))
  }

  function CheckpointTranscript(sequence: u64, parent: Option<Cid>, refsRoot: Cid, historyRoot: Cid): Bytes {
    Ascii("gitmesh.v0.ref-checkpoint") + CheckpointFields(sequence, parent, refsRoot, historyRoot)
  }

  function CheckpointFields(sequence: u64, parent: Option<Cid>, refsRoot: Cid, historyRoot: Cid): Bytes {
    Be(sequence, 8) + (TextField(OptionalCidText(parent)) +
      (TextField(Hex(refsRoot.digest)) + TextField(Hex(historyRoot.digest))))
  }

  function RefsRoot(hash: Hash, refs: map<string, Oid>): Cid {
    NewCid(hash, ProtocolObject, RefsTranscript(refs))
  }

  function HistoryRoot(hash: Hash, previous: Option<Cid>, m: Mutation): Cid {
    NewCid(hash, ProtocolObject, HistoryTranscript(previous, m))
  }

  function CheckpointCid(hash: Hash, sequence: u64, parent: Option<Cid>, refsRoot: Cid, historyRoot: Cid): Cid {
    NewCid(hash, ProtocolObject, CheckpointTranscript(sequence, parent, refsRoot, historyRoot))
  }

  predicate RepresentableMutation(m: Mutation) {
    Representable(m.fingerprint) && Representable(m.tx) && Representable(m.refName) && Representable(m.signer)
  }

  lemma OptionalTextShort(oid: Option<Oid>, cid: Option<Cid>)
    ensures Representable(OptionalOidText(oid)) && Representable(OptionalCidText(cid))
  {
    if cid.Some? { CidTextShort(cid.value); }
  }

  lemma OptionalOidTextInjective(a: Option<Oid>, b: Option<Oid>)
    requires OptionalOidText(a) == OptionalOidText(b)
    ensures a == b
  {
    if a.Some? && b.Some? { HexInjective(a.value, b.value); }
  }

  lemma OptionalCidTextInjective(a: Option<Cid>, b: Option<Cid>)
    requires OptionalCidText(a) == OptionalCidText(b)
    ensures a == b
  {
    if a.Some? {
      CidTextUnfold(a.value);
      assert CidText(a.value)[0] == 'g';
    }
    if b.Some? {
      CidTextUnfold(b.value);
      assert CidText(b.value)[0] == 'g';
    }
    if a.Some? && b.Some? { CidTextInjective(a.value, b.value); }
  }

  /** The tail of a history transcript, after the sequence number. */
  function MutationFields(m: Mutation): Bytes {
    TextField(m.fingerprint) + (TextField(m.tx) + (TextField(m.refName) +
      (TextField(OptionalOidText(m.oldOid)) + (TextField(OptionalOidText(m.newOid)) +
      ([BoolByte(m.force)] + TextField(m.signer))))))
  }

  lemma MutationFieldsInjective(m: Mutation, n: Mutation)
    requires RepresentableMutation(m) && RepresentableMutation(n)
    requires MutationFields(m) == MutationFields(n)
    ensures m.(sequence := n.sequence) == n
  {
    OptionalTextShort(m.oldOid, None);
    OptionalTextShort(n.oldOid, None);
    OptionalTextShort(m.newOid, None);
    OptionalTextShort(n.newOid, None);
    var m5, n5 := [BoolByte(m.force)] + TextField(m.signer), [BoolByte(n.force)] + TextField(n.signer);
    var m4, n4 := TextField(OptionalOidText(m.newOid)) + m5, TextField(OptionalOidText(n.newOid)) + n5;
    var m3, n3 := TextField(OptionalOidText(m.oldOid)) + m4, TextField(OptionalOidText(n.oldOid)) + n4;
    var m2, n2 := TextField(m.refName) + m3, TextField(n.refName) + n3;
    var m1, n1 := TextField(m.tx) + m2, TextField(n.tx) + n2;
    TextFieldCancel(m.fingerprint, m1, n.fingerprint, n1);
    TextFieldCancel(m.tx, m2, n.tx, n2);
    TextFieldCancel(m.refName, m3, n.refName, n3);
    TextFieldCancel(OptionalOidText(m.oldOid), m4, OptionalOidText(n.oldOid), n4);
    TextFieldCancel(OptionalOidText(m.newOid), m5, OptionalOidText(n.newOid), n5);
    ConcatCancel([BoolByte(m.force)], TextField(m.signer), [BoolByte(n.force)], TextField(n.signer));
    assert TextField(m.signer) + [] == TextField(m.signer) && TextField(n.signer) + [] == TextField(n.signer);
    TextFieldCancel(m.signer, [], n.signer, []);
    OptionalOidTextInjective(m.oldOid, n.oldOid);
    OptionalOidTextInjective(m.newOid, n.newOid);
    assert [BoolByte(m.force)][0] == [BoolByte(n.force)][0];
  }

  /** A history transcript pins the previous history root and the whole mutation. */
  lemma HistoryTranscriptInjective(p: Option<Cid>, m: Mutation, q: Option<Cid>, n: Mutation)
    requires RepresentableMutation(m) && RepresentableMutation(n)
    requires HistoryTranscript(p, m) == HistoryTranscript(q, n)
    ensures p == q && m == n
  {
    var x, y := Be(m.sequence, 8) + MutationFields(m), Be(n.sequence, 8) + MutationFields(n);
    LeadCancel(Ascii("gitmesh.v0.ref-history-root"),
               TextField(OptionalCidText(p)) + x, TextField(OptionalCidText(q)) + y);
    OptionalTextShort(None, p);
    OptionalTextShort(None, q);
    TextFieldCancel(OptionalCidText(p), x, OptionalCidText(q), y);
    OptionalCidTextInjective(p, q);
    ConcatCancel(Be(m.sequence, 8), MutationFields(m), Be(n.sequence, 8), MutationFields(n));
    U64BeInjective(m.sequence, n.sequence);
    MutationFieldsInjective(m, n);
  }

  lemma CheckpointFieldsInjective(
      s: u64, p: Option<Cid>, r: Cid, h: Cid,
      t: u64, q: Option<Cid>, r': Cid, h': Cid)
    requires CheckpointFields(s, p, r, h) == CheckpointFields(t, q, r', h')
    ensures s == t && p == q && r.digest == r'.digest && h.digest == h'.digest
  {
    var x1, y1 := TextField(Hex(r.digest)) + TextField(Hex(h.digest)),
                  TextField(Hex(r'.digest)) + TextField(Hex(h'.digest));
    ConcatCancel(Be(s, 8), TextField(OptionalCidText(p)) + x1, Be(t, 8), TextField(OptionalCidText(q)) + y1);
    U64BeInjective(s, t);
    OptionalTextShort(None, p);
    OptionalTextShort(None, q);
    TextFieldCancel(OptionalCidText(p), x1, OptionalCidText(q), y1);
    OptionalCidTextInjective(p, q);
    TextFieldCancel(Hex(r.digest), TextField(Hex(h.digest)), Hex(r'.digest), TextField(Hex(h'.digest)));
    assert TextField(Hex(h.digest)) + [] == TextField(Hex(h.digest));
    assert TextField(Hex(h'.digest)) + [] == TextField(Hex(h'.digest));
    TextFieldCancel(Hex(h.digest), [], Hex(h'.digest), []);
    HexInjective(r.digest, r'.digest);
    HexInjective(h.digest, h'.digest);
  }

  /** A checkpoint transcript pins its sequence number, parent and both root digests. */
  lemma CheckpointTranscriptInjective(
      s: u64, p: Option<Cid>, r: Cid, h: Cid,
      t: u64, q: Option<Cid>, r': Cid, h': Cid)
    requires CheckpointTranscript(s, p, r, h) == CheckpointTranscript(t, q, r', h')
    ensures s == t && p == q && r.digest == r'.digest && h.digest == h'.digest
  {
    LeadCancel(Ascii("gitmesh.v0.ref-checkpoint"), CheckpointFields(s, p, r, h), CheckpointFields(t, q, r', h'));
    CheckpointFieldsInjective(s, p, r, h, t, q, r', h');
  }

  lemma {:induction false} RefEntriesInjective(a: map<string, Oid>, names: seq<string>, b: map<string, Oid>, names': seq<string>)
    requires forall n :: n in names ==> n in a && Representable(n)
    requires forall n :: n in names' ==> n in b && Representable(n)
    requires RefEntries(a, names) == RefEntries(b, names')
    ensures names == names'
    ensures forall n :: n in names ==> a[n] == b[n]
  {
    if names != [] && names' != [] {
      var n, n' := names[0], names'[0];
      TextFieldCancel(n, TextField(Hex(a[n])) + RefEntries(a, names[1..]),
                      n', TextField(Hex(b[n'])) + RefEntries(b, names'[1..]));
      TextFieldCancel(Hex(a[n]), RefEntries(a, names[1..]), Hex(b[n']), RefEntries(b, names'[1..]));
      HexInjective(a[n], b[n']);
      RefEntriesInjective(a, names[1..], b, names'[1..]);
      assert names == [n] + names[1..] && names' == [n'] + names'[1..];
    }
  }

  lemma RefsBodyInjective(a: map<string, Oid>, na: seq<string>, b: map<string, Oid>, nb: seq<string>)
    requires forall n :: n in a || n in b ==> Representable(n)
    requires forall n :: n in na <==> n in a
    requires forall n :: n in nb <==> n in b
    requires Be(|a|, 8) + RefEntries(a, na) == Be(|b|, 8) + RefEntries(b, nb)
    ensures a == b
  {
    ConcatCancel(Be(|a|, 8), RefEntries(a, na), Be(|b|, 8), RefEntries(b, nb));
    RefEntriesInjective(a, na, b, nb);
  }

  /** A refs root pins the whole ref map. */
  lemma RefsRootInjective(hash: Hash, a: map<string, Oid>, b: map<string, Oid>)
    requires forall n :: n in a || n in b ==> Representable(n)
    requires CollisionFree(hash, {CidTranscript(ProtocolObject, RefsTranscript(a)), CidTranscript(ProtocolObject, RefsTranscript(b))})
    requires RefsRoot(hash, a) == RefsRoot(hash, b)
    ensures a == b
  {
    NewCidInjective(hash, ProtocolObject, RefsTranscript(a), ProtocolObject, RefsTranscript(b));
    LeadCancel(Ascii("gitmesh.v0.refs-root"), RefsBody(a), RefsBody(b));
    RefsBodyInjective(a, SortedStrings(a.Keys), b, SortedStrings(b.Keys));
  }

  lemma {:induction false} RefEntriesPrefixFree(a: map<string, Oid>, na: seq<string>, x: Bytes, b: map<string, Oid>, nb: seq<string>, y: Bytes)
    requires forall n :: n in na ==> n in a && Representable(n)
    requires forall n :: n in nb ==> n in b && Representable(n)
    requires |na| == |nb| && RefEntries(a, na) + x == RefEntries(b, nb) + y
    ensures na == nb && x == y && forall n :: n in na ==> a[n] == b[n]
  {
    hide TextField, Hex, Representable;
    if na == [] {
      assert RefEntries(a, na) + x == x && RefEntries(b, nb) + y == y;
    } else {
      var n, m := na[0], nb[0];
      var s, t := RefEntries(a, na[1..]) + x, RefEntries(b, nb[1..]) + y;
      assert RefEntries(a, na) + x == TextField(n) + (TextField(Hex(a[n])) + s);
      assert RefEntries(b, nb) + y == TextField(m) + (TextField(Hex(b[m])) + t);
      TextFieldCancel(n, TextField(Hex(a[n])) + s, m, TextField(Hex(b[m])) + t);
      ShortRepresentable(Hex(a[n]));
      ShortRepresentable(Hex(b[m]));
      TextFieldCancel(Hex(a[n]), s, Hex(b[m]), t);
      HexInjective(a[n], b[m]);
      RefEntriesPrefixFree(a, na[1..], x, b, nb[1..], y);
      assert na == [n] + na[1..] && nb == [m] + nb[1..];
    }
  }

  /** The refs transcript says where it ends: whatever follows it, it determines the
      whole ref map, which is what its leading count is for. */
  lemma RefsTranscriptPrefixFree(a: map<string, Oid>, x: Bytes, b: map<string, Oid>, y: Bytes)
    requires forall n :: n in a || n in b ==> Representable(n)
    requires |a| < TWO_TO_64 && |b| < TWO_TO_64
    requires RefsTranscript(a) + x == RefsTranscript(b) + y
    ensures a == b && x == y
  {
    hide Be, RefEntries, Ascii, Representable, SortedStrings;
    var na, nb := SortedStrings(a.Keys), SortedStrings(b.Keys);
    var s, t := RefEntries(a, na) + x, RefEntries(b, nb) + y;
    assert RefsTranscript(a) + x == Ascii("gitmesh.v0.refs-root") + (Be(|a|, 8) + s);
    assert RefsTranscript(b) + y == Ascii("gitmesh.v0.refs-root") + (Be(|b|, 8) + t);
    LeadCancel(Ascii("gitmesh.v0.refs-root"), Be(|a|, 8) + s, Be(|b|, 8) + t);
    ConcatCancel(Be(|a|, 8), s, Be(|b|, 8), t);
    U64BeInjective(|a|, |b|);
    RefEntriesPrefixFree(a, na, x, b, nb, y);
    assert forall n :: n in a <==> n in na;
    assert forall n :: n in b <==> n in nb;
    assert a == b;
  }
}
