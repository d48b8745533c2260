/** The text snapshot of a ref store: `save_to_path` prints it, `from_snapshot`
    reads it.  Files are left out; the text is the value. */
module RefSnapshot {
  import opened Prelude
  import opened Core
  import opened Ordering
  import opened GitOid
  import opened RefModel
  import opened RefStores

  datatype CoordinationError = InvalidRefName | InvalidTransactionId | InvalidSnapshot

  const HEADER := "gitmesh-ref-store-v0"

  // ----------------------------------------------------------- printing

  /** `validate_snapshot_field`. */
  predicate SnapshotField(value: string) {
    '\t' !in value && '\n' !in value && '\r' !in value
  }

  function RefFields(name: string, oid: Oid): seq<string> {
    ["ref", name, Hex(oid)]
  }

  function ReceiptFields(tx: string, entry: (string, Receipt)): seq<string> {
    match entry.1
    case Committed(_, name, oldOid, newOid) =>
      ["receipt_committed", tx, entry.0, name, OptionalOidText(oldOid), OptionalOidText(newOid)]
    case Rejected(_, Conflict(expected, actual)) =>
      ["receipt_rejected_conflict", tx, entry.0, OptionalOidText(expected), OptionalOidText(actual)]
    case Rejected(_, IdempotencyViolation) =>
      ["receipt_rejected_idempotency", tx, entry.0]
  }

  function MutationLine(m: Mutation): seq<string> {
    ["mutation", Dec(m.sequence), m.tx, m.fingerprint, m.refName,
     OptionalOidText(m.oldOid), OptionalOidText(m.newOid), BoolText(m.force), m.signer]
  }

  function CheckpointLine(c: Checkpoint): seq<string> {
    ["checkpoint", Dec(c.sequence), OptionalCidText(c.parent),
     CidText(c.refsRoot), CidText(c.historyRoot), CidText(c.checkpointCid)]
  }

  function RefLines(refs: map<string, Oid>, names: seq<string>): seq<seq<string>>
    requires forall n :: n in names ==> n in refs
  {
    if names == [] then [] else [RefFields(names[0], refs[names[0]])] + RefLines(refs, names[1..])
  }

  function ReceiptLines(receipts: map<string, (string, Receipt)>, txs: seq<string>): seq<seq<string>>
    requires forall t :: t in txs ==> t in receipts
  {
    if txs == [] then [] else [ReceiptFields(txs[0], receipts[txs[0]])] + ReceiptLines(receipts, txs[1..])
  }

  function MutationLines(ms: seq<Mutation>): seq<seq<string>> {
    if ms == [] then [] else [MutationLine(ms[0])] + MutationLines(ms[1..])
  }

  function CheckpointLines(cs: seq<Checkpoint>): seq<seq<string>> {
    if cs == [] then [] else [CheckpointLine(cs[0])] + CheckpointLines(cs[1..])
  }

  function StoreLines(s: Store): seq<seq<string>> {
    RefLines(s.refs, SortedStrings(s.refs.Keys)) +
    (ReceiptLines(s.receipts, SortedStrings(s.receipts.Keys)) +
     (MutationLines(s.mutations) + CheckpointLines(s.checkpoints)))
  }

  function TabJoined(lines: seq<seq<string>>): seq<string> {
    if lines == [] then [] else [Join(lines[0], '\t')] + TabJoined(lines[1..])
  }

  /** The fields that saving checks: the rest are safe by construction. */
  predicate Savable(s: Store) {
    && (forall tx :: tx in s.receipts ==> SnapshotField(s.receipts[tx].0))
    && (forall m :: m in s.mutations ==> SnapshotField(m.fingerprint) && SnapshotField(m.signer))
  }

  function Save(s: Store): Result<string, CoordinationError> {
    if Savable(s) then Ok(Unlines([HEADER] + TabJoined(StoreLines(s)))) else Err(InvalidSnapshot)
  }

  // ------------------------------------------------------------ parsing

  function OrInvalid<T>(o: Option<T>): Result<T, CoordinationError> {
    match o
    case Some(v) => Ok(v)
    case None => Err(InvalidSnapshot)
  }

  function NewRefName(value: string): Result<string, CoordinationError> {
    if ValidRefName(value) then Ok(value) else Err(InvalidRefName)
  }

  function NewTransactionId(value: string): Result<string, CoordinationError> {
    if ValidTransactionId(value) then Ok(value) else Err(InvalidTransactionId)
  }

  function ReadField(value: string): Result<string, CoordinationError> {
    if SnapshotField(value) then Ok(value) else Err(InvalidSnapshot)
  }

  function ParseOptionalOid(value: string): Result<Option<Oid>, CoordinationError> {
    if value == "none" then Ok(None)
    else
      match ParseOid(value)
      case Some(oid) => Ok(Some(oid))
      case None => Err(InvalidSnapshot)
  }

  function ParseBool(value: string): Result<bool, CoordinationError> {
    if value == "true" then Ok(true) else if value == "false" then Ok(false) else Err(InvalidSnapshot)
  }

  function ParseU64(value: string): Result<u64, CoordinationError> {
    match ParseUnsigned(value, TWO_TO_64)
    case Some(n) => Ok(n)
    case None => Err(InvalidSnapshot)
  }

  /** `protocol_cid_from_text`: the full text form, or a bare digest. */
  function ParseProtocolCid(value: string): Result<Cid, CoordinationError> {
    if StartsWith(value, "gitmesh:") then
      match ParseCid(value)
      case Some(cid) => if cid.kind == ProtocolObject then Ok(cid) else Err(InvalidSnapshot)
      case None => Err(InvalidSnapshot)
    else if |value| != 64 then Err(InvalidSnapshot)
    else
      match DecodeHex(value)
      case Some(digest) => Ok(Cid(ProtocolObject, digest))
      case None => Err(InvalidSnapshot)
  }

  function ParseOptionalCid(value: string): Result<Option<Cid>, CoordinationError> {
    if value == "none" then Ok(None)
    else
      match ParseProtocolCid(value)
      case Ok(cid) => Ok(Some(cid))
      case Err(e) => Err(e)
  }

  /** `validate_mutation_sequence`. */
  predicate FollowsMutation(ms: seq<Mutation>, m: Mutation) {
    m.sequence == (if ms == [] then 1 else ms[|ms| - 1].sequence + 1)
  }

  /** `validate_checkpoint_chain`. */
  predicate FollowsCheckpoint(hash: Hash, cs: seq<Checkpoint>, c: Checkpoint) {
    && c.sequence == (if cs == [] then 1 else cs[|cs| - 1].sequence + 1)
    && c.parent == LatestCid(cs)
    && c.checkpointCid == CheckpointCid(hash, c.sequence, c.parent, c.refsRoot, c.historyRoot)
  }

  function ReadRef(s: Store, parts: seq<string>): Result<Store, CoordinationError> {
    if |parts| != 3 then Err(InvalidSnapshot)
    else
      var name :- NewRefName(parts[1]);
      var oid :- ParseOptionalOid(parts[2]);
      if oid.None? then Err(InvalidSnapshot) else Ok(s.(refs := s.refs[name := oid.value]))
  }

  function ReadCommitted(s: Store, parts: seq<string>): Result<Store, CoordinationError> {
    if |parts| != 6 then Err(InvalidSnapshot)
    else
      var tx :- NewTransactionId(parts[1]);
      var fingerprint :- ReadField(parts[2]);
      var name :- NewRefName(parts[3]);
      var oldOid :- ParseOptionalOid(parts[4]);
      var newOid :- ParseOptionalOid(parts[5]);
      Ok(s.(receipts := s.receipts[tx := (fingerprint, Committed(tx, name, oldOid, newOid))]))
  }

  function ReadConflict(s: Store, parts: seq<string>): Result<Store, CoordinationError> {
    if |parts| != 5 then Err(InvalidSnapshot)
    else
      var tx :- NewTransactionId(parts[1]);
      var fingerprint :- ReadField(parts[2]);
      var expected :- ParseOptionalOid(parts[3]);
      var actual :- ParseOptionalOid(parts[4]);
      Ok(s.(receipts := s.receipts[tx := (fingerprint, Rejected(tx, Conflict(expected, actual)))]))
  }

  function ReadIdempotency(s: Store, parts: seq<string>): Result<Store, CoordinationError> {
    if |parts| != 3 then Err(InvalidSnapshot)
    else
      var tx :- NewTransactionId(parts[1]);
      var fingerprint :- ReadField(parts[2]);
      Ok(s.(receipts := s.receipts[tx := (fingerprint, Rejected(tx, IdempotencyViolation))]))
  }

  function ReadCheckpoint(hash: Hash, s: Store, parts: seq<string>): Result<Store, CoordinationError> {
    if |parts| != 6 then Err(InvalidSnapshot)
    else
      var sequence :- ParseU64(parts[1]);
      var parent :- ParseOptionalCid(parts[2]);
      var refsRoot :- ParseProtocolCid(parts[3]);
      var historyRoot :- ParseProtocolCid(parts[4]);
      var cid :- ParseProtocolCid(parts[5]);
      var c := Checkpoint(sequence, parent, refsRoot, historyRoot, cid);
      if FollowsCheckpoint(hash, s.checkpoints, c) then Ok(s.(checkpoints := s.checkpoints + [c]))
      else Err(InvalidSnapshot)
  }

  function ReadMutation(s: Store, parts: seq<string>): Result<Store, CoordinationError> {
    if |parts| != 9 then Err(InvalidSnapshot)
    else
      var sequence :- ParseU64(parts[1]);
      var tx :- NewTransactionId(parts[2]);
      var fingerprint :- ReadField(parts[3]);
      var name :- NewRefName(parts[4]);
      var oldOid :- ParseOptionalOid(parts[5]);
      var newOid :- ParseOptionalOid(parts[6]);
      var force :- ParseBool(parts[7]);
      var signer :- ReadField(parts[8]);
      var m := Mutation(sequence, tx, fingerprint, name, oldOid, newOid, force, signer);
      if FollowsMutation(s.mutations, m) then Ok(s.(mutations := s.mutations + [m]))
      else Err(InvalidSnapshot)
  }

  /** One line, already split at its tabs. */
  function ReadFields(hash: Hash, s: Store, parts: seq<string>): Result<Store, CoordinationError>
    requires |parts| >= 1
  {
    if parts[0] == "ref" then ReadRef(s, parts)
    else if parts[0] == "receipt_committed" then ReadCommitted(s, parts)
    else if parts[0] == "receipt_rejected_conflict" then ReadConflict(s, parts)
    else if parts[0] == "receipt_rejected_idempotency" then ReadIdempotency(s, parts)
    else if parts[0] == "checkpoint" then ReadCheckpoint(hash, s, parts)
    else if parts[0] == "mutation" then ReadMutation(s, parts)
    else Err(InvalidSnapshot)
  }

  function ReadLine(hash: Hash, s: Store, line: string): Result<Store, CoordinationError> {
    if IsBlank(line) then Ok(s) else ReadFields(hash, s, Split(line, '\t'))
  }

  function ReadLines(hash: Hash, s: Store, lines: seq<string>): Result<Store, CoordinationError>
    decreases |lines|
  {
    if lines == [] then Ok(s)
    else
      var next :- ReadLine(hash, s, lines[0]);
      ReadLines(hash, next, lines[1..])
  }

  /** `from_snapshot`. */
  function Load(hash: Hash, text: string): Result<Store, CoordinationError> {
    var lines := Lines(text);
    if lines == [] || lines[0] != HEADER then Err(InvalidSnapshot)
    else
      var s :- ReadLines(hash, EMPTY, lines[1..]);
      if Consistent(hash, s) then Ok(s) else Err(InvalidSnapshot)
  }

  /** The loop of `from_snapshot`. */
  method FromSnapshot(hash: Hash, text: string) returns (r: Result<Store, CoordinationError>)
    ensures r == Load(hash, text)
  {
    var lines := Lines(text);
    if lines == [] || lines[0] != HEADER {
      return Err(InvalidSnapshot);
    }
    var s := EMPTY;
    var i := 1;
    while i < |lines|
      invariant 1 <= i <= |lines|
      invariant ReadLines(hash, s, lines[i..]) == ReadLines(hash, EMPTY, lines[1..])
    {
      assert lines[i..][0] == lines[i] && lines[i..][1..] == lines[i + 1..];
      var next := ReadLine(hash, s, lines[i]);
      if next.Err? {
        return Err(next.error);
      }
      s := next.value;
      i := i + 1;
    }
    var ok := ValidateStoreConsistency(hash, s);
    return if ok then Ok(s) else Err(InvalidSnapshot);
  }

  // ------------------------------------- what loading accepts is loadable

  lemma PushCheckpoint(hash: Hash, cs: seq<Checkpoint>, c: Checkpoint)
    requires Chained(hash, cs) && FollowsCheckpoint(hash, cs, c)
    ensures Chained(hash, cs + [c])
  {
    hide CheckpointCid;
    assert forall i :: 0 <= i <= |cs| ==> (cs + [c])[..i] == cs[..i];
    assert cs[..|cs|] == cs;
  }

  lemma ReadLineSound(hash: Hash, s: Store, line: string)
    requires Numbered(s) && Chained(hash, s.checkpoints) && ReceiptsFiled(s)
    requires ReadLine(hash, s, line).Ok?
    ensures var t := ReadLine(hash, s, line).value;
            Numbered(t) && Chained(hash, t.checkpoints) && ReceiptsFiled(t)
  {
    hide Chained, FollowsCheckpoint, ParseProtocolCid, ParseOptionalCid, ParseOptionalOid, ParseU64, NewRefName, NewTransactionId, ReadField, IsBlank, Split;
    var t := ReadLine(hash, s, line).value;
    if t.checkpoints != s.checkpoints {
      PushCheckpoint(hash, s.checkpoints, t.checkpoints[|s.checkpoints|]);
    }
  }

  lemma {:induction false} ReadLinesSound(hash: Hash, s: Store, lines: seq<string>)
    requires Numbered(s) && Chained(hash, s.checkpoints) && ReceiptsFiled(s)
    requires ReadLines(hash, s, lines).Ok?
    ensures var t := ReadLines(hash, s, lines).value;
            Numbered(t) && Chained(hash, t.checkpoints) && ReceiptsFiled(t)
    decreases |lines|
  {
    hide Chained, Numbered, ReceiptsFiled, ReadLine;
    if lines != [] {
      ReadLineSound(hash, s, lines[0]);
      ReadLinesSound(hash, ReadLine(hash, s, lines[0]).value, lines[1..]);
    }
  }

  /** Whatever text is accepted, the store it yields has passed every check that
      tamper evidence relies on. */
  lemma LoadSound(hash: Hash, text: string)
    requires Load(hash, text).Ok?
    ensures Loadable(hash, Load(hash, text).value) && ReceiptsFiled(Load(hash, text).value)
  {
    ReadLinesSound(hash, EMPTY, Lines(text)[1..]);
  }
}
