/** The text snapshot of the availability directory. */
module DirectorySnapshot {
  import opened Prelude
  import opened Text
  import opened Core
  import opened Ordering
  import opened Network
  import opened Directory

  const HEADER := "gitmesh-availability-directory-v0"

  // ----------------------------------------------------------- printing

  function RecordFields(r: ProviderRecord): (f: seq<string>)
    ensures |f| == 9
  {
    [CidText(r.shard.segmentCid), CidText(r.shard.shardCid), Dec(r.shard.shardIndex), r.peerId, r.operatorId, r.region,
     FormatRoles(r.roles), Dec(r.leaseEpoch), Dec(r.expiresAt)]
  }

  function EvidenceFields(e: Evidence): (f: seq<string>)
    ensures |f| == 5
  {
    [Hex(Utf8(e.certificate.name)), Hex(e.certificate.accountKey), Hex(e.certificate.deviceKey),
     Hex(e.certificate.signature), Hex(e.signature)]
  }

  function EntryFields(e: Entry): seq<string> {
    match e.evidence
    case None => ["provider"] + RecordFields(e.provider)
    case Some(evidence) => ["signed-provider"] + RecordFields(e.provider) + EvidenceFields(evidence)
  }

  function EntryLine(e: Entry): string {
    Join(EntryFields(e), '\t')
  }

  function EntryLines(entries: seq<Entry>): seq<string> {
    if entries == [] then [] else [EntryLine(entries[0])] + EntryLines(entries[1..])
  }

  function SegmentLines(d: Records, segments: seq<Cid>): seq<string>
    requires forall s :: s in segments ==> s in d
  {
    if segments == [] then [] else EntryLines(d[segments[0]]) + SegmentLines(d, segments[1..])
  }

  /** `to_snapshot`, for any order of identifiers. */
  function Save(le: (Cid, Cid) -> bool, d: Records): string
    requires TotalOrder(le)
  {
    Unlines([HEADER] + SegmentLines(d, Sorted(d.Keys, le)))
  }

  // ------------------------------------------------------------ parsing

  function OrInvalid<T>(o: Option<T>): Result<T, NetworkError> {
    match o
    case Some(v) => Ok(v)
    case None => Err(InvalidAvailabilityDirectory)
  }

  function DecodeFixed(text: string, length: nat): (r: Result<Bytes, NetworkError>)
    ensures r.Ok? ==> |r.value| == length
  {
    match DecodeHex(text)
    case Some(b) => if |b| == length then Ok(b) else Err(InvalidAvailabilityDirectory)
    case None => Err(InvalidAvailabilityDirectory)
  }

  function DecodeText(text: string): Result<string, NetworkError> {
    var b :- OrInvalid(DecodeHex(text));
    OrInvalid(DecodeUtf8(b))
  }

  function ReadRecord(f: seq<string>): Result<ProviderRecord, NetworkError>
    requires |f| == 9
  {
    var segment :- OrInvalid(ParseCid(f[0]));
    var shard :- OrInvalid(ParseCid(f[1]));
    var index :- OrInvalid(ParseUnsigned(f[2], TWO_TO_64));
    var peer :- NewPeerId(f[3]);
    var operator :- NewOperatorId(f[4]);
    var roles :- ParseRoles(f[6]);
    var epoch :- OrInvalid(ParseUnsigned(f[7], TWO_TO_64));
    var expires :- OrInvalid(ParseUnsigned(f[8], TWO_TO_64));
    NewProviderRecord(ShardRef(segment, shard, index), peer, operator, f[5], roles, epoch, expires)
  }

  function ReadEvidence(id: Identity, f: seq<string>): Result<Evidence, NetworkError>
    requires |f| == 5
  {
    var name :- DecodeText(f[0]);
    var account :- DecodeFixed(f[1], 32);
    var device :- DecodeFixed(f[2], 32);
    var signature :- DecodeFixed(f[3], 64);
    var certificate :- id.FromKeyBytes(name, account, device, signature);
    var own :- DecodeFixed(f[4], 64);
    Ok(Evidence(certificate, own))
  }

  function ReadFields(id: Identity, d: Records, parts: seq<string>): Result<Records, NetworkError> {
    if |parts| == 10 && parts[0] == "provider" then
      var r :- ReadRecord(parts[1..10]);
      Published(id, d, Unsigned(r))
    else if |parts| == 15 && parts[0] == "signed-provider" then
      var r :- ReadRecord(parts[1..10]);
      var e :- ReadEvidence(id, parts[10..15]);
      if !id.VerifyRecord(r, e) then Err(IdentityRejected)
      else if !Publishable(r) then Err(InvalidProviderRecord)
      else Ok(Put(d, Entry(r, Some(e))))
    else Err(InvalidAvailabilityDirectory)
  }

  function ReadLine(id: Identity, d: Records, line: string): Result<Records, NetworkError> {
    ReadFields(id, d, Split(line, '\t'))
  }

  function ReadLines(id: Identity, d: Records, lines: seq<string>): Result<Records, NetworkError>
    decreases |lines|
  {
    if lines == [] then Ok(d)
    else
      hide ReadLine;
      match ReadLine(id, d, lines[0])
      case Ok(after) => ReadLines(id, after, lines[1..])
      case Err(e) => Err(e)
  }

  function Load(id: Identity, text: string): Result<Records, NetworkError> {
    var lines := Lines(text);
    if lines == [] || lines[0] != HEADER then Err(InvalidAvailabilityDirectory)
    else ReadLines(id, map[], lines[1..])
  }

  /** `from_snapshot`. */
  method FromSnapshot(id: Identity, text: string) returns (r: Result<Records, NetworkError>)
    ensures r == Load(id, text)
  {
    hide Lines, ReadLine;
    var lines := Lines(text);
    if lines == [] || lines[0] != HEADER { return Err(InvalidAvailabilityDirectory); }
    var directory: Records := map[];
    var k := 1;
    while k < |lines|
      invariant 1 <= k <= |lines|
      invariant Load(id, text) == ReadLines(id, directory, lines[k..])
    {
      var after := ReadLine(id, directory, lines[k]);
      if after.Err? { return Err(after.error); }
      assert lines[k..][1..] == lines[k + 1..];
      directory := after.value;
      k := k + 1;
    }
    return Ok(directory);
  }

  // -------------------------------------------------------- fields are plain

  predicate Plain(f: string) {
    '\t' !in f && '\n' !in f && '\r' !in f
  }

  predicate AllPlain(fields: seq<string>) {
    forall f :: f in fields ==> Plain(f)
  }

  lemma PlainTexts(n: nat, b: Bytes, cid: Cid, name: string)
    ensures Plain(Dec(n)) && Plain(Hex(b)) && Plain(CidText(cid))
    ensures AllNameChars(name) ==> Plain(name)
  {
    CidTextLacks(cid, '\t');
    CidTextLacks(cid, '\n');
    CidTextLacks(cid, '\r');
    assert forall c :: c in Dec(n) ==> IsDigit(c);
    assert forall c :: c in Hex(b) ==> IsLowerHex(c);
  }

  lemma RecordFieldsPlain(r: ProviderRecord)
    requires r.WellFormed() && r.roles != {}
    ensures AllPlain(RecordFields(r))
  {
    hide Plain, CidText, FormatRoles, Dec, Hex;
    ParseRolesOfFormat(r.roles);
    PlainRoles(r.roles);
    PlainTexts(r.shard.shardIndex, [], r.shard.segmentCid, r.peerId);
    PlainTexts(r.leaseEpoch, [], r.shard.shardCid, r.operatorId);
    PlainTexts(r.expiresAt, [], r.shard.shardCid, r.region);
    var f := RecordFields(r);
    assert forall i :: 0 <= i < |f| ==> Plain(f[i]);
  }

  lemma PlainRoles(roles: set<Role>)
    requires roles != {}
    ensures Plain(FormatRoles(roles))
  {
    hide FormatRoles;
    ParseRolesOfFormat(roles);
  }

  lemma EvidenceFieldsPlain(e: Evidence)
    ensures AllPlain(EvidenceFields(e))
  {
    hide Plain, Hex, Utf8;
    var c := e.certificate;
    var any := Cid(ProtocolObject, c.accountKey);
    PlainTexts(0, Utf8(c.name), any, []);
    PlainTexts(0, c.accountKey, any, []);
    PlainTexts(0, c.deviceKey, any, []);
    PlainTexts(0, c.signature, any, []);
    PlainTexts(0, e.signature, any, []);
    var f := EvidenceFields(e);
    assert forall i :: 0 <= i < |f| ==> Plain(f[i]);
  }

  /** What every entry of a directory satisfies. */
  predicate Sound(id: Identity, e: Entry) {
    && e.provider.WellFormed() && Publishable(e.provider)
    && (e.evidence.Some? ==> id.VerifyRecord(e.provider, e.evidence.value))
  }

  lemma EntryLineReads(id: Identity, e: Entry)
    requires Sound(id, e)
    ensures Split(EntryLine(e), '\t') == EntryFields(e)
    ensures SingleLine(EntryLine(e))
  {
    hide EntryFields, Sound, AllPlain;
    EntryFieldsPlain(id, e);
    PlainLine(EntryFields(e));
  }

  lemma PlainLine(f: seq<string>)
    requires f != [] && AllPlain(f)
    ensures Split(Join(f, '\t'), '\t') == f && SingleLine(Join(f, '\t'))
  {
    hide Join, Split;
    SplitJoin(f, '\t');
    JoinLacks(f, '\t', '\n');
    JoinLacks(f, '\t', '\r');
  }

  lemma EntryFieldsPlain(id: Identity, e: Entry)
    requires Sound(id, e)
    ensures EntryFields(e) != [] && AllPlain(EntryFields(e))
  {
    hide RecordFields, EvidenceFields, AllPlain, SigningTranscript;
    RecordFieldsPlain(e.provider);
    TagsPlain();
    AppendPlain(["provider"], RecordFields(e.provider));
    AppendPlain(["signed-provider"], RecordFields(e.provider));
    if e.evidence.Some? {
      EvidenceFieldsPlain(e.evidence.value);
      AppendPlain(["signed-provider"] + RecordFields(e.provider), EvidenceFields(e.evidence.value));
    }
  }

  lemma TagsPlain()
    ensures AllPlain(["provider"]) && AllPlain(["signed-provider"])
  {
  }

  lemma AppendPlain(a: seq<string>, b: seq<string>)
    requires AllPlain(a) && AllPlain(b)
    ensures AllPlain(a + b)
  {
    hide Plain;
  }

  // ---------------------------------------------------------- round trips

  lemma ReadRecordOfFields(r: ProviderRecord)
    requires r.WellFormed() && Publishable(r)
    ensures ReadRecord(RecordFields(r)) == Ok(r)
  {
    hide CidText, ParseCid, Dec, ParseUnsigned, FormatRoles, ParseRoles, ValidPeerId, ValidOperatorId, ValidRegion;
    ParseCidOfText(r.shard.segmentCid);
    ParseCidOfText(r.shard.shardCid);
    ParseUnsignedOfDec(r.shard.shardIndex, TWO_TO_64);
    ParseUnsignedOfDec(r.leaseEpoch, TWO_TO_64);
    ParseUnsignedOfDec(r.expiresAt, TWO_TO_64);
    ParseRolesOfFormat(r.roles);
  }

  lemma ReadEvidenceOfFields(id: Identity, e: Evidence)
    requires id.VerifyCertificate(e.certificate)
    ensures ReadEvidence(id, EvidenceFields(e)) == Ok(e)
  {
    hide Hex, DecodeHex, Utf8, DecodeUtf8;
    var c := e.certificate;
    DecodeHexOfHex(Utf8(c.name));
    DecodeUtf8OfUtf8(c.name);
    DecodeHexOfHex(c.accountKey);
    DecodeHexOfHex(c.deviceKey);
    DecodeHexOfHex(c.signature);
    DecodeHexOfHex(e.signature);
  }

  lemma EntryReadsBack(id: Identity, d: Records, e: Entry)
    requires Sound(id, e)
    ensures ReadLine(id, d, EntryLine(e)) == Ok(Put(d, e))
  {
    hide RecordFields, EvidenceFields, ReadRecord, ReadEvidence, EntryLine, Split, SigningTranscript, Put;
    EntryLineReads(id, e);
    ReadRecordOfFields(e.provider);
    var f := EntryFields(e);
    assert f[1..10] == RecordFields(e.provider);
    if e.evidence.Some? {
      ReadEvidenceOfFields(id, e.evidence.value);
      assert f[10..15] == EvidenceFields(e.evidence.value);
    }
  }

  predicate AllSound(id: Identity, s: Cid, entries: seq<Entry>) {
    forall x :: x in entries ==> Sound(id, x) && x.provider.shard.segmentCid == s
  }

  lemma PlaceFresh(done: seq<Entry>, e: Entry, rest: seq<Entry>)
    requires DistinctKeys(done + ([e] + rest))
    ensures Place(done, e) == done + [e]
  {
    var all := done + ([e] + rest);
    assert all[|done|] == e;
    assert forall i :: 0 <= i < |done| ==> all[i] == done[i];
  }

  lemma {:induction false} EntriesReadBack(id: Identity, d: Records, s: Cid, done: seq<Entry>, rest: seq<Entry>)
    requires At(d, s) == done && DistinctKeys(done + rest) && AllSound(id, s, rest)
    ensures ReadLines(id, d, EntryLines(rest)) == Ok(if rest == [] then d else d[s := done + rest])
    decreases |rest|
  {
    hide EntryLine, ReadLine, Sound, Place, DistinctKeys;
    if rest != [] {
      var e, tail := rest[0], rest[1..];
      assert rest == [e] + tail && e in rest;
      EntryReadsBack(id, d, e);
      PlaceFresh(done, e, tail);
      var after := Put(d, e);
      assert after == d[s := done + [e]];
      assert (done + [e]) + tail == done + rest;
      EntriesReadBack(id, after, s, done + [e], tail);
      var lines := EntryLines(rest);
      assert lines[0] == EntryLine(e) && lines[1..] == EntryLines(tail);
      assert tail == [] ==> done + rest == done + [e];
      assert after[s := done + rest] == d[s := done + rest];
    }
  }

  lemma {:induction false} ReadLinesAppend(id: Identity, d: Records, a: seq<string>, b: seq<string>)
    ensures ReadLines(id, d, a).Ok? ==> ReadLines(id, d, a + b) == ReadLines(id, ReadLines(id, d, a).value, b)
    decreases |a|
  {
    hide ReadLine;
    if a == [] {
      assert a + b == b;
    } else {
      assert (a + b)[1..] == a[1..] + b;
      var after := ReadLine(id, d, a[0]);
      if after.Ok? { ReadLinesAppend(id, after.value, a[1..], b); }
    }
  }

  /** What every directory satisfies. */
  predicate Kept(id: Identity, d: Records) {
    Filed(d) && forall s :: s in d ==> AllSound(id, s, d[s])
  }

  function Restricted(d: Records, segments: seq<Cid>): Records
    requires forall s :: s in segments ==> s in d
  {
    map s | s in segments :: d[s]
  }

  lemma RestrictedNone(d: Records, acc: Records)
    ensures acc + Restricted(d, []) == acc
  {
  }

  lemma RestrictedStep(d: Records, acc: Records, s: Cid, tail: seq<Cid>)
    requires s in d && forall t :: t in tail ==> t in d
    requires s !in tail
    ensures acc[s := d[s]] + Restricted(d, tail) == acc + Restricted(d, [s] + tail)
  {
    assert forall t :: t in [s] + tail <==> t == s || t in tail;
  }

  lemma {:induction false} SegmentsReadBack(id: Identity, d: Records, acc: Records, segments: seq<Cid>)
    requires Kept(id, d) && NoRepeats(segments)
    requires forall s :: s in segments ==> s in d && s !in acc
    ensures ReadLines(id, acc, SegmentLines(d, segments)) == Ok(acc + Restricted(d, segments))
    decreases |segments|
  {
    hide ReadLines, EntryLines, AllSound, DistinctKeys, Restricted;
    if segments == [] {
      RestrictedNone(d, acc);
      NoLines(id, acc);
    } else {
      var s, tail := segments[0], segments[1..];
      assert s in segments && s in d;
      assert [] + d[s] == d[s];
      EntriesReadBack(id, acc, s, [], d[s]);
      var after := acc[s := d[s]];
      assert s !in tail;
      SegmentsReadBack(id, d, after, tail);
      ReadLinesAppend(id, acc, EntryLines(d[s]), SegmentLines(d, tail));
      RestrictedStep(d, acc, s, tail);
      assert segments == [s] + tail;
    }
  }

  lemma NoLines(id: Identity, d: Records)
    ensures ReadLines(id, d, []) == Ok(d)
  {
  }

  lemma {:induction false} EntryLinesSingle(id: Identity, s: Cid, entries: seq<Entry>)
    requires AllSound(id, s, entries)
    ensures forall l :: l in EntryLines(entries) ==> SingleLine(l)
  {
    hide Sound, EntryLine;
    if entries != [] {
      assert entries[0] in entries;
      EntryLineReads(id, entries[0]);
      EntryLinesSingle(id, s, entries[1..]);
    }
  }

  lemma {:induction false} SegmentLinesSingle(id: Identity, d: Records, segments: seq<Cid>)
    requires Kept(id, d) && forall s :: s in segments ==> s in d
    ensures forall l :: l in SegmentLines(d, segments) ==> SingleLine(l)
  {
    hide AllSound, SingleLine;
    if segments != [] {
      assert segments[0] in segments;
      EntryLinesSingle(id, segments[0], d[segments[0]]);
      SegmentLinesSingle(id, d, segments[1..]);
    }
  }

  lemma SegmentsSaveAndLoad(id: Identity, d: Records, segments: seq<Cid>)
    requires Kept(id, d) && NoRepeats(segments) && forall s :: s in segments <==> s in d
    ensures Load(id, Unlines([HEADER] + SegmentLines(d, segments))) == Ok(d)
  {
    hide Kept, SegmentLines, ReadLines, Lines, Unlines;
    var body := SegmentLines(d, segments);
    var lines := [HEADER] + body;
    SegmentLinesSingle(id, d, segments);
    assert SingleLine(HEADER);
    LinesUnlines(lines);
    assert lines[1..] == body;
    SegmentsReadBack(id, d, map[], segments);
    assert map[] + Restricted(d, segments) == d;
  }

  /** Reading the snapshot of a directory gives back the directory. */
  lemma SnapshotRoundTrip(id: Identity, le: (Cid, Cid) -> bool, d: Records)
    requires TotalOrder(le) && Kept(id, d)
    ensures Load(id, Save(le, d)) == Ok(d)
  {
    hide Kept, SegmentLines, TotalOrder, Unlines, Load, Sorted;
    SegmentsSaveAndLoad(id, d, Sorted(d.Keys, le));
  }

  // ------------------------------------------------------------- all runs

  predicate WellFormedAttempts(attempts: seq<Attempt>) {
    forall a :: a in attempts ==> a.record.WellFormed()
  }

  lemma {:induction false} AdmittedSound(id: Identity, attempts: seq<Attempt>)
    requires WellFormedAttempts(attempts)
    ensures forall x :: x in Admitted(id, attempts) ==> Sound(id, x)
  {
    hide SigningTranscript;
    if attempts != [] {
      assert attempts[|attempts| - 1] in attempts;
      AdmittedSound(id, attempts[..|attempts| - 1]);
    }
  }

  /** Every directory that publishing and pruning can build survives a save and a load. */
  lemma EveryRunRoundTrips(id: Identity, le: (Cid, Cid) -> bool, attempts: seq<Attempt>, now: nat)
    requires TotalOrder(le) && WellFormedAttempts(attempts)
    ensures Kept(id, Run(id, attempts)) && Kept(id, Pruned(Run(id, attempts), now))
    ensures Load(id, Save(le, Run(id, attempts))) == Ok(Run(id, attempts))
    ensures Load(id, Save(le, Pruned(Run(id, attempts), now))) == Ok(Pruned(Run(id, attempts), now))
  {
    hide Run, Admitted, Sound, TotalOrder, Save, Load;
    var d := Run(id, attempts);
    RunExact(id, attempts);
    AdmittedSound(id, attempts);
    forall s, x | s in d && x in d[s]
      ensures Sound(id, x) && x.provider.shard.segmentCid == s
    {
      assert Holds(d, x);
    }
    PrunedKept(id, d, now);
    SnapshotRoundTrip(id, le, d);
    SnapshotRoundTrip(id, le, Pruned(d, now));
  }

  lemma PrunedKept(id: Identity, d: Records, now: nat)
    requires Kept(id, d)
    ensures Kept(id, Pruned(d, now))
  {
    hide Sound;
    forall s | s in Pruned(d, now)
      ensures DistinctKeys(Pruned(d, now)[s])
    {
      LiveDistinct(d[s], now);
    }
  }

  // ------------------------------------------------- every accepted text

  lemma ReadRecordSound(f: seq<string>)
    requires |f| == 9 && ReadRecord(f).Ok?
    ensures ReadRecord(f).value.WellFormed()
  {
    hide ParseCid, ParseUnsigned, ParseRoles, ValidPeerId, ValidOperatorId, ValidRegion;
    ParseUnsignedBelow(f[2]);
    ParseUnsignedBelow(f[7]);
    ParseUnsignedBelow(f[8]);
  }

  lemma ParseUnsignedBelow(text: string)
    ensures ParseUnsigned(text, TWO_TO_64).Some? ==> ParseUnsigned(text, TWO_TO_64).value < TWO_TO_64
  {
  }

  lemma PutKept(id: Identity, d: Records, e: Entry)
    requires Kept(id, d) && Sound(id, e)
    ensures Kept(id, Put(d, e))
  {
    hide Sound, Put;
    PutHolds(d, e, e);
    forall s, x | s in Put(d, e) && x in Put(d, e)[s]
      ensures Sound(id, x)
    {
      PutHolds(d, e, x);
      assert Holds(Put(d, e), x);
    }
  }

  lemma ReadLineKept(id: Identity, d: Records, line: string)
    requires Kept(id, d) && ReadLine(id, d, line).Ok?
    ensures Kept(id, ReadLine(id, d, line).value)
  {
    hide Split, ReadRecord, ReadEvidence, Kept, Put, SigningTranscript;
    var parts := Split(line, '\t');
    var r := ReadRecord(parts[1..10]).value;
    ReadRecordSound(parts[1..10]);
    if |parts| == 10 {
      PutKept(id, d, Entry(r, None));
    } else {
      PutKept(id, d, Entry(r, Some(ReadEvidence(id, parts[10..15]).value)));
    }
  }

  lemma {:induction false} ReadLinesKept(id: Identity, d: Records, lines: seq<string>)
    requires Kept(id, d) && ReadLines(id, d, lines).Ok?
    ensures Kept(id, ReadLines(id, d, lines).value)
    decreases |lines|
  {
    hide Kept, ReadLine;
    if lines != [] {
      ReadLineKept(id, d, lines[0]);
      ReadLinesKept(id, ReadLine(id, d, lines[0]).value, lines[1..]);
    }
  }

  /** Whatever text is accepted, the directory has one entry for each key, under its
      own segment, every record is well formed with roles and an expiry, every piece
      of evidence verifies, and saving it gives a text that loads to it again. */
  lemma LoadSound(id: Identity, le: (Cid, Cid) -> bool, text: string)
    requires TotalOrder(le) && Load(id, text).Ok?
    ensures Lines(text) != [] && Lines(text)[0] == "gitmesh-availability-directory-v0"
    ensures var d := Load(id, text).value;
            && Filed(d)
            && (forall s, x :: s in d && x in d[s] ==>
                  && x.provider.WellFormed() && x.provider.roles != {} && x.provider.expiresAt > 0
                  && (x.evidence.Some? ==> id.VerifyRecord(x.provider, x.evidence.value)))
            && Load(id, Save(le, d)) == Ok(d)
  {
    hide ReadLines, Lines, Save, TotalOrder, SigningTranscript;
    assert Kept(id, map[]);
    ReadLinesKept(id, map[], Lines(text)[1..]);
    var d := Load(id, text).value;
    SnapshotRoundTrip(id, le, d);
    forall s, x | s in d && x in d[s]
      ensures Sound(id, x)
    {
      assert AllSound(id, s, d[s]);
    }
  }
}
