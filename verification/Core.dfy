/** gitmesh-core: content identifiers, their hash transcripts and their text form. */
module Core {
  import opened Prelude
  import opened Text

  type Digest32 = d: Bytes | |d| == 32 witness seq(32, _ => 0)
  type Hash = Bytes -> Digest32

  datatype CidKind = ProtocolObject | PlainSegment | EncryptedSegment | ShardKind {
    function Code(): nat {
      match this
      case ProtocolObject => 1
      case PlainSegment => 2
      case EncryptedSegment => 3
      case ShardKind => 4
    }

    function Label(): string {
      match this
      case ProtocolObject => "ProtocolObject"
      case PlainSegment => "PlainSegment"
      case EncryptedSegment => "EncryptedSegment"
      case ShardKind => "Shard"
    }
  }

  /** The hash algorithm field has one possible value, so it is not carried. */
  datatype Cid = Cid(kind: CidKind, digest: Digest32)

  // ---------------------------------------------------------- transcripts

  function CidTranscript(kind: CidKind, payload: Bytes): Bytes {
    Ascii("gitmesh.v0.cid") + (Be(kind.Code(), 2) + (Be(1, 2) + (Be(|payload|, 8) + payload)))
  }

  function NewCid(hash: Hash, kind: CidKind, payload: Bytes): Cid {
    Cid(kind, hash(CidTranscript(kind, payload)))
  }

  function ShardTranscript(segment: Cid, index: nat, bytes: Bytes): Bytes {
    Ascii("gitmesh.v0.shard") + (segment.digest + (Be(index, 8) + (Be(|bytes|, 8) + bytes)))
  }

  function ShardCid(hash: Hash, segment: Cid, index: nat, bytes: Bytes): Cid {
    NewCid(hash, ShardKind, ShardTranscript(segment, index, bytes))
  }

  function SegmentCid(hash: Hash, ciphertext: Bytes): Cid {
    NewCid(hash, EncryptedSegment, ciphertext)
  }

  /** No two different transcripts of `ts` have the same hash. */
  ghost predicate CollisionFree(hash: Hash, ts: set<Bytes>) {
    forall a, b :: a in ts && b in ts && hash(a) == hash(b) ==> a == b
  }

  /** A fixed leading part cancels. */
  lemma LeadCancel(d: Bytes, x: Bytes, y: Bytes)
    requires d + x == d + y
    ensures x == y
  {
    ConcatCancel(d, x, d, y);
  }

  lemma KindCancel(d: Bytes, m: byte, alg: Bytes, p: Bytes, n: byte, q: Bytes)
    requires d + (Be(m, 2) + (alg + p)) == d + (Be(n, 2) + (alg + q))
    ensures m == n && p == q
  {
    LeadCancel(d, Be(m, 2) + (alg + p), Be(n, 2) + (alg + q));
    ConcatCancel(Be(m, 2), alg + p, Be(n, 2), alg + q);
    LeadCancel(alg, p, q);
    assert Be(m, 2)[1] == m && Be(n, 2)[1] == n;
  }

  lemma CidTranscriptInjective(k: CidKind, x: Bytes, l: CidKind, y: Bytes)
    requires CidTranscript(k, x) == CidTranscript(l, y)
    ensures k == l && x == y
  {
    var p, q := Be(|x|, 8) + x, Be(|y|, 8) + y;
    KindCancel(Ascii("gitmesh.v0.cid"), k.Code(), Be(1, 2), p, l.Code(), q);
    ConcatCancel(Be(|x|, 8), x, Be(|y|, 8), y);
  }

  /** Equal identifiers have equal payloads, unless their transcripts collide. */
  lemma NewCidInjective(hash: Hash, k: CidKind, x: Bytes, l: CidKind, y: Bytes)
    requires CollisionFree(hash, {CidTranscript(k, x), CidTranscript(l, y)})
    requires NewCid(hash, k, x) == NewCid(hash, l, y)
    ensures k == l && x == y
  {
    CidTranscriptInjective(k, x, l, y);
  }

  /** A shard identifier pins the segment digest, the index and the bytes. */
  lemma ShardTranscriptInjective(s: Cid, i: u64, x: Bytes, t: Cid, j: u64, y: Bytes)
    requires ShardTranscript(s, i, x) == ShardTranscript(t, j, y)
    ensures s.digest == t.digest && i == j && x == y
  {
    var p, q := Be(|x|, 8) + x, Be(|y|, 8) + y;
    LeadCancel(Ascii("gitmesh.v0.shard"), s.digest + (Be(i, 8) + p), t.digest + (Be(j, 8) + q));
    ConcatCancel(s.digest, Be(i, 8) + p, t.digest, Be(j, 8) + q);
    ConcatCancel(Be(i, 8), p, Be(j, 8), q);
    ConcatCancel(Be(|x|, 8), x, Be(|y|, 8), y);
    U64BeInjective(i, j);
  }

  // ------------------------------------------------------------------ hex

  function HexChar(n: nat): (c: char)
    requires n < 16
  {
    if n < 10 then ('0' as int + n) as char else ('a' as int + n - 10) as char
  }

  function HexNibble(c: char): Option<nat> {
    if '0' <= c <= '9' then Some(c as int - '0' as int)
    else if 'a' <= c <= 'f' then Some(c as int - 'a' as int + 10)
    else if 'A' <= c <= 'F' then Some(c as int - 'A' as int + 10)
    else None
  }

  predicate IsLowerHex(c: char) { '0' <= c <= '9' || 'a' <= c <= 'f' }

  /** Lower-case hexadecimal, two digits a byte. */
  function Hex(b: Bytes): (s: string)
    ensures |s| == 2 * |b|
    ensures forall c :: c in s ==> IsLowerHex(c)
  {
    if b == [] then [] else [HexChar(b[0] / 16), HexChar(b[0] % 16)] + Hex(b[1..])
  }

  /** Either case is read; an odd length or another character is refused. */
  function DecodeHex(s: string): (r: Option<Bytes>)
    ensures r.Some? ==> |s| == 2 * |r.value|
  {
    if s == [] then Some([])
    else if |s| == 1 then None
    else
      match (HexNibble(s[0]), HexNibble(s[1]), DecodeHex(s[2..]))
      case (Some(high), Some(low), Some(rest)) => Some([high * 16 + low] + rest)
      case _ => None
  }

  lemma {:induction false} DecodeHexOfHex(b: Bytes)
    ensures DecodeHex(Hex(b)) == Some(b)
  {
    if b != [] {
      DecodeHexOfHex(b[1..]);
      assert Hex(b)[2..] == Hex(b[1..]);
      assert b == [b[0]] + b[1..];
    }
  }

  lemma HexInjective(a: Bytes, b: Bytes)
    requires Hex(a) == Hex(b)
    ensures a == b
  {
    DecodeHexOfHex(a);
    DecodeHexOfHex(b);
  }

  function Lowered(s: string): (r: string)
    ensures |r| == |s|
  {
    seq(|s|, i requires 0 <= i < |s| => if 'A' <= s[i] <= 'F' then (s[i] as int + 32) as char else s[i])
  }

  lemma NibbleExact(c: char, n: nat)
    requires n < 16
    ensures HexNibble(c) == Some(n) <==> (if 'A' <= c <= 'F' then (c as int + 32) as char else c) == HexChar(n)
  {
  }

  /** A text is read exactly as the bytes whose hexadecimal form it is, up to case. */
  lemma {:induction false} DecodeHexExact(s: string, b: Bytes)
    ensures DecodeHex(s) == Some(b) <==> Lowered(s) == Hex(b)
    decreases |s|
  {
    hide HexNibble, HexChar;
    if |s| >= 2 && b != [] {
      var l, h := Lowered(s), Hex(b);
      DecodeHexExact(s[2..], b[1..]);
      NibbleExact(s[0], b[0] / 16);
      NibbleExact(s[1], b[0] % 16);
      NibbleRange(s[0]);
      NibbleRange(s[1]);
      assert l == [l[0], l[1]] + l[2..] && l[2..] == Lowered(s[2..]);
      assert h == [h[0], h[1]] + h[2..] && h[2..] == Hex(b[1..]);
      assert l == h <==> l[0] == h[0] && l[1] == h[1] && l[2..] == h[2..];
      assert b == [b[0]] + b[1..];
    }
  }

  lemma NibbleRange(c: char)
    ensures HexNibble(c).Some? ==> HexNibble(c).value < 16
  {
  }

  // ------------------------------------------------------- text of a Cid

  /** `Display`: `gitmesh:v0:<kind>:Blake3_256:<hex digest>`. */
  function CidFields(cid: Cid): seq<string> {
    ["gitmesh", "v0", cid.kind.Label(), "Blake3_256", Hex(cid.digest)]
  }

  function CidText(cid: Cid): string {
    Join(CidFields(cid), ':')
  }

  function ParseKind(name: string): Option<CidKind> {
    if name == "ProtocolObject" then Some(ProtocolObject)
    else if name == "PlainSegment" then Some(PlainSegment)
    else if name == "EncryptedSegment" then Some(EncryptedSegment)
    else if name == "Shard" then Some(ShardKind)
    else None
  }

  /** `FromStr`. */
  function ParseCid(text: string): Option<Cid> {
    var parts := Split(text, ':');
    if |parts| != 5 || parts[0] != "gitmesh" then None
    else if parts[1] == [] || parts[1][0] != 'v' then None
    else if ParseUnsigned(parts[1][1..], TWO_TO_32) != Some(0) then None
    else if parts[3] != "Blake3_256" then None
    else
      match (ParseKind(parts[2]), DecodeHex(parts[4]))
      case (Some(kind), Some(digest)) => if |digest| == 32 then Some(Cid(kind, digest)) else None
      case _ => None
  }

  lemma CidFieldsLack(cid: Cid, x: char)
    requires x in ":\t\n\r"
    ensures forall f :: f in CidFields(cid) ==> x !in f
  {
    assert forall c :: c in Hex(cid.digest) ==> IsLowerHex(c);
    forall f | f in CidFields(cid)
      ensures x !in f
    {
    }
  }

  lemma CidTextLacks(cid: Cid, x: char)
    requires x in "\t\n\r"
    ensures x !in CidText(cid)
  {
    CidFieldsLack(cid, x);
    JoinLacks(CidFields(cid), ':', x);
  }

  /** Reading the text of an identifier gives the identifier back. */
  lemma ParseCidOfText(cid: Cid)
    ensures ParseCid(CidText(cid)) == Some(cid)
  {
    CidFieldsLack(cid, ':');
    SplitJoin(CidFields(cid), ':');
    assert "v0"[1..] == Dec(0);
    ParseUnsignedOfDec(0, TWO_TO_32);
    DecodeHexOfHex(cid.digest);
  }

  lemma CidTextInjective(a: Cid, b: Cid)
    requires CidText(a) == CidText(b)
    ensures a == b
  {
    ParseCidOfText(a);
    ParseCidOfText(b);
  }

  lemma CidTextUnfold(cid: Cid)
    ensures CidText(cid) == "gitmesh" + [':'] + ("v0" + [':'] + (cid.kind.Label() + [':'] +
                            ("Blake3_256" + [':'] + Hex(cid.digest))))
  {
    var f := CidFields(cid);
    assert f[1..][0] == "v0" && f[1..][1..][0] == cid.kind.Label();
    assert f[1..][1..][1..] == ["Blake3_256", Hex(cid.digest)];
    assert f[1..][1..][1..][1..] == [Hex(cid.digest)];
    assert Join([Hex(cid.digest)], ':') == Hex(cid.digest);
    assert Join(f[1..][1..][1..], ':') == "Blake3_256" + [':'] + Hex(cid.digest);
    assert Join(f[1..][1..], ':') == cid.kind.Label() + [':'] + ("Blake3_256" + [':'] + Hex(cid.digest));
    assert Join(f[1..], ':') == "v0" + [':'] + (cid.kind.Label() + [':'] + ("Blake3_256" + [':'] + Hex(cid.digest)));
  }

  lemma CidTextShort(cid: Cid)
    ensures |CidText(cid)| <= 128
  {
    CidTextUnfold(cid);
  }

  lemma CidFieldCancel(a: Cid, x: Bytes, b: Cid, y: Bytes)
    requires TextField(CidText(a)) + x == TextField(CidText(b)) + y
    ensures a == b && x == y
  {
    hide TextField, CidText, Representable;
    CidTextShort(a);
    CidTextShort(b);
    ShortRepresentable(CidText(a));
    ShortRepresentable(CidText(b));
    TextFieldCancel(CidText(a), x, CidText(b), y);
    CidTextInjective(a, b);
  }
}
