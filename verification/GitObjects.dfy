/** gitmesh-git: canonical objects, tree payloads and commit links. */
module GitObjects {
  import opened Prelude
  import opened Text
  import opened Core
  import opened GitOid

  datatype Kind = Blob | Tree | Commit | Tag

  datatype GitObject = GitObject(kind: Kind, payload: Bytes)

  datatype GitError =
    | UnknownObjectKind
    | MissingHeaderTerminator
    | MalformedHeader
    | InvalidLength
    | LengthMismatch(declared: nat, actual: nat)
    | InvalidOid
    | MissingCommitTree
    | MalformedTree
    | UnsupportedTreeMode
    | MalformedPack
    | PackChecksumMismatch
    | UnsupportedPackVersion(version: nat)
    | UnsupportedPackObjectType(code: nat)
    | InvalidPackDelta
    | PackObjectDecode
    | PackTrailingBytes
    | PackObjectCountOverflow

  // ------------------------------------------------------ canonical bytes

  function KindBytes(kind: Kind): (b: Bytes)
    ensures b != [] && forall x :: x in b ==> 97 <= x <= 122
  {
    match kind
    case Blob => Ascii("blob")
    case Tree => Ascii("tree")
    case Commit => Ascii("commit")
    case Tag => Ascii("tag")
  }

  function ParseKind(b: Bytes): Result<Kind, GitError> {
    if b == KindBytes(Blob) then Ok(Blob)
    else if b == KindBytes(Tree) then Ok(Tree)
    else if b == KindBytes(Commit) then Ok(Commit)
    else if b == KindBytes(Tag) then Ok(Tag)
    else Err(UnknownObjectKind)
  }

  /** `canonical_object_bytes`: kind, space, decimal length, NUL, payload. */
  function Canonical(o: GitObject): Bytes {
    KindBytes(o.kind) + [32] + (Ascii(Dec(|o.payload|)) + [0] + o.payload)
  }

  predicate DigitByte(b: byte) { 48 <= b <= 57 }

  /** The value of a string of digits. */
  function DigitsValue(b: Bytes): nat
    requires forall x :: x in b ==> DigitByte(x)
  {
    if b == [] then 0
    else
      var last := b[|b| - 1];
      assert DigitByte(last);
      DigitsValue(b[..|b| - 1]) * 10 + (last - 48)
  }

  /** `parse_ascii_usize`: digits without a leading zero, below 2^64. */
  function ParseAsciiUsize(b: Bytes): (r: Result<nat, GitError>)
    ensures r.Ok? ==> r.value < TWO_TO_64
  {
    if b == [] || (|b| > 1 && b[0] == 48) then Err(InvalidLength)
    else if exists x :: x in b && !DigitByte(x) then Err(InvalidLength)
    else if DigitsValue(b) < TWO_TO_64 then Ok(DigitsValue(b))
    else Err(InvalidLength)
  }

  lemma {:induction false} DigitsValuePrefix(b: Bytes, i: nat)
    requires i <= |b| && forall x :: x in b ==> DigitByte(x)
    ensures forall x :: x in b[..i] ==> DigitByte(x)
    ensures DigitsValue(b[..i]) <= DigitsValue(b)
    decreases |b|
  {
    if i < |b| {
      var p := b[..|b| - 1];
      assert DigitByte(b[|b| - 1]);
      assert p[..i] == b[..i];
      DigitsValuePrefix(p, i);
    } else {
      assert b[..i] == b;
    }
  }

  /** The loop of `parse_ascii_usize`, overflow-checked at every digit. */
  method ReadAsciiUsize(b: Bytes) returns (r: Result<nat, GitError>)
    ensures r == ParseAsciiUsize(b)
  {
    if b == [] || (|b| > 1 && b[0] == 48) {
      return Err(InvalidLength);
    }
    var value := 0;
    for i := 0 to |b|
      invariant forall x :: x in b[..i] ==> DigitByte(x)
      invariant value == DigitsValue(b[..i]) < TWO_TO_64
    {
      if !(48 <= b[i] <= 57) {
        assert b[i] in b && !DigitByte(b[i]);
        return Err(InvalidLength);
      }
      assert b[..i + 1] == b[..i] + [b[i]];
      assert b[..i + 1][..i] == b[..i];
      value := value * 10 + (b[i] - 48);
      if value >= TWO_TO_64 {
        if forall x :: x in b ==> DigitByte(x) {
          DigitsValuePrefix(b, i + 1);
        }
        return Err(InvalidLength);
      }
    }
    assert b[..|b|] == b;
    return Ok(value);
  }

  /** `parse_canonical_object`. */
  function ParseCanonical(bytes: Bytes): Result<GitObject, GitError> {
    var nul := IndexOf(bytes, 0);
    if nul == |bytes| then Err(MissingHeaderTerminator)
    else
      var header, payload := bytes[..nul], bytes[nul + 1..];
      var space := IndexOf(header, 32);
      if space == |header| then Err(MalformedHeader)
      else
        var kind :- ParseKind(header[..space]);
        var len :- ParseAsciiUsize(header[space + 1..]);
        if len != |payload| then Err(LengthMismatch(len, |payload|)) else Ok(GitObject(kind, payload))
  }

  lemma AsciiDigits(n: nat)
    ensures Ascii(Dec(n)) != []
    ensures forall x :: x in Ascii(Dec(n)) ==> DigitByte(x)
  {
    hide Dec;
    var d := Dec(n);
    forall i | 0 <= i < |d|
      ensures DigitByte(Ascii(d)[i])
    {
      assert d[i] in d && IsDigit(d[i]);
    }
  }

  lemma DecBytesStep(n: nat)
    ensures n < 10 ==> Ascii(Dec(n)) == [48 + n]
    ensures n >= 10 ==> Ascii(Dec(n)) == Ascii(Dec(n / 10)) + [48 + n % 10]
    ensures |Ascii(Dec(n))| >= 1
  {
  }

  lemma {:induction false} LeadingDigit(b: Bytes)
    requires b != [] && b[0] != 48 && forall x :: x in b ==> DigitByte(x)
    ensures DigitsValue(b) >= 1
  {
    var p := b[..|b| - 1];
    assert DigitByte(b[|b| - 1]);
    if p != [] {
      assert p[0] == b[0];
      LeadingDigit(p);
    }
  }

  lemma {:induction false} DecBytesUnique(b: Bytes, n: nat)
    requires b != [] && (|b| > 1 ==> b[0] != 48)
    requires forall x :: x in b ==> DigitByte(x)
    ensures DigitsValue(b) == n <==> b == Ascii(Dec(n))
    decreases |b|
  {
    hide Ascii, Dec;
    var p, last := b[..|b| - 1], b[|b| - 1];
    assert DigitByte(last) && b == p + [last];
    DecBytesStep(n);
    if |b| == 1 {
      assert DigitsValue(p) == 0;
      if n >= 10 { DecBytesStep(n / 10); }
    } else {
      assert p[0] == b[0];
      LeadingDigit(p);
      DecBytesUnique(p, n / 10);
      if n >= 10 && b == Ascii(Dec(n)) {
        ConcatCancelRight(p, last, Ascii(Dec(n / 10)), 48 + n % 10);
      }
    }
  }

  lemma ConcatCancelRight(p: Bytes, x: byte, q: Bytes, y: byte)
    requires p + [x] == q + [y]
    ensures p == q && x == y
  {
    assert |p| == |q|;
    ConcatCancel(p, [x], q, [y]);
    assert [x][0] == [y][0];
  }

  /** A length is read exactly from its own decimal text. */
  lemma ParseAsciiExact(b: Bytes, n: nat)
    ensures ParseAsciiUsize(b) == Ok(n) <==> b == Ascii(Dec(n)) && n < TWO_TO_64
  {
    hide DigitsValue, Dec, Ascii;
    AsciiDigits(n);
    if b == Ascii(Dec(n)) {
      DecNoLeadingZero(n);
      AsciiFirst(Dec(n));
      assert IsDigit(Dec(n)[0]);
    }
    if b != [] && (|b| > 1 ==> b[0] != 48) && forall x :: x in b ==> DigitByte(x) {
      DecBytesUnique(b, n);
    }
  }

  lemma AsciiFirst(s: string)
    requires s != []
    ensures |Ascii(s)| == |s| && Ascii(s)[0] == s[0] as int % 256
  {
  }

  lemma {:induction false} DecNoLeadingZero(n: nat)
    ensures |Dec(n)| > 1 ==> Dec(n)[0] != '0'
    ensures n > 0 ==> Dec(n)[0] != '0'
  {
    if n >= 10 { DecNoLeadingZero(n / 10); }
  }

  lemma ParseCanonicalOfBytes(o: GitObject)
    requires |o.payload| < TWO_TO_64
    ensures ParseCanonical(Canonical(o)) == Ok(o)
  {
    hide ParseAsciiUsize, ParseKind, KindBytes, Dec, Ascii, IndexOf;
    var bytes, kind, digits := Canonical(o), KindBytes(o.kind), Ascii(Dec(|o.payload|));
    AsciiDigits(|o.payload|);
    var header := kind + [32] + digits;
    assert bytes == header + [0] + o.payload;
    assert 0 !in header by { assert 0 !in kind && 0 !in digits; }
    MarkSplits(bytes, header, 0, o.payload);
    MarkSplits(header, kind, 32, digits);
    ParseKindOfBytes(o.kind);
    ParseAsciiExact(digits, |o.payload|);
  }

  lemma ParseCanonicalSound(bytes: Bytes, o: GitObject)
    requires ParseCanonical(bytes) == Ok(o)
    ensures bytes == Canonical(o) && |o.payload| < TWO_TO_64
  {
    hide ParseAsciiUsize, KindBytes, Dec, Ascii, IndexOf;
    var nul := IndexOf(bytes, 0);
    IndexOfFirst(bytes, 0);
    var h := bytes[..nul];
    var space := IndexOf(h, 32);
    IndexOfFirst(h, 32);
    ParseAsciiExact(h[space + 1..], |o.payload|);
    assert h[..space] == KindBytes(o.kind);
    assert h == KindBytes(o.kind) + [32] + Ascii(Dec(|o.payload|));
    assert bytes == h + [0] + o.payload;
  }

  /** The parser accepts exactly the canonical bytes of an object, and recovers it. */
  lemma CanonicalExact(bytes: Bytes, o: GitObject)
    ensures ParseCanonical(bytes) == Ok(o) <==> bytes == Canonical(o) && |o.payload| < TWO_TO_64
  {
    hide ParseCanonical, Canonical;
    if ParseCanonical(bytes) == Ok(o) { ParseCanonicalSound(bytes, o); }
    if bytes == Canonical(o) && |o.payload| < TWO_TO_64 { ParseCanonicalOfBytes(o); }
  }

  lemma ParseKindOfBytes(kind: Kind)
    ensures ParseKind(KindBytes(kind)) == Ok(kind)
  {
    assert KindBytes(Tree)[1] != KindBytes(Tag)[1];
    assert |KindBytes(Blob)| == 4 && KindBytes(Blob)[0] != KindBytes(Tree)[0];
    assert |KindBytes(Commit)| == 6 && |KindBytes(Tag)| == 3 && |KindBytes(Tree)| == 4;
  }

  /** The canonical bytes of each kind of object. */
  lemma CanonicalForm(payload: Bytes)
    ensures var length := Ascii(Dec(|payload|)) + [0] + payload;
            && Canonical(GitObject(Blob, payload)) == Ascii("blob ") + length
            && Canonical(GitObject(Tree, payload)) == Ascii("tree ") + length
            && Canonical(GitObject(Commit, payload)) == Ascii("commit ") + length
            && Canonical(GitObject(Tag, payload)) == Ascii("tag ") + length
  {
    hide Dec, Ascii;
    KindWords();
  }

  lemma KindWords()
    ensures Ascii("blob ") == Ascii("blob") + [32] && Ascii("tree ") == Ascii("tree") + [32]
    ensures Ascii("commit ") == Ascii("commit") + [32] && Ascii("tag ") == Ascii("tag") + [32]
  {
  }

  /** Different objects have different canonical bytes. */
  lemma CanonicalInjective(o: GitObject, p: GitObject)
    requires |o.payload| < TWO_TO_64 && |p.payload| < TWO_TO_64
    requires Canonical(o) == Canonical(p)
    ensures o == p
  {
    CanonicalExact(Canonical(o), o);
    CanonicalExact(Canonical(o), p);
  }

  // ---------------------------------------------------------------- trees

  datatype Target = ToBlob | ToTree | ToCommit

  datatype TreeEntry = TreeEntry(mode: Bytes, name: Bytes, oid: Oid, target: Target)

  /** `tree_entry_target`. */
  function EntryTarget(mode: Bytes): Result<Target, GitError> {
    if mode == Ascii("40000") then Ok(ToTree)
    else if mode == Ascii("100644") || mode == Ascii("100755") || mode == Ascii("120000") then Ok(ToBlob)
    else if mode == Ascii("160000") then Ok(ToCommit)
    else Err(UnsupportedTreeMode)
  }

  /** One entry at the front of `p`, and where the next one starts. */
  function ParseEntry(p: Bytes): (r: Result<(TreeEntry, nat), GitError>)
    ensures r.Ok? ==> 0 < r.value.1 <= |p|
  {
    hide IndexOf, EntryTarget;
    var modeEnd := IndexOf(p, 32);
    if modeEnd == |p| then Err(MalformedTree)
    else
      var name := p[modeEnd + 1..];
      var nameLen := IndexOf(name, 0);
      if nameLen == |name| then Err(MalformedTree)
      else
        var oidStart := modeEnd + 1 + nameLen + 1;
        if oidStart + 20 > |p| || modeEnd == 0 || nameLen == 0 then Err(MalformedTree)
        else
          var target :- EntryTarget(p[..modeEnd]);
          Ok((TreeEntry(p[..modeEnd], name[..nameLen], p[oidStart..oidStart + 20], target), oidStart + 20))
  }

  /** `parse_tree_entries`. */
  function ParseTree(p: Bytes): Result<seq<TreeEntry>, GitError>
    decreases |p|
  {
    if p == [] then Ok([])
    else
      var (entry, next) :- ParseEntry(p);
      var rest :- ParseTree(p[next..]);
      Ok([entry] + rest)
  }

  function EntryBytes(e: TreeEntry): Bytes {
    e.mode + [32] + (e.name + [0] + e.oid)
  }

  function TreeBytes(es: seq<TreeEntry>): Bytes {
    if es == [] then [] else EntryBytes(es[0]) + TreeBytes(es[1..])
  }

  predicate WellFormedEntry(e: TreeEntry) {
    e.name != [] && 0 !in e.name && EntryTarget(e.mode) == Ok(e.target)
  }

  function After(entries: seq<TreeEntry>, r: Result<seq<TreeEntry>, GitError>): Result<seq<TreeEntry>, GitError> {
    match r
    case Ok(rest) => Ok(entries + rest)
    case Err(e) => Err(e)
  }

  lemma ParseTreeStep(entries: seq<TreeEntry>, p: Bytes)
    requires p != [] && ParseEntry(p).Ok?
    ensures var (e, next) := ParseEntry(p).value;
            After(entries, ParseTree(p)) == After(entries + [e], ParseTree(p[next..]))
  {
    hide ParseEntry;
    var (e, next) := ParseEntry(p).value;
    var rest := ParseTree(p[next..]);
    assert rest.Ok? ==> entries + ([e] + rest.value) == entries + [e] + rest.value;
  }

  /** The cursor loop of `parse_tree_entries`. */
  method ReadTreeEntries(payload: Bytes) returns (r: Result<seq<TreeEntry>, GitError>)
    ensures r == ParseTree(payload)
  {
    hide ParseEntry;
    var entries := [];
    var cursor := 0;
    assert payload[0..] == payload;
    assert forall rest: seq<TreeEntry> :: [] + rest == rest;
    while cursor < |payload|
      invariant cursor <= |payload|
      invariant ParseTree(payload) == After(entries, ParseTree(payload[cursor..]))
    {
      ghost var p := payload[cursor..];
      var next := ParseEntry(payload[cursor..]);
      if next.Err? {
        return Err(next.error);
      }
      ParseTreeStep(entries, p);
      assert p[next.value.1..] == payload[cursor + next.value.1..];
      entries := entries + [next.value.0];
      cursor := cursor + next.value.1;
    }
    assert entries + [] == entries;
    return Ok(entries);
  }

  /** Which modes there are, and what each names. */
  lemma EntryTargetExact(mode: Bytes, target: Target)
    ensures EntryTarget(mode) == Ok(target) <==>
            match target
            case ToTree => mode == Ascii("40000")
            case ToBlob => mode in [Ascii("100644"), Ascii("100755"), Ascii("120000")]
            case ToCommit => mode == Ascii("160000")
  {
    ModesDiffer();
  }

  lemma ModesDiffer()
    ensures |Ascii("40000")| == 5 && |Ascii("160000")| == |Ascii("100644")| == |Ascii("100755")| == |Ascii("120000")| == 6
    ensures Ascii("160000")[1] == 54 && Ascii("100644")[1] == 48 && Ascii("100755")[1] == 48 && Ascii("120000")[1] == 50
  {
  }

  lemma ModeHasNoSpace(mode: Bytes)
    requires EntryTarget(mode).Ok?
    ensures mode != [] && 32 !in mode
  {
  }

  lemma ParseEntrySound(p: Bytes)
    requires ParseEntry(p).Ok?
    ensures var (e, next) := ParseEntry(p).value;
            WellFormedEntry(e) && next == |EntryBytes(e)| && EntryBytes(e) <= p
  {
    hide EntryTarget, IndexOf;
    var (e, next) := ParseEntry(p).value;
    var modeEnd := |e.mode|;
    IndexOfFirst(p, 32);
    assert p[..modeEnd + 1] == e.mode + [32];
    var name := p[modeEnd + 1..];
    IndexOfFirst(name, 0);
    assert name[..|e.name| + 1] == e.name + [0];
    assert p[..next] == p[..modeEnd + 1] + (name[..|e.name| + 1] + e.oid);
    assert p[..next] == EntryBytes(e);
  }

  lemma EntryMarks(p: Bytes, mode: Bytes, name: Bytes, tail: Bytes)
    requires 32 !in mode && 0 !in name && p == mode + [32] + (name + [0] + tail)
    ensures IndexOf(p, 32) == |mode| && p[..|mode|] == mode
    ensures var n := p[|mode| + 1..]; IndexOf(n, 0) == |name| && n[..|name|] == name && n[|name| + 1..] == tail
  {
    hide IndexOf;
    var n := name + [0] + tail;
    MarkSplits(p, mode, 32, n);
    MarkSplits(n, name, 0, tail);
  }

  /** What `ParseEntry` reads between its two marks. */
  lemma ParseEntryAtMarks(p: Bytes, a: nat, b: nat)
    requires 0 < a < |p| && IndexOf(p, 32) == a && EntryTarget(p[..a]).Ok?
    requires 0 < b < |p| - a - 1 && IndexOf(p[a + 1..], 0) == b && a + b + 22 <= |p|
    ensures ParseEntry(p) == Ok((TreeEntry(p[..a], p[a + 1..][..b], p[a + b + 2..a + b + 22], EntryTarget(p[..a]).value), a + b + 22))
  {
    hide EntryTarget, IndexOf;
  }

  lemma OidSlice(p: Bytes, a: nat, b: nat, tail: Bytes)
    requires a < |p| && b < |p| - a - 1 && p[a + 1..][b + 1..] == tail && |tail| >= 20
    ensures a + b + 22 <= |p| && p[a + b + 2..a + b + 22] == tail[..20]
  {
    assert forall k :: 0 <= k < 20 ==> p[a + b + 2 + k] == tail[k];
  }

  lemma ParseEntryOfParts(p: Bytes, mode: Bytes, name: Bytes, tail: Bytes)
    requires 32 !in mode && 0 !in name && mode != [] && name != []
    requires p == mode + [32] + (name + [0] + tail) && |tail| >= 20
    requires EntryTarget(mode).Ok?
    ensures ParseEntry(p) == Ok((TreeEntry(mode, name, tail[..20], EntryTarget(mode).value), |mode| + |name| + 22))
  {
    hide EntryTarget, IndexOf, ParseEntry;
    assert |p| == |mode| + |name| + 2 + |tail|;
    EntryMarks(p, mode, name, tail);
    OidSlice(p, |mode|, |name|, tail);
    ParseEntryAtMarks(p, |mode|, |name|);
  }

  lemma ParseEntryOfBytes(e: TreeEntry, rest: Bytes)
    requires WellFormedEntry(e)
    ensures ParseEntry(EntryBytes(e) + rest) == Ok((e, |EntryBytes(e)|))
  {
    hide EntryTarget, IndexOf, ParseEntry;
    ModeHasNoSpace(e.mode);
    var tail := e.oid + rest;
    assert EntryBytes(e) + rest == e.mode + [32] + (e.name + [0] + tail);
    assert tail[..20] == e.oid;
    ParseEntryOfParts(EntryBytes(e) + rest, e.mode, e.name, tail);
  }

  lemma ParseEntryExact(p: Bytes, e: TreeEntry, next: nat)
    ensures ParseEntry(p) == Ok((e, next)) <==>
            WellFormedEntry(e) && next == |EntryBytes(e)| && EntryBytes(e) <= p
  {
    hide ParseEntry, WellFormedEntry, EntryBytes;
    if ParseEntry(p) == Ok((e, next)) { ParseEntrySound(p); }
    if WellFormedEntry(e) && next == |EntryBytes(e)| && EntryBytes(e) <= p {
      assert p == EntryBytes(e) + p[next..];
      ParseEntryOfBytes(e, p[next..]);
    }
  }

  /** The tree parser accepts exactly the serialisations of well-formed entry
      lists, and recovers the list. */
  lemma {:induction false} TreeExact(p: Bytes, es: seq<TreeEntry>)
    ensures ParseTree(p) == Ok(es) <==>
            TreeBytes(es) == p && forall e :: e in es ==> WellFormedEntry(e)
    decreases |p|
  {
    hide ParseEntry, EntryBytes, WellFormedEntry;
    if p == [] {
      if es != [] { EntryBytesNonEmpty(es[0]); }
    } else if es != [] {
      var e, n := es[0], |EntryBytes(es[0])|;
      EntryBytesNonEmpty(e);
      ParseEntryExact(p, e, n);
      if n <= |p| { TreeExact(p[n..], es[1..]); }
      assert es == [e] + es[1..];
      if ParseTree(p) == Ok(es) {
        var (e', n') := ParseEntry(p).value;
        ParseEntryExact(p, e', n');
        assert ([e'] + ParseTree(p[n'..]).value)[0] == e';
        assert ([e'] + ParseTree(p[n'..]).value)[1..] == ParseTree(p[n'..]).value;
        assert p == p[..n] + p[n..];
      }
      if TreeBytes(es) == p && forall x :: x in es ==> WellFormedEntry(x) {
        assert p[..n] == EntryBytes(e) && p[n..] == TreeBytes(es[1..]);
      }
    }
  }

  lemma EntryBytesNonEmpty(e: TreeEntry)
    ensures |EntryBytes(e)| > 0
  {
  }

  // -------------------------------------------------------------- commits

  datatype CommitLinks = CommitLinks(tree: Oid, parents: seq<Oid>)

  function ByteText(b: Bytes): string {
    seq(|b|, i requires 0 <= i < |b| => b[i] as char)
  }

  /** `parse_oid_bytes`: forty hexadecimal digits, anything else is invalid. */
  function ParseOidBytes(b: Bytes): Result<Oid, GitError> {
    match ParseOid(ByteText(b))
    case Some(oid) => Ok(oid)
    case None => Err(InvalidOid)
  }

  /** Where the first blank line starts, or the length. */
  function HeaderEnd(p: Bytes): (i: nat)
    ensures i <= |p|
  {
    if |p| < 2 then |p|
    else if p[0] == 10 && p[1] == 10 then 0
    else 1 + HeaderEnd(p[1..])
  }

  function ScanLinks(lines: seq<Bytes>, tree: Option<Oid>, parents: seq<Oid>): Result<CommitLinks, GitError>
    decreases |lines|
  {
    if lines == [] then
      if tree.None? then Err(MissingCommitTree) else Ok(CommitLinks(tree.value, parents))
    else if Ascii("tree ") <= lines[0] then
      var oid :- ParseOidBytes(lines[0][5..]);
      ScanLinks(lines[1..], Some(oid), parents)
    else if Ascii("parent ") <= lines[0] then
      var oid :- ParseOidBytes(lines[0][7..]);
      ScanLinks(lines[1..], tree, parents + [oid])
    else ScanLinks(lines[1..], tree, parents)
  }

  /** `parse_commit_links`: the last tree line wins, parents keep their order. */
  function ParseCommitLinks(payload: Bytes): Result<CommitLinks, GitError> {
    ScanLinks(Split(payload[..HeaderEnd(payload)], 10), None, [])
  }

  /** The loop of `parse_commit_links`. */
  method ReadCommitLinks(payload: Bytes) returns (r: Result<CommitLinks, GitError>)
    ensures r == ParseCommitLinks(payload)
  {
    hide Split, HeaderEnd, ParseOidBytes;
    var lines := Split(payload[..HeaderEnd(payload)], 10);
    var tree: Option<Oid> := None;
    var parents: seq<Oid> := [];
    var k := 0;
    while k < |lines|
      invariant k <= |lines|
      invariant ParseCommitLinks(payload) == ScanLinks(lines[k..], tree, parents)
    {
      var line := lines[k];
      assert lines[k..][1..] == lines[k + 1..];
      if Ascii("tree ") <= line {
        var oid := ParseOidBytes(line[5..]);
        if oid.Err? { return Err(oid.error); }
        tree := Some(oid.value);
      } else if Ascii("parent ") <= line {
        var oid := ParseOidBytes(line[7..]);
        if oid.Err? { return Err(oid.error); }
        parents := parents + [oid.value];
      }
      k := k + 1;
    }
    if tree.None? { return Err(MissingCommitTree); }
    return Ok(CommitLinks(tree.value, parents));
  }

  function TreeLine(tree: Oid): Bytes { Ascii("tree ") + Ascii(Hex(tree)) }

  function ParentLines(parents: seq<Oid>): seq<Bytes> {
    if parents == [] then [] else [Ascii("parent ") + Ascii(Hex(parents[0]))] + ParentLines(parents[1..])
  }

  /** A header line that names no object: author, committer and the like. */
  predicate OtherLine(line: Bytes) {
    line != [] && 10 !in line && !(Ascii("tree ") <= line) && !(Ascii("parent ") <= line)
  }

  lemma OidBytesRead(oid: Oid)
    ensures ParseOidBytes(Ascii(Hex(oid))) == Ok(oid)
    ensures 10 !in Ascii(Hex(oid))
  {
    hide Hex, DecodeHex;
    ParseOidOfHex(oid);
    var h := Hex(oid);
    assert forall i :: 0 <= i < |h| ==> h[i] in h && IsLowerHex(h[i]);
    assert ByteText(Ascii(h)) == h;
  }

  /** Lines that are not blank. */
  predicate FullLines(lines: seq<Bytes>) {
    forall l :: l in lines ==> l != [] && 10 !in l
  }

  predicate NoBlankLine(h: Bytes) {
    && (forall i :: 0 <= i < |h| - 1 ==> !(h[i] == 10 && h[i + 1] == 10))
    && (h != [] ==> h[0] != 10 && h[|h| - 1] != 10)
  }

  lemma {:induction false} JoinNoBlank(lines: seq<Bytes>)
    requires FullLines(lines)
    ensures NoBlankLine(Join(lines, 10)) && (lines != [] ==> Join(lines, 10) != [])
  {
    if lines != [] {
      assert lines[0] in lines;
      var l, rest := lines[0], Join(lines[1..], 10);
      assert forall x :: x in lines[1..] ==> x in lines;
      JoinNoBlank(lines[1..]);
      if |lines| > 1 {
        var h := l + [10] + rest;
        assert Join(lines, 10) == h;
        forall i | 0 <= i < |h| - 1
          ensures !(h[i] == 10 && h[i + 1] == 10)
        {
          if i < |l| { assert h[i] == l[i]; }
          if i > |l| { assert h[i] == rest[i - |l| - 1] && h[i + 1] == rest[i - |l|]; }
        }
      }
    }
  }

  lemma {:induction false} HeaderEndAt(h: Bytes, message: Bytes)
    requires (forall i :: 0 <= i < |h| - 1 ==> !(h[i] == 10 && h[i + 1] == 10)) && (h != [] ==> h[|h| - 1] != 10)
    ensures HeaderEnd(h + ([10, 10] + message)) == |h|
    decreases |h|
  {
    var p := h + ([10, 10] + message);
    if h != [] {
      assert p[1..] == h[1..] + ([10, 10] + message);
      HeaderEndAt(h[1..], message);
      assert p[0] == h[0] && (|h| > 1 ==> p[1] == h[1]);
    }
  }

  lemma {:induction false} ScanOthers(others: seq<Bytes>, tree: Oid, parents: seq<Oid>)
    requires forall l :: l in others ==> OtherLine(l)
    ensures ScanLinks(others, Some(tree), parents) == Ok(CommitLinks(tree, parents))
  {
    if others != [] {
      assert OtherLine(others[0]);
      ScanOthers(others[1..], tree, parents);
    }
  }

  lemma ScanParentLine(oid: Oid, rest: seq<Bytes>, tree: Oid, done: seq<Oid>)
    ensures ScanLinks([Ascii("parent ") + Ascii(Hex(oid))] + rest, Some(tree), done) == ScanLinks(rest, Some(tree), done + [oid])
  {
    hide Ascii, Hex, ParseOidBytes;
    var value := Ascii(Hex(oid));
    var lines := [Ascii("parent ") + value] + rest;
    PrefixFacts(value);
    OidBytesRead(oid);
    assert lines[0] == Ascii("parent ") + value && lines[1..] == rest;
  }

  lemma {:induction false} ScanParents(todo: seq<Oid>, others: seq<Bytes>, tree: Oid, done: seq<Oid>)
    requires forall l :: l in others ==> OtherLine(l)
    ensures ScanLinks(ParentLines(todo) + others, Some(tree), done) == Ok(CommitLinks(tree, done + todo))
    decreases |todo|
  {
    hide Ascii, Hex, ScanLinks, OtherLine;
    if todo == [] {
      assert ParentLines(todo) + others == others && done + todo == done;
      ScanOthers(others, tree, done);
    } else {
      var rest := ParentLines(todo[1..]) + others;
      assert ParentLines(todo) + others == [Ascii("parent ") + Ascii(Hex(todo[0]))] + rest;
      ScanParentLine(todo[0], rest, tree, done);
      ScanParents(todo[1..], others, tree, done + [todo[0]]);
      assert done + [todo[0]] + todo[1..] == done + todo;
    }
  }

  lemma PrefixFacts(value: Bytes)
    ensures Ascii("tree ") <= Ascii("tree ") + value && (Ascii("tree ") + value)[5..] == value
    ensures Ascii("parent ") <= Ascii("parent ") + value && (Ascii("parent ") + value)[7..] == value
    ensures !(Ascii("tree ") <= Ascii("parent ") + value)
  {
    assert (Ascii("parent ") + value)[0] == 112 && Ascii("tree ")[0] == 116;
  }

  lemma {:induction false} ParentLinesFull(parents: seq<Oid>)
    ensures FullLines(ParentLines(parents))
  {
    hide Hex;
    if parents != [] {
      ParentLinesFull(parents[1..]);
      OidBytesRead(parents[0]);
    }
  }

  /** A commit in Git's form is read as its tree and its parents in order. */
  lemma CommitLinksRead(tree: Oid, parents: seq<Oid>, others: seq<Bytes>, message: Bytes)
    requires forall l :: l in others ==> OtherLine(l)
    ensures ParseCommitLinks(Join([TreeLine(tree)] + (ParentLines(parents) + others), 10) + ([10, 10] + message)) ==
            Ok(CommitLinks(tree, parents))
  {
    hide Hex, HeaderEnd, Split, Join, ParseOidBytes;
    var lines := [TreeLine(tree)] + (ParentLines(parents) + others);
    OidBytesRead(tree);
    ParentLinesFull(parents);
    TreeLineFull(tree);
    assert FullLines(lines);
    JoinNoBlank(lines);
    var h := Join(lines, 10);
    HeaderEndAt(h, message);
    assert (h + ([10, 10] + message))[..|h|] == h;
    SplitJoin(lines, 10);
    PrefixFacts(Ascii(Hex(tree)));
    assert lines[1..] == ParentLines(parents) + others;
    ScanParents(parents, others, tree, []);
    assert [] + parents == parents;
  }

  lemma TreeLineFull(tree: Oid)
    ensures TreeLine(tree) != [] && 10 !in TreeLine(tree)
  {
    hide Hex;
    OidBytesRead(tree);
  }

  // ------------------------------------------------ any header whatever

  /** What follows `key` on the lines that begin with it. */
  function Values(lines: seq<Bytes>, key: Bytes): seq<Bytes> {
    if lines == [] then []
    else if key <= lines[0] then [lines[0][|key|..]] + Values(lines[1..], key)
    else Values(lines[1..], key)
  }

  predicate AllOids(values: seq<Bytes>) {
    forall i :: 0 <= i < |values| ==> ParseOidBytes(values[i]).Ok?
  }

  function Oids(values: seq<Bytes>): (r: seq<Oid>)
    requires AllOids(values)
    ensures |r| == |values|
  {
    seq(|values|, i requires 0 <= i < |values| => ParseOidBytes(values[i]).value)
  }

  lemma KeysDiffer(line: Bytes)
    ensures |Ascii("tree ")| == 5 && |Ascii("parent ")| == 7
    ensures !(Ascii("tree ") <= line && Ascii("parent ") <= line)
  {
    assert Ascii("parent ")[0] == 112 && Ascii("tree ")[0] == 116;
  }

  lemma OidsCons(first: Bytes, rest: seq<Bytes>)
    ensures AllOids([first] + rest) <==> ParseOidBytes(first).Ok? && AllOids(rest)
    ensures AllOids([first] + rest) ==> Oids([first] + rest) == [ParseOidBytes(first).value] + Oids(rest)
  {
    hide ParseOidBytes;
    if ParseOidBytes(first).Ok? && AllOids(rest) {
      assert forall i :: 0 <= i < |rest| ==> ([first] + rest)[i + 1] == rest[i];
    }
    if AllOids([first] + rest) {
      assert ([first] + rest)[0] == first;
      forall i | 0 <= i < |rest|
        ensures ParseOidBytes(rest[i]).Ok?
      {
        assert ([first] + rest)[i + 1] == rest[i];
      }
    }
  }

  lemma {:induction false} ScanExact(lines: seq<Bytes>, tree: Option<Oid>, parents: seq<Oid>)
    ensures var trees, more := Values(lines, Ascii("tree ")), Values(lines, Ascii("parent "));
            var r := ScanLinks(lines, tree, parents);
            && (r.Ok? <==> AllOids(trees) && AllOids(more) && (tree.Some? || trees != []))
            && (r.Ok? ==>
                  && r.value.tree == (if trees == [] then tree.value else ParseOidBytes(trees[|trees| - 1]).value)
                  && r.value.parents == parents + Oids(more))
    decreases |lines|
  {
    hide ParseOidBytes, Ascii, AllOids, Oids;
    if lines == [] {
      assert AllOids([]) && parents + Oids([]) == parents by { NoOids(); }
    } else {
      var line, rest := lines[0], lines[1..];
      KeysDiffer(line);
      if Ascii("tree ") <= line {
        OidsCons(line[5..], Values(rest, Ascii("tree ")));
        if ParseOidBytes(line[5..]).Ok? { ScanExact(rest, Some(ParseOidBytes(line[5..]).value), parents); }
      } else if Ascii("parent ") <= line {
        OidsCons(line[7..], Values(rest, Ascii("parent ")));
        if ParseOidBytes(line[7..]).Ok? {
          var oid := ParseOidBytes(line[7..]).value;
          ScanExact(rest, tree, parents + [oid]);
          if AllOids(Values(rest, Ascii("parent "))) {
            assert parents + [oid] + Oids(Values(rest, Ascii("parent "))) == parents + ([oid] + Oids(Values(rest, Ascii("parent "))));
          }
        }
      } else {
        ScanExact(rest, tree, parents);
      }
    }
  }

  lemma NoOids()
    ensures AllOids([]) && Oids([]) == []
  {
  }

  /** Any payload: the links are taken from the lines before the first blank one.
      Every tree and parent line there must hold an object id, there must be a tree
      line, the last one counts, and the parents keep their order. */
  lemma CommitLinksExact(payload: Bytes)
    ensures var lines := Split(payload[..HeaderEnd(payload)], 10);
            var trees, parents := Values(lines, Ascii("tree ")), Values(lines, Ascii("parent "));
            && (ParseCommitLinks(payload).Ok? <==> AllOids(trees) && AllOids(parents) && trees != [])
            && (ParseCommitLinks(payload).Ok? ==>
                  ParseCommitLinks(payload).value == CommitLinks(ParseOidBytes(trees[|trees| - 1]).value, Oids(parents)))
  {
    hide ParseOidBytes, Ascii, AllOids, Oids, Values, ScanLinks, Split, HeaderEnd;
    var lines := Split(payload[..HeaderEnd(payload)], 10);
    ScanExact(lines, None, []);
    if AllOids(Values(lines, Ascii("parent "))) { assert [] + Oids(Values(lines, Ascii("parent "))) == Oids(Values(lines, Ascii("parent "))); }
  }
}
