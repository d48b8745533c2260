/** gitmesh-git: reading and writing packfiles. */
module Pack {
  import opened Prelude
  import opened Text
  import opened GitOid
  import opened GitObjects
  import opened PackVarint
  import opened PackDelta
  import opened PackResolve
  import opened PackDerivation

  /** zlib: `inflate` gives the payload and the number of input bytes it used. */
  datatype Zlib = Zlib(deflate: Bytes -> Bytes, inflate: Bytes -> Option<(Bytes, nat)>)

  /** A stream cannot use more bytes than it was given. */
  ghost predicate Bounded(z: Zlib) {
    forall b :: z.inflate(b).Some? ==> z.inflate(b).value.1 <= |b|
  }

  /** Inflating a deflated payload gives it back, whatever follows it. */
  ghost predicate Faithful(z: Zlib) {
    && Bounded(z)
    && (forall p :: z.deflate(p) != [])
    && (forall p, rest :: z.inflate(z.deflate(p) + rest) == Some((p, |z.deflate(p)|)))
  }

  datatype Packfile = Packfile(version: nat, objects: seq<GitObject>)

  // -------------------------------------------------------------- writing

  /** `pack_kind_code`. */
  function KindCode(kind: Kind): nat {
    match kind
    case Commit => 1
    case Tree => 2
    case Blob => 3
    case Tag => 4
  }

  function ObjectBytes(z: Zlib, o: GitObject): Bytes {
    EntryHeaderBytes(KindCode(o.kind), |o.payload|) + z.deflate(o.payload)
  }

  function ObjectsBytes(z: Zlib, objs: seq<GitObject>): Bytes {
    if objs == [] then [] else ObjectBytes(z, objs[0]) + ObjectsBytes(z, objs[1..])
  }

  function PackHeader(count: nat): (b: Bytes)
    ensures |b| == 12
  {
    Ascii("PACK") + Be(2, 4) + Be(count, 4)
  }

  /** `write_packfile`. */
  function WritePack(sha1: Sha1, z: Zlib, objs: seq<GitObject>): Result<Bytes, GitError> {
    if |objs| >= TWO_TO_32 then Err(PackObjectCountOverflow)
    else
      var body := PackHeader(|objs|) + ObjectsBytes(z, objs);
      Ok(body + sha1(body))
  }

  lemma {:induction false} ObjectsBytesPush(z: Zlib, objs: seq<GitObject>, o: GitObject)
    ensures ObjectsBytes(z, objs + [o]) == ObjectsBytes(z, objs) + ObjectBytes(z, o)
  {
    hide ObjectBytes;
    if objs == [] {
      assert [] + [o] == [o] && [o][1..] == [];
      assert ObjectsBytes(z, []) == [];
    } else {
      assert (objs + [o])[1..] == objs[1..] + [o];
      ObjectsBytesPush(z, objs[1..], o);
    }
  }

  lemma NoObjects(z: Zlib)
    ensures ObjectsBytes(z, []) == []
  {
  }

  method WritePackfile(sha1: Sha1, z: Zlib, objects: seq<GitObject>) returns (r: Result<Bytes, GitError>)
    ensures r == WritePack(sha1, z, objects)
  {
    hide ObjectsBytes, EntryHeaderBytes, PackHeader;
    if |objects| >= TWO_TO_32 {
      return Err(PackObjectCountOverflow);
    }
    var bytes := PackHeader(|objects|);
    NoObjects(z);
    assert objects[..0] == [];
    for i := 0 to |objects|
      invariant bytes == PackHeader(|objects|) + ObjectsBytes(z, objects[..i])
    {
      var o := objects[i];
      var header := WriteEntryHeader(KindCode(o.kind), |o.payload|);
      ObjectsBytesPush(z, objects[..i], o);
      assert objects[..i + 1] == objects[..i] + [o];
      var more := header + z.deflate(o.payload);
      assert more == ObjectBytes(z, o);
      assert PackHeader(|objects|) + (ObjectsBytes(z, objects[..i]) + more) == bytes + more;
      bytes := bytes + more;
    }
    assert objects[..|objects|] == objects;
    return Ok(bytes + sha1(bytes));
  }

  // -------------------------------------------------------------- reading

  /** `inflate_pack_object`. */
  function Inflate(z: Zlib, b: Bytes): (r: Result<(Bytes, nat), GitError>)
    requires Bounded(z)
    ensures r.Ok? ==> 0 < r.value.1 <= |b|
  {
    match z.inflate(b)
    case None => Err(PackObjectDecode)
    case Some((payload, used)) => if used == 0 then Err(PackObjectDecode) else Ok((payload, used))
  }

  /** The base reference that follows the header, and its length. */
  function ReadBase(p: Bytes, kind: nat, start: nat): (r: Result<(Option<DeltaBase>, nat), GitError>)
    ensures r.Ok? ==> r.value.1 <= |p|
  {
    if kind == 6 then
      var (offset, used) :- ParseBaseOffset(p, start);
      Ok((Some(AtOffset(offset)), used))
    else if kind == 7 then
      if |p| < 20 then Err(MalformedPack) else Ok((Some(WithOid(p[..20])), 20))
    else Ok((None, 0))
  }

  /** The entry at `cursor` of the checksummed part, and the cursor after it. */
  function ReadEntry(z: Zlib, body: Bytes, cursor: nat): (r: Result<(PackEntry, nat), GitError>)
    requires Bounded(z) && cursor <= |body|
    ensures r.Ok? ==> cursor < r.value.1 <= |body| && r.value.0.offset == cursor
  {
    var (kind, size, used) :- ParseEntryHeader(body[cursor..]);
    var c1 := cursor + used;
    var (base, baseLen) :- ReadBase(body[c1..], kind, cursor);
    var c2 := c1 + baseLen;
    var (payload, inflated) :- Inflate(z, body[c2..]);
    if |payload| != size then Err(LengthMismatch(size, |payload|))
    else Ok((PackEntry(cursor, kind, payload, base), c2 + inflated))
  }

  function ReadEntries(z: Zlib, body: Bytes, cursor: nat, count: nat): (r: Result<(seq<PackEntry>, nat), GitError>)
    requires Bounded(z) && cursor <= |body|
    ensures r.Ok? ==> |r.value.0| == count && r.value.1 <= |body|
    decreases count
  {
    if count == 0 then Ok(([], cursor))
    else
      var (entry, next) :- ReadEntry(z, body, cursor);
      var (rest, last) :- ReadEntries(z, body, next, count - 1);
      Ok(([entry] + rest, last))
  }

  function ReadBe32(b: Bytes): nat { FromBe(b) }

  /** `parse_packfile`. */
  function ParsePack(sha1: Sha1, z: Zlib, bytes: Bytes): Result<Packfile, GitError>
    requires Bounded(z)
  {
    if |bytes| < 32 || bytes[..4] != Ascii("PACK") then Err(MalformedPack)
    else
      var body := bytes[..|bytes| - 20];
      if bytes[|bytes| - 20..] != sha1(body) then Err(PackChecksumMismatch)
      else
        var version := ReadBe32(bytes[4..8]);
        if version != 2 && version != 3 then Err(UnsupportedPackVersion(version))
        else
          var (entries, cursor) :- ReadEntries(z, body, 12, ReadBe32(bytes[8..12]));
          if cursor != |body| then Err(PackTrailingBytes)
          else
            var objects :- ResolveAll(sha1, entries);
            Ok(Packfile(version, objects))
  }

  function Prepend(entries: seq<PackEntry>, r: Result<(seq<PackEntry>, nat), GitError>): Result<(seq<PackEntry>, nat), GitError> {
    match r
    case Ok((rest, cursor)) => Ok((entries + rest, cursor))
    case Err(e) => Err(e)
  }

  lemma ReadEntriesStep(z: Zlib, body: Bytes, cursor: nat, count: nat, entries: seq<PackEntry>)
    requires Bounded(z) && cursor <= |body| && count > 0 && ReadEntry(z, body, cursor).Ok?
    ensures var (entry, next) := ReadEntry(z, body, cursor).value;
            Prepend(entries, ReadEntries(z, body, cursor, count)) ==
            Prepend(entries + [entry], ReadEntries(z, body, next, count - 1))
  {
    hide ReadEntry;
    var (entry, next) := ReadEntry(z, body, cursor).value;
    var r := ReadEntries(z, body, next, count - 1);
    assert r.Ok? ==> entries + ([entry] + r.value.0) == entries + [entry] + r.value.0;
  }

  method ReadPackEntry(z: Zlib, body: Bytes, start: nat) returns (r: Result<(PackEntry, nat), GitError>)
    requires Bounded(z) && start <= |body|
    ensures r == ReadEntry(z, body, start)
  {
    hide ParseEntryHeader, ParseBaseOffset;
    var cursor := start;
    var header := EntryHeader(body[cursor..]);
    if header.Err? { return Err(header.error); }
    var (kind, size, used) := header.value;
    cursor := cursor + used;
    var base: Option<DeltaBase> := None;
    if kind == 6 {
      var offset := BaseOffset(body[cursor..], start);
      if offset.Err? { return Err(offset.error); }
      base, cursor := Some(AtOffset(offset.value.0)), cursor + offset.value.1;
    } else if kind == 7 {
      if |body| - cursor < 20 { return Err(MalformedPack); }
      assert body[cursor..][..20] == body[cursor..cursor + 20];
      base, cursor := Some(WithOid(body[cursor..cursor + 20])), cursor + 20;
    }
    var inflated := Inflate(z, body[cursor..]);
    if inflated.Err? { return Err(inflated.error); }
    if |inflated.value.0| != size { return Err(LengthMismatch(size, |inflated.value.0|)); }
    return Ok((PackEntry(start, kind, inflated.value.0, base), cursor + inflated.value.1));
  }

  method ParsePackfile(sha1: Sha1, z: Zlib, bytes: Bytes) returns (r: Result<Packfile, GitError>)
    requires Bounded(z)
    ensures r == ParsePack(sha1, z, bytes)
  {
    hide ReadEntry, ResolveAll, FromBe;
    if |bytes| < 32 || bytes[..4] != Ascii("PACK") { return Err(MalformedPack); }
    var end := |bytes| - 20;
    var body := bytes[..end];
    if bytes[end..] != sha1(body) { return Err(PackChecksumMismatch); }
    var version := ReadBe32(bytes[4..8]);
    if version != 2 && version != 3 { return Err(UnsupportedPackVersion(version)); }
    var count := ReadBe32(bytes[8..12]);
    var cursor: nat := 12;
    var entries: seq<PackEntry> := [];
    assert forall rest: seq<PackEntry> :: [] + rest == rest;
    for i := 0 to count
      invariant cursor <= |body|
      invariant ReadEntries(z, body, 12, count) == Prepend(entries, ReadEntries(z, body, cursor, count - i))
    {
      var entry := ReadPackEntry(z, body, cursor);
      if entry.Err? { return Err(entry.error); }
      ReadEntriesStep(z, body, cursor, count - i, entries);
      entries, cursor := entries + [entry.value.0], entry.value.1;
    }
    assert entries + [] == entries;
    if cursor != end { return Err(PackTrailingBytes); }
    var objects := ResolvePackEntries(sha1, entries);
    if objects.Err? { return Err(objects.error); }
    return Ok(Packfile(version, objects.value));
  }

  // ----------------------------------------------------------- round trip

  predicate StoredWhole(es: seq<PackEntry>, objs: seq<GitObject>) {
    && |es| == |objs|
    && forall i :: 0 <= i < |es| ==>
         es[i].base.None? && es[i].kind == KindCode(objs[i].kind) && es[i].payload == objs[i].payload
  }

  predicate Ascending(es: seq<PackEntry>) {
    forall i, j :: 0 <= i < j < |es| ==> es[i].offset < es[j].offset
  }

  lemma ReadEntryOfObject(z: Zlib, before: Bytes, o: GitObject, rest: Bytes)
    requires Faithful(z) && |o.payload| < TWO_TO_64
    ensures ReadEntry(z, before + ObjectBytes(z, o) + rest, |before|) ==
            Ok((PackEntry(|before|, KindCode(o.kind), o.payload, None), |before| + |ObjectBytes(z, o)|))
  {
    hide ParseEntryHeader, EntryHeaderBytes, ParseBaseOffset;
    var header, data := EntryHeaderBytes(KindCode(o.kind), |o.payload|), z.deflate(o.payload);
    var body := before + ObjectBytes(z, o) + rest;
    EntryHeaderRoundTrip(KindCode(o.kind), |o.payload|, data + rest);
    assert body[|before|..] == header + (data + rest);
    assert body[|before| + |header|..] == data + rest;
    assert z.inflate(data + rest) == Some((o.payload, |data|));
  }

  /** Whole objects, stored from `from` on in increasing order. */
  predicate StoredFrom(es: seq<PackEntry>, objs: seq<GitObject>, from: nat) {
    StoredWhole(es, objs) && Ascending(es) && forall e :: e in es ==> from <= e.offset
  }

  lemma StoredCons(e: PackEntry, rest: seq<PackEntry>, objs: seq<GitObject>, from: nat)
    requires objs != [] && e.offset < from && StoredFrom(rest, objs[1..], from)
    requires e.base.None? && e.kind == KindCode(objs[0].kind) && e.payload == objs[0].payload
    ensures StoredFrom([e] + rest, objs, e.offset)
  {
    hide KindCode;
  }

  lemma ReadEntriesCons(z: Zlib, body: Bytes, cursor: nat, count: nat, e: PackEntry, next: nat, rest: seq<PackEntry>, last: nat)
    requires Bounded(z) && cursor <= |body| && next <= |body| && count > 0
    requires ReadEntry(z, body, cursor) == Ok((e, next)) && ReadEntries(z, body, next, count - 1) == Ok((rest, last))
    ensures ReadEntries(z, body, cursor, count) == Ok(([e] + rest, last))
  {
    hide ReadEntry;
  }

  lemma {:induction false} ReadEntriesOfObjects(z: Zlib, before: Bytes, objs: seq<GitObject>)
    requires Faithful(z) && forall o :: o in objs ==> |o.payload| < TWO_TO_64
    ensures var body := before + ObjectsBytes(z, objs);
            var r := ReadEntries(z, body, |before|, |objs|);
            r.Ok? && r.value.1 == |body| && StoredFrom(r.value.0, objs, |before|)
    decreases |objs|
  {
    hide ReadEntry, ObjectBytes, KindCode, Faithful, StoredFrom, ReadEntries;
    BoundedOfFaithful(z);
    var body := before + ObjectsBytes(z, objs);
    if objs == [] {
      assert body == before;
      ReadNoEntries(z, body, |before|);
    } else {
      var o, tail := objs[0], ObjectsBytes(z, objs[1..]);
      var first := ObjectBytes(z, o);
      assert body == before + first + tail == (before + first) + tail;
      ReadEntryOfObject(z, before, o, tail);
      ReadEntriesOfObjects(z, before + first, objs[1..]);
      var (e, next) := ReadEntry(z, body, |before|).value;
      var (rest, last) := ReadEntries(z, body, next, |objs| - 1).value;
      ReadEntriesCons(z, body, |before|, |objs|, e, next, rest, last);
      StoredCons(e, rest, objs, next);
    }
  }

  lemma ReadNoEntries(z: Zlib, body: Bytes, cursor: nat)
    requires Bounded(z) && cursor <= |body|
    ensures ReadEntries(z, body, cursor, 0) == Ok(([], cursor)) && StoredFrom([], [], cursor)
  {
  }

  lemma BoundedOfFaithful(z: Zlib)
    requires Faithful(z)
    ensures Bounded(z)
  {
  }

  lemma {:induction false} WholeEntriesLeftToRight(sha1: Sha1, es: seq<PackEntry>, objs: seq<GitObject>, n: nat)
    requires StoredWhole(es, objs) && n <= |es|
    ensures LeftToRight(sha1, es, n) == Some(objs[..n])
  {
    if n > 0 {
      WholeEntriesLeftToRight(sha1, es, objs, n - 1);
      assert FullKind(KindCode(objs[n - 1].kind)) == Ok(objs[n - 1].kind);
      assert objs[..n] == objs[..n - 1] + [objs[n - 1]];
    }
  }

  /** Reading a written pack gives version 2 and exactly the objects written. */
  lemma PackRoundTrip(sha1: Sha1, z: Zlib, objs: seq<GitObject>)
    requires Faithful(z) && |objs| < TWO_TO_32
    requires forall o :: o in objs ==> |o.payload| < TWO_TO_64
    ensures WritePack(sha1, z, objs).Ok?
    ensures ParsePack(sha1, z, WritePack(sha1, z, objs).value) == Ok(Packfile(2, objs))
  {
    hide Faithful, ReadEntries, ResolveAll, LeftToRight, ObjectsBytes, FromBe;
    BoundedOfFaithful(z);
    var header := PackHeader(|objs|);
    var body := header + ObjectsBytes(z, objs);
    var bytes := body + sha1(body);
    assert bytes[..|bytes| - 20] == body && bytes[|bytes| - 20..] == sha1(body);
    HeaderFields(|objs|);
    assert bytes[..4] == header[..4] && bytes[4..8] == header[4..8] && bytes[8..12] == header[8..12];
    ReadEntriesOfObjects(z, header, objs);
    var es := ReadEntries(z, body, 12, |objs|).value.0;
    WholeEntriesLeftToRight(sha1, es, objs, |es|);
    OrderedResolves(sha1, es);
    assert objs[..|es|] == objs;
  }

  lemma HeaderFields(count: nat)
    requires count < TWO_TO_32
    ensures PackHeader(count)[..4] == Ascii("PACK")
    ensures ReadBe32(PackHeader(count)[4..8]) == 2
    ensures ReadBe32(PackHeader(count)[8..12]) == count
  {
    hide Be, FromBe;
    var h := PackHeader(count);
    assert h[..4] == Ascii("PACK") && h[4..8] == Be(2, 4) && h[8..12] == Be(count, 4);
    Pow256();
    FromBeOfBe(2, 4);
    FromBeOfBe(count, 4);
  }
}
