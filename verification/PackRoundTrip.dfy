/** Packs with deltas: reading a serialised pack of whole objects, OFS_DELTA and
    REF_DELTA entries gives exactly those entries, and resolving them gives the
    objects the deltas denote. */
module PackRoundTrips {
  import opened Prelude
  import opened Text
  import opened GitOid
  import opened GitObjects
  import opened PackVarint
  import opened PackDelta
  import opened PackResolve
  import opened PackDerivation
  import opened Pack

  /** One entry of a pack; an offset delta names its base by place. */
  datatype Item =
    | Whole(obj: GitObject)
    | OfsDelta(base: nat, delta: Bytes)
    | RefDelta(oid: Oid, delta: Bytes)
  {
    function Payload(): Bytes {
      match this
      case Whole(o) => o.payload
      case OfsDelta(_, delta) => delta
      case RefDelta(_, delta) => delta
    }

    /** The type numbers of gitformat-pack, "Object types". */
    function TypeNumber(): nat {
      match this
      case Whole(o) => (match o.kind case Commit => 1 case Tree => 2 case Blob => 3 case Tag => 4)
      case OfsDelta(_, _) => 6
      case RefDelta(_, _) => 7
    }
  }

  /** Every offset delta comes after its base. */
  predicate WellBased(items: seq<Item>) {
    forall i :: 0 <= i < |items| && items[i].OfsDelta? ==> items[i].base < i
  }

  // -------------------------------------------------------------- writing

  /** The base reference of an entry that starts at `start`: the distance back to
      the start of the base's own entry, or the id of the base. */
  function BaseBytes(item: Item, start: nat, starts: seq<nat>): Bytes
    requires item.OfsDelta? ==> item.base < |starts| && starts[item.base] <= start
  {
    match item
    case Whole(_) => []
    case OfsDelta(b, _) => OffsetBytes(start - starts[b])
    case RefDelta(oid, _) => oid
  }

  function ItemBytes(z: Zlib, item: Item, start: nat, starts: seq<nat>): Bytes
    requires item.OfsDelta? ==> item.base < |starts| && starts[item.base] <= start
  {
    EntryHeaderBytes(item.TypeNumber(), |item.Payload()|) + BaseBytes(item, start, starts) + z.deflate(item.Payload())
  }

  /** The entries after the twelve bytes of the pack header, and where each starts. */
  function Layout(z: Zlib, items: seq<Item>): (r: (Bytes, seq<nat>))
    requires WellBased(items)
    ensures |r.1| == |items|
    ensures forall i :: 0 <= i < |items| ==> 12 <= r.1[i] < 12 + |r.0|
    ensures forall i, j :: 0 <= i < j < |items| ==> r.1[i] < r.1[j]
  {
    if items == [] then ([], [])
    else
      var n := |items| - 1;
      var (bytes, starts) := Layout(z, items[..n]);
      (bytes + ItemBytes(z, items[n], 12 + |bytes|, starts), starts + [12 + |bytes|])
  }

  function PackOf(sha1: Sha1, z: Zlib, version: nat, items: seq<Item>): Bytes
    requires WellBased(items)
  {
    var body := Ascii("PACK") + Be(version, 4) + Be(|items|, 4) + Layout(z, items).0;
    body + sha1(body)
  }

  // -------------------------------------------------------------- reading

  function EntryOf(item: Item, start: nat, starts: seq<nat>): PackEntry
    requires item.OfsDelta? ==> item.base < |starts|
  {
    PackEntry(start, item.TypeNumber(), item.Payload(),
              match item
              case Whole(_) => None
              case OfsDelta(b, _) => Some(AtOffset(starts[b]))
              case RefDelta(oid, _) => Some(WithOid(oid)))
  }

  function EntriesOf(z: Zlib, items: seq<Item>): (es: seq<PackEntry>)
    requires WellBased(items)
    ensures |es| == |items|
    ensures forall i :: 0 <= i < |items| ==> es[i] == EntryOf(items[i], Layout(z, items).1[i], Layout(z, items).1)
  {
    var starts := Layout(z, items).1;
    seq(|items|, i requires 0 <= i < |items| => EntryOf(items[i], starts[i], starts))
  }

  lemma ReadBaseOfItem(item: Item, start: nat, starts: seq<nat>, rest: Bytes)
    requires item.OfsDelta? ==> item.base < |starts| && starts[item.base] <= start
    requires start < TWO_TO_64
    ensures ReadBase(BaseBytes(item, start, starts) + rest, item.TypeNumber(), start) ==
            Ok((EntryOf(item, start, starts).base, |BaseBytes(item, start, starts)|))
  {
    hide OffsetBytes, OffsetDistance;
    if item.OfsDelta? {
      OffsetRoundTrip(start - starts[item.base], rest);
    }
    if item.RefDelta? {
      assert (item.oid + rest)[..20] == item.oid;
    }
  }

  /** One serialised entry is read back, whatever surrounds it. */
  lemma ReadEntryOfItem(z: Zlib, before: Bytes, item: Item, starts: seq<nat>, rest: Bytes)
    requires Faithful(z) && |before| < TWO_TO_64 && |item.Payload()| < TWO_TO_64
    requires item.OfsDelta? ==> item.base < |starts| && starts[item.base] <= |before|
    ensures ReadEntry(z, before + ItemBytes(z, item, |before|, starts) + rest, |before|) ==
            Ok((EntryOf(item, |before|, starts), |before| + |ItemBytes(z, item, |before|, starts)|))
  {
    hide ParseEntryHeader, EntryHeaderBytes, ReadBase, BaseBytes;
    var header := EntryHeaderBytes(item.TypeNumber(), |item.Payload()|);
    var base := BaseBytes(item, |before|, starts);
    var data := z.deflate(item.Payload());
    var body := before + ItemBytes(z, item, |before|, starts) + rest;
    EntryHeaderRoundTrip(item.TypeNumber(), |item.Payload()|, base + (data + rest));
    assert body[|before|..] == header + (base + (data + rest));
    assert body[|before| + |header|..] == base + (data + rest);
    ReadBaseOfItem(item, |before|, starts, data + rest);
    assert body[|before| + |header| + |base|..] == data + rest;
    assert z.inflate(data + rest) == Some((item.Payload(), |data|));
  }

  /** Reading one more entry. */
  lemma {:induction false} ReadEntriesMore(z: Zlib, body: Bytes, cursor: nat, n: nat, es: seq<PackEntry>, at: nat, e: PackEntry, next: nat)
    requires Bounded(z) && cursor <= |body| && at <= |body|
    requires ReadEntries(z, body, cursor, n) == Ok((es, at)) && ReadEntry(z, body, at) == Ok((e, next))
    ensures ReadEntries(z, body, cursor, n + 1) == Ok((es + [e], next))
    decreases n
  {
    hide ReadEntry;
    if n == 0 {
      assert ReadEntries(z, body, next, 0) == Ok(([], next));
      assert [e] + [] == es + [e];
    } else {
      var (first, c1) := ReadEntry(z, body, cursor).value;
      ReadEntriesMore(z, body, c1, n - 1, es[1..], at, e, next);
      assert [first] + (es[1..] + [e]) == es + [e];
    }
  }

  predicate Small(items: seq<Item>) {
    forall i :: 0 <= i < |items| ==> |items[i].Payload()| < TWO_TO_64
  }

  lemma LayoutStep(z: Zlib, items: seq<Item>, n: nat)
    requires WellBased(items) && n < |items|
    ensures WellBased(items[..n]) && WellBased(items[..n + 1])
    ensures var (bytes, starts) := Layout(z, items[..n]);
            && (items[n].OfsDelta? ==> items[n].base < |starts|)
            && Layout(z, items[..n + 1]) ==
               (bytes + ItemBytes(z, items[n], 12 + |bytes|, starts), starts + [12 + |bytes|])
  {
    assert items[..n + 1][..n] == items[..n];
  }

  lemma {:induction false} LayoutPrefix(z: Zlib, items: seq<Item>, n: nat)
    requires WellBased(items) && n <= |items|
    ensures WellBased(items[..n])
    ensures Layout(z, items[..n]).0 <= Layout(z, items).0
    ensures Layout(z, items[..n]).1 == Layout(z, items).1[..n]
    decreases |items|
  {
    hide Layout;
    if n == |items| {
      assert items[..n] == items;
    } else {
      var k := |items| - 1;
      LayoutPrefix(z, items[..k], n);
      assert items[..k][..n] == items[..n];
      LayoutStep(z, items, k);
      assert items[..k + 1] == items;
    }
  }

  lemma EntriesOfPrefix(z: Zlib, items: seq<Item>, n: nat)
    requires WellBased(items) && n <= |items|
    ensures WellBased(items[..n]) && EntriesOf(z, items[..n]) == EntriesOf(z, items)[..n]
  {
    hide Layout;
    LayoutPrefix(z, items, n);
    var es, fs := EntriesOf(z, items[..n]), EntriesOf(z, items)[..n];
    forall i | 0 <= i < n
      ensures es[i] == fs[i]
    {
      assert Layout(z, items[..n]).1[i] == Layout(z, items).1[i];
      if items[i].OfsDelta? { assert Layout(z, items[..n]).1[items[i].base] == Layout(z, items).1[items[i].base]; }
    }
  }

  /** Reading a serialised list of entries gives exactly these entries, each with
      its offset and its base. */
  lemma {:induction false} ReadLayout(z: Zlib, header: Bytes, items: seq<Item>, n: nat)
    requires Faithful(z) && WellBased(items) && Small(items) && n <= |items|
    requires |header| == 12 && 12 + |Layout(z, items).0| < TWO_TO_64
    ensures Bounded(z)
    ensures WellBased(items[..n]) &&
            ReadEntries(z, header + Layout(z, items).0, 12, n) == Ok((EntriesOf(z, items)[..n], 12 + |Layout(z, items[..n]).0|))
    decreases n
  {
    hide ReadEntry, ReadEntries, Layout, EntriesOf, Faithful, ItemBytes, EntryOf, Small;
    BoundedOfFaithful(z);
    if n == 0 {
      ReadNothing(z, header, items);
    } else {
      ReadLayout(z, header, items, n - 1);
      ReadOneMore(z, header, items, n - 1);
    }
  }

  lemma ReadNothing(z: Zlib, header: Bytes, items: seq<Item>)
    requires Bounded(z) && WellBased(items) && |header| == 12
    ensures WellBased(items[..0]) &&
            ReadEntries(z, header + Layout(z, items).0, 12, 0) == Ok((EntriesOf(z, items)[..0], 12 + |Layout(z, items[..0]).0|))
  {
    hide ReadEntries, Layout, EntriesOf;
    EmptyLayout(z);
    assert items[..0] == [];
    assert EntriesOf(z, items)[..0] == [];
    ReadNoEntries(z, header + Layout(z, items).0, 12);
  }

  /** The entry at place `k` is read behind those before it. */
  lemma ReadOneMore(z: Zlib, header: Bytes, items: seq<Item>, k: nat)
    requires Faithful(z) && WellBased(items) && Small(items) && k < |items|
    requires |header| == 12 && 12 + |Layout(z, items).0| < TWO_TO_64
    requires WellBased(items[..k]) && Bounded(z)
    requires ReadEntries(z, header + Layout(z, items).0, 12, k) == Ok((EntriesOf(z, items)[..k], 12 + |Layout(z, items[..k]).0|))
    ensures WellBased(items[..k + 1]) &&
            ReadEntries(z, header + Layout(z, items).0, 12, k + 1) ==
            Ok((EntriesOf(z, items)[..k + 1], 12 + |Layout(z, items[..k + 1]).0|))
  {
    hide ReadEntry, ReadEntries, Layout, EntriesOf, Faithful, EntryOf, WellBased, Small;
    ReadAt(z, header, items, k);
    LastEntry(z, items, k);
    var (bytes, starts) := Layout(z, items[..k]);
    ReadEntriesMore(z, header + Layout(z, items).0, 12, k, EntriesOf(z, items)[..k], 12 + |bytes|,
                    EntryOf(items[k], 12 + |bytes|, starts), 12 + |Layout(z, items[..k + 1]).0|);
  }

  /** What is read at the start of entry `k`. */
  lemma ReadAt(z: Zlib, header: Bytes, items: seq<Item>, k: nat)
    requires Faithful(z) && Bounded(z) && WellBased(items) && Small(items) && k < |items|
    requires |header| == 12 && 12 + |Layout(z, items).0| < TWO_TO_64
    ensures WellBased(items[..k]) && WellBased(items[..k + 1]) && (items[k].OfsDelta? ==> items[k].base < k)
    ensures var body, at := header + Layout(z, items).0, 12 + |Layout(z, items[..k]).0|;
            var next := 12 + |Layout(z, items[..k + 1]).0|;
            at <= |body| && next <= |body| &&
            ReadEntry(z, body, at) == Ok((EntryOf(items[k], at, Layout(z, items[..k]).1), next))
  {
    hide ReadEntry, Layout, Faithful, ItemBytes, EntryOf, WellBased;
    LayoutStep(z, items, k);
    var (bytes, starts) := Layout(z, items[..k]);
    LayoutPrefix(z, items, k + 1);
    StartsBound(z, items, k);
    ReadBehind(z, header + bytes, items[k], starts, header + Layout(z, items).0);
  }

  lemma ReadBehind(z: Zlib, before: Bytes, item: Item, starts: seq<nat>, body: Bytes)
    requires Faithful(z) && Bounded(z) && |before| < TWO_TO_64 && |item.Payload()| < TWO_TO_64
    requires item.OfsDelta? ==> item.base < |starts| && starts[item.base] <= |before|
    requires before + ItemBytes(z, item, |before|, starts) <= body
    ensures ReadEntry(z, body, |before|) == Ok((EntryOf(item, |before|, starts), |before + ItemBytes(z, item, |before|, starts)|))
  {
    hide ReadEntry, Faithful, ItemBytes, EntryOf;
    var mine := ItemBytes(z, item, |before|, starts);
    var rest := body[|before + mine|..];
    assert body == before + mine + rest;
    ReadEntryOfItem(z, before, item, starts, rest);
  }

  lemma StartsBound(z: Zlib, items: seq<Item>, k: nat)
    requires WellBased(items) && k < |items|
    ensures WellBased(items[..k]) && (items[k].OfsDelta? ==> items[k].base < k)
    ensures forall i :: 0 <= i < k ==> Layout(z, items[..k]).1[i] <= 12 + |Layout(z, items[..k]).0|
  {
    hide Layout;
  }

  lemma LastEntry(z: Zlib, items: seq<Item>, k: nat)
    requires WellBased(items) && k < |items|
    ensures WellBased(items[..k]) && (items[k].OfsDelta? ==> items[k].base < k)
    ensures EntriesOf(z, items)[..k + 1] ==
            EntriesOf(z, items)[..k] + [EntryOf(items[k], 12 + |Layout(z, items[..k]).0|, Layout(z, items[..k]).1)]
  {
    hide Layout;
    LayoutPrefix(z, items, k);
    LayoutPrefix(z, items, k + 1);
    LayoutStep(z, items, k);
    assert Layout(z, items).1[k] == Layout(z, items[..k + 1]).1[k];
  }

  lemma EmptyLayout(z: Zlib)
    ensures Layout(z, []) == ([], [])
  {
  }

  // ------------------------------------------------------ what it denotes

  /** The place of the last object with the id. */
  function PlaceOf(sha1: Sha1, objs: seq<GitObject>, oid: Oid): (r: Option<nat>)
    ensures r.Some? ==> r.value < |objs| && ObjectId(sha1, objs[r.value]) == oid
    ensures r.None? ==> forall o :: o in objs ==> ObjectId(sha1, o) != oid
  {
    if objs == [] then None
    else if ObjectId(sha1, objs[|objs| - 1]) == oid then Some(|objs| - 1)
    else PlaceOf(sha1, objs[..|objs| - 1], oid)
  }

  /** The object of one entry, given those before it. */
  function ObjectOf(sha1: Sha1, objs: seq<GitObject>, item: Item): Option<GitObject> {
    match item
    case Whole(o) => Some(o)
    case OfsDelta(b, delta) => if b < |objs| then Patched(objs[b], delta) else None
    case RefDelta(oid, delta) =>
      match PlaceOf(sha1, objs, oid)
      case Some(j) => Patched(objs[j], delta)
      case None => None
  }

  /** A delta keeps the kind of its base. */
  function Patched(base: GitObject, delta: Bytes): Option<GitObject> {
    match ApplyDelta(base.payload, delta)
    case Ok(payload) => Some(GitObject(base.kind, payload))
    case Err(_) => None
  }

  /** The objects the entries denote, from left to right. */
  function Denotes(sha1: Sha1, items: seq<Item>): (r: Option<seq<GitObject>>)
    ensures r.Some? ==> |r.value| == |items|
  {
    if items == [] then Some([])
    else
      var n := |items| - 1;
      match Denotes(sha1, items[..n])
      case None => None
      case Some(objs) =>
        match ObjectOf(sha1, objs, items[n])
        case Some(o) => Some(objs + [o])
        case None => None
  }

  lemma {:induction false} PlaceIsOid(sha1: Sha1, objs: seq<GitObject>, oid: Oid)
    ensures oid in OidsOf(sha1, objs) <==> PlaceOf(sha1, objs, oid).Some?
    ensures oid in OidsOf(sha1, objs) ==> OidsOf(sha1, objs)[oid] == PlaceOf(sha1, objs, oid).value
  {
    hide ObjectId;
    if objs != [] { PlaceIsOid(sha1, objs[..|objs| - 1], oid); }
  }

  /** Entries at increasing offsets are found by their own offset. */
  lemma {:induction false} OffsetFound(es: seq<PackEntry>, i: nat)
    requires i < |es| && Ascending(es)
    ensures es[i].offset in OffsetIndex(es) && OffsetIndex(es)[es[i].offset] == i
  {
  }

  lemma EntriesAscend(z: Zlib, items: seq<Item>)
    requires WellBased(items)
    ensures Ascending(EntriesOf(z, items))
  {
    hide Layout;
  }

  lemma NextObjectOfItem(sha1: Sha1, z: Zlib, items: seq<Item>, objs: seq<GitObject>, o: GitObject)
    requires WellBased(items) && |objs| < |items| && ObjectOf(sha1, objs, items[|objs|]) == Some(o)
    ensures NextObject(sha1, EntriesOf(z, items), objs) == Some(o)
  {
    hide Layout, EntriesOf, ApplyDelta, OffsetIndex, ObjectId, OidsOf;
    var es, n := EntriesOf(z, items), |objs|;
    var starts := Layout(z, items).1;
    assert es[n] == EntryOf(items[n], starts[n], starts);
    EntriesAscend(z, items);
    match items[n]
    case Whole(w) => assert FullKind(items[n].TypeNumber()) == Ok(w.kind);
    case OfsDelta(b, _) =>
      OffsetFound(es, b);
      assert es[b] == EntryOf(items[b], starts[b], starts);
    case RefDelta(oid, _) => PlaceIsOid(sha1, objs, oid);
  }

  lemma {:induction false} ItemsLeftToRight(sha1: Sha1, z: Zlib, items: seq<Item>, n: nat)
    requires WellBased(items) && n <= |items| && Denotes(sha1, items).Some?
    ensures LeftToRight(sha1, EntriesOf(z, items), n) == Some(Denotes(sha1, items).value[..n])
    decreases n
  {
    hide NextObject, EntriesOf, ObjectOf, WellBased, Denotes, LeftToRight;
    var all := Denotes(sha1, items).value;
    if n == 0 {
      NoneYet(sha1, EntriesOf(z, items));
      assert all[..0] == [];
    } else {
      ItemsLeftToRight(sha1, z, items, n - 1);
      DenotesNext(sha1, items, n - 1);
      NextObjectOfItem(sha1, z, items, all[..n - 1], all[n - 1]);
      LeftToRightNext(sha1, EntriesOf(z, items), all[..n - 1], all[n - 1]);
    }
  }

  lemma DenotesNext(sha1: Sha1, items: seq<Item>, k: nat)
    requires k < |items| && Denotes(sha1, items).Some?
    ensures var all := Denotes(sha1, items).value;
            all[..k + 1] == all[..k] + [all[k]] && ObjectOf(sha1, all[..k], items[k]) == Some(all[k])
  {
    hide ObjectOf;
    var all := Denotes(sha1, items).value;
    DenotesPrefix(sha1, items, k + 1);
    DenotesPrefix(sha1, items, k);
    assert items[..k + 1][..k] == items[..k];
    assert all[..k + 1][k] == all[k];
  }

  lemma {:induction false} DenotesPrefix(sha1: Sha1, items: seq<Item>, n: nat)
    requires n <= |items| && Denotes(sha1, items).Some?
    ensures Denotes(sha1, items[..n]) == Some(Denotes(sha1, items).value[..n])
    decreases |items|
  {
    hide ObjectOf;
    var all := Denotes(sha1, items).value;
    if n == |items| {
      assert items[..n] == items && all[..n] == all;
    } else {
      var k := |items| - 1;
      DenotesPrefix(sha1, items[..k], n);
      assert items[..k][..n] == items[..n];
      assert all[..k][..n] == all[..n];
    }
  }

  // ----------------------------------------------------------- round trip

  lemma {:induction false} BeFourRead(n: nat)
    requires n < TWO_TO_32
    ensures |Be(n, 4)| == 4 && FromBe(Be(n, 4)) == n
  {
    FromBeOfBe(n, 4);
  }

  /** Reading a serialised pack of version 2 or 3, whose deltas follow their bases,
      gives the objects that its entries denote. */
  lemma DeltaPackRoundTrip(sha1: Sha1, z: Zlib, version: nat, items: seq<Item>)
    requires Faithful(z) && WellBased(items) && Small(items)
    requires version == 2 || version == 3
    requires |items| < TWO_TO_32 && |PackOf(sha1, z, version, items)| < TWO_TO_64
    requires Denotes(sha1, items).Some?
    ensures Bounded(z) && ParsePack(sha1, z, PackOf(sha1, z, version, items)) == Ok(Packfile(version, Denotes(sha1, items).value))
  {
    hide Faithful, ReadEntries, ResolveAll, LeftToRight, Layout, FromBe, Be, EntriesOf, Denotes, Small;
    BoundedOfFaithful(z);
    BeFourRead(version);
    BeFourRead(|items|);
    var header := Ascii("PACK") + Be(version, 4) + Be(|items|, 4);
    var bytes := PackOf(sha1, z, version, items);
    PackParts(header, Be(version, 4), Be(|items|, 4), Layout(z, items).0, sha1, bytes);
    ReadLayout(z, header, items, |items|);
    assert items[..|items|] == items;
    EntriesResolve(sha1, z, items);
  }

  lemma PackParts(header: Bytes, version: Bytes, count: Bytes, entries: Bytes, sha1: Sha1, bytes: Bytes)
    requires |version| == |count| == 4 && header == Ascii("PACK") + version + count
    requires bytes == header + entries + sha1(header + entries)
    ensures |header| == 12 && |bytes| >= 32
    ensures bytes[..|bytes| - 20] == header + entries && bytes[|bytes| - 20..] == sha1(header + entries)
    ensures bytes[..4] == Ascii("PACK") && bytes[4..8] == version && bytes[8..12] == count
  {
  }

  lemma EntriesResolve(sha1: Sha1, z: Zlib, items: seq<Item>)
    requires WellBased(items) && Denotes(sha1, items).Some?
    ensures ResolveAll(sha1, EntriesOf(z, items)) == Ok(Denotes(sha1, items).value)
    ensures EntriesOf(z, items)[..|items|] == EntriesOf(z, items)
  {
    hide ResolveAll, LeftToRight, EntriesOf, Denotes;
    ItemsLeftToRight(sha1, z, items, |items|);
    OrderedResolves(sha1, EntriesOf(z, items));
    assert Denotes(sha1, items).value[..|items|] == Denotes(sha1, items).value;
  }

  // ------------------------------------------- everything that is accepted

  /** The bytes from `from` to `to` hold entry `e`: a header with its type and the
      size of its payload, the base reference of a delta, and a stream that inflates
      to the payload and ends there. */
  predicate Stored(z: Zlib, body: Bytes, from: nat, to: nat, e: PackEntry) {
    && from < to <= |body| && e.offset == from && e.kind < 8
    && ParseEntryHeader(body[from..]).Ok?
    && var (kind, size, used) := ParseEntryHeader(body[from..]).value;
       && e.kind == kind && |e.payload| == size && from + used <= to
       && (e.base == None <==> kind != 6 && kind != 7)
       && exists data :: from + used <= data < to && z.inflate(body[data..]) == Some((e.payload, to - data)) && HasBase(body, from, from + used, data, e)
  }

  /** The base reference between the header and the stream. */
  predicate HasBase(body: Bytes, start: nat, at: nat, data: nat, e: PackEntry)
    requires start <= at <= data <= |body|
  {
    match e.base
    case None => data == at
    case Some(WithOid(oid)) => e.kind == 7 && body[at..data] == oid
    case Some(AtOffset(offset)) =>
      e.kind == 6 && offset <= start && OffsetDistance(body[at..]) == Ok((start - offset, data - at))
  }

  /** An entry is read exactly where it is stored. */
  lemma ReadEntrySound(z: Zlib, body: Bytes, from: nat)
    requires Bounded(z) && from <= |body| && ReadEntry(z, body, from).Ok?
    ensures Stored(z, body, from, ReadEntry(z, body, from).value.1, ReadEntry(z, body, from).value.0)
  {
    hide ParseEntryHeader, OffsetDistance, Bounded;
    var (kind, size, used) := ParseEntryHeader(body[from..]).value;
    var (base, baseLen) := ReadBase(body[from + used..], kind, from).value;
    var data := from + used + baseLen;
    var (e, to) := ReadEntry(z, body, from).value;
    assert z.inflate(body[data..]) == Some((e.payload, to - data));
    assert body[from + used..][..baseLen] == body[from + used..data];
    assert HasBase(body, from, from + used, data, e);
  }

  /** The entries follow each other without gaps and fill the bytes from `from` to `to`. */
  predicate Tiled(z: Zlib, body: Bytes, es: seq<PackEntry>, from: nat, to: nat) {
    if es == [] then from == to
    else exists next :: from < next <= |body| && Stored(z, body, from, next, es[0]) && Tiled(z, body, es[1..], next, to)
  }

  lemma {:induction false} ReadEntriesSound(z: Zlib, body: Bytes, cursor: nat, count: nat)
    requires Bounded(z) && cursor <= |body| && ReadEntries(z, body, cursor, count).Ok?
    ensures var (es, last) := ReadEntries(z, body, cursor, count).value;
            |es| == count && Tiled(z, body, es, cursor, last)
    decreases count
  {
    hide ReadEntry, Stored, Bounded;
    if count > 0 {
      var (e, next) := ReadEntry(z, body, cursor).value;
      ReadEntrySound(z, body, cursor);
      ReadEntriesSound(z, body, next, count - 1);
      var rest := ReadEntries(z, body, next, count - 1).value.0;
      assert ([e] + rest)[1..] == rest;
    }
  }

  /** Whatever is accepted is a pack: magic, version 2 or 3, a count, that many
      entries that fill the body, the checksum of the body, and one object for each
      entry with a finite derivation. */
  lemma AcceptedIsPack(sha1: Sha1, z: Zlib, bytes: Bytes) returns (es: seq<PackEntry>)
    requires Bounded(z) && ParsePack(sha1, z, bytes).Ok?
    ensures |bytes| >= 32 && bytes[..4] == Ascii("PACK") && bytes[|bytes| - 20..] == sha1(bytes[..|bytes| - 20])
    ensures var pack := ParsePack(sha1, z, bytes).value;
            && (pack.version == 2 || pack.version == 3) && pack.version == FromBe(bytes[4..8])
            && |pack.objects| == |es| == FromBe(bytes[8..12])
            && Tiled(z, bytes[..|bytes| - 20], es, 12, |bytes| - 20)
            && forall i :: 0 <= i < |es| ==> Derivable(sha1, es, i, pack.objects[i])
  {
    hide ReadEntries, ResolveAll, FromBe, Tiled, Derivable, Bounded;
    var body := bytes[..|bytes| - 20];
    var count := FromBe(bytes[8..12]);
    es := ReadEntries(z, body, 12, count).value.0;
    ReadEntriesSound(z, body, 12, count);
    ResolutionSound(sha1, es);
  }
}
