/** gitmesh-network: the availability directory.  It keeps, for each segment, one
    record per shard, peer and index: the one of highest lease epoch, signed
    evidence before unsigned, the latest among equals. */
module Directory {
  import opened Prelude
  import opened Core
  import opened Network

  datatype Entry = Entry(provider: ProviderRecord, evidence: Option<Evidence>)

  type Records = map<Cid, seq<Entry>>

  /** Within one segment. */
  predicate SameKey(a: ProviderRecord, b: ProviderRecord) {
    a.shard.shardCid == b.shard.shardCid && a.peerId == b.peerId && a.shard.shardIndex == b.shard.shardIndex
  }

  predicate SameSlot(a: Entry, b: Entry) {
    a.provider.shard.segmentCid == b.provider.shard.segmentCid && SameKey(a.provider, b.provider)
  }

  /** The guards of `publish` and of `publish_verified_signed`. */
  predicate Replaces(e: Entry, x: Entry) {
    if e.evidence.Some? then e.provider.leaseEpoch >= x.provider.leaseEpoch
    else e.provider.leaseEpoch > x.provider.leaseEpoch || (e.provider.leaseEpoch == x.provider.leaseEpoch && x.evidence.None?)
  }

  predicate Publishable(r: ProviderRecord) { r.expiresAt != 0 && r.roles != {} }

  function FindKey(entries: seq<Entry>, r: ProviderRecord): (i: nat)
    ensures i <= |entries|
    ensures i < |entries| ==> SameKey(entries[i].provider, r)
    ensures forall j :: 0 <= j < i ==> !SameKey(entries[j].provider, r)
  {
    if entries == [] then 0
    else if SameKey(entries[0].provider, r) then 0
    else FindKey(entries[1..], r) + 1
  }

  function Place(entries: seq<Entry>, e: Entry): seq<Entry> {
    var i := FindKey(entries, e.provider);
    if i == |entries| then entries + [e]
    else if Replaces(e, entries[i]) then entries[i := e]
    else entries
  }

  function At(d: Records, segment: Cid): seq<Entry> {
    if segment in d then d[segment] else []
  }

  function Put(d: Records, e: Entry): Records {
    d[e.provider.shard.segmentCid := Place(At(d, e.provider.shard.segmentCid), e)]
  }

  // ------------------------------------------------------------ publishing

  datatype Attempt =
    | Unsigned(record: ProviderRecord)
    | Signed(record: ProviderRecord, evidence: Evidence, now: nat)

  /** The checks of `publish` and `publish_signed`. */
  function Admit(id: Identity, a: Attempt): Result<Entry, NetworkError> {
    match a
    case Unsigned(r) =>
      if !Publishable(r) then Err(InvalidProviderRecord) else Ok(Entry(r, None))
    case Signed(r, e, now) =>
      if !r.ActiveAt(now) then Err(ExpiredProviderRecord)
      else if !id.VerifyRecord(r, e) then Err(IdentityRejected)
      else if !Publishable(r) then Err(InvalidProviderRecord)
      else Ok(Entry(r, Some(e)))
  }

  function Published(id: Identity, d: Records, a: Attempt): Result<Records, NetworkError> {
    var e :- Admit(id, a);
    Ok(Put(d, e))
  }

  // --------------------------------------------------------------- queries

  function Live(entries: seq<Entry>, now: nat): (r: seq<Entry>)
    ensures forall x :: x in r <==> x in entries && x.provider.ActiveAt(now)
    ensures |r| <= |entries|
  {
    if entries == [] then []
    else if entries[0].provider.ActiveAt(now) then [entries[0]] + Live(entries[1..], now)
    else Live(entries[1..], now)
  }

  function Providers(entries: seq<Entry>): (r: seq<ProviderRecord>)
    ensures |r| == |entries|
    ensures forall i :: 0 <= i < |entries| ==> r[i] == entries[i].provider
  {
    seq(|entries|, i requires 0 <= i < |entries| => entries[i].provider)
  }

  /** `active_records_for_segment`. */
  function ActiveRecords(d: Records, segment: Cid, now: nat): seq<ProviderRecord> {
    Providers(Live(At(d, segment), now))
  }

  datatype Requirement = Requirement(minShards: nat, minOperators: nat, minRegions: nat)

  datatype Report = Report(active: nat, durable: nat, distinctShards: nat, qualified: nat,
                           distinctOperators: nat, distinctRegions: nat, requirement: Requirement)
  {
    /** `satisfies_requirement`. */
    predicate Satisfies() {
      && distinctShards >= requirement.minShards && qualified >= requirement.minShards
      && distinctOperators >= requirement.minOperators && distinctRegions >= requirement.minRegions
    }
  }

  function Durable(records: seq<ProviderRecord>): seq<ProviderRecord> {
    if records == [] then []
    else if records[0].CountsForDurability() then [records[0]] + Durable(records[1..])
    else Durable(records[1..])
  }

  function Places(records: seq<ProviderRecord>): set<nat> { set r | r in records :: r.shard.shardIndex }

  function Qualified(records: seq<ProviderRecord>): set<(nat, string)> { set r | r in records :: (r.shard.shardIndex, r.operatorId) }

  function Operators(records: seq<ProviderRecord>): set<string> { set r | r in records :: r.operatorId }

  function Regions(records: seq<ProviderRecord>): set<string> { set r | r in records :: r.region }

  function ReportOf(records: seq<ProviderRecord>, requirement: Requirement): Report {
    var durable := Durable(records);
    Report(|records|, |durable|, |Places(durable)|, |Qualified(durable)|, |Operators(durable)|, |Regions(durable)|, requirement)
  }

  /** `availability_report`. */
  function AvailabilityReport(d: Records, segment: Cid, now: nat, requirement: Requirement): Report {
    ReportOf(ActiveRecords(d, segment, now), requirement)
  }

  // --------------------------------------------------------------- pruning

  function Pruned(d: Records, now: nat): Records {
    map s | s in d && Live(d[s], now) != [] :: Live(d[s], now)
  }

  /** The places that pruning drops. */
  function Expired(d: Records, now: nat): set<(Cid, nat)> {
    set s, i | s in d && i in ExpiredIn(d[s], now) :: (s, i)
  }

  function ExpiredIn(entries: seq<Entry>, now: nat): set<nat> {
    set i | 0 <= i < |entries| && !entries[i].provider.ActiveAt(now)
  }

  lemma {:induction false} ExpiredInSize(entries: seq<Entry>, now: nat)
    ensures |ExpiredIn(entries, now)| == |entries| - |Live(entries, now)|
  {
    hide Live;
    NothingLive(now);
    if entries == [] {
      assert ExpiredIn(entries, now) == {};
    } else {
      var p, last := entries[..|entries| - 1], entries[|entries| - 1];
      assert entries == p + [last];
      ExpiredInSize(p, now);
      LivePush(p, last, now);
      if last.provider.ActiveAt(now) {
        assert ExpiredIn(entries, now) == ExpiredIn(p, now);
      } else {
        assert ExpiredIn(entries, now) == ExpiredIn(p, now) + {|p|};
      }
    }
  }

  function Tagged(s: Cid, places: set<nat>): set<(Cid, nat)> {
    set i | i in places :: (s, i)
  }

  lemma {:induction false} TaggedSize(s: Cid, places: set<nat>)
    ensures |Tagged(s, places)| == |places|
  {
    if places == {} {
      assert Tagged(s, places) == {};
    } else {
      var x :| x in places;
      TaggedSize(s, places - {x});
      assert Tagged(s, places) == Tagged(s, places - {x}) + {(s, x)};
    }
  }

  lemma ExpiredStep(d: Records, s: Cid, entries: seq<Entry>, now: nat)
    requires s !in d
    ensures |Expired(d[s := entries], now)| == |Expired(d, now)| + (|entries| - |Live(entries, now)|)
  {
    hide Live, ExpiredIn;
    var a, b := Expired(d, now), Tagged(s, ExpiredIn(entries, now));
    assert Expired(d[s := entries], now) == a + b;
    assert a * b == {};
    TaggedSize(s, ExpiredIn(entries, now));
    ExpiredInSize(entries, now);
  }

  lemma PrunedStep(d: Records, s: Cid, entries: seq<Entry>, now: nat)
    requires s !in d
    ensures Pruned(d[s := entries], now) ==
            if Live(entries, now) != [] then Pruned(d, now)[s := Live(entries, now)] else Pruned(d, now)
  {
    hide Live;
    var a, b := Pruned(d[s := entries], now), Pruned(d, now);
    var after := if Live(entries, now) != [] then b[s := Live(entries, now)] else b;
    forall t
      ensures t in a <==> t in after
      ensures t in a ==> a[t] == after[t]
    {
    }
  }

  // ------------------------------------------------ the directory, in place

  class AvailabilityDirectory {
    var records: Records

    constructor ()
      ensures records == map[]
    {
      records := map[];
    }

    constructor From(records: Records)
      ensures this.records == records
    {
      this.records := records;
    }

    method Publish(id: Identity, a: Attempt) returns (r: Result<(), NetworkError>)
      modifies this
      ensures match Published(id, old(records), a)
              case Ok(after) => r == Ok(()) && records == after
              case Err(e) => r == Err(e) && records == old(records)
    {
      hide Replaces, Admit, FindKey, SameKey;
      var admitted := Admit(id, a);
      if admitted.Err? { return Err(admitted.error); }
      var e := admitted.value;
      var segment := e.provider.shard.segmentCid;
      var entries := if segment in records then records[segment] else [];
      var i := Find(entries, e.provider);
      if i < |entries| {
        if Replaces(e, entries[i]) { entries := entries[i := e]; }
      } else {
        entries := entries + [e];
      }
      records := records[segment := entries];
      return Ok(());
    }

    /** The search loop of both publications. */
    static method Find(entries: seq<Entry>, r: ProviderRecord) returns (i: nat)
      ensures i == FindKey(entries, r)
    {
      hide SameKey;
      i := 0;
      while i < |entries| && !SameKey(entries[i].provider, r)
        invariant i <= |entries|
        invariant FindKey(entries, r) == i + FindKey(entries[i..], r)
      {
        assert entries[i..][1..] == entries[i + 1..];
        i := i + 1;
      }
    }

    method ActiveRecordsForSegment(segment: Cid, now: nat) returns (active: seq<ProviderRecord>)
      ensures active == ActiveRecords(records, segment, now)
    {
      hide Providers, Live;
      var entries := if segment in records then records[segment] else [];
      active := [];
      NothingLive(now);
      for i := 0 to |entries|
        invariant active == Providers(Live(entries[..i], now))
      {
        ProvidersStep(entries, i, now);
        if entries[i].provider.ActiveAt(now) {
          active := active + [entries[i].provider];
        }
      }
      assert entries[..|entries|] == entries;
    }

    method PruneExpired(now: nat) returns (removed: nat)
      modifies this
      ensures records == Pruned(old(records), now)
      ensures removed == |Expired(old(records), now)|
    {
      removed := 0;
      var todo := records.Keys;
      assert records - todo == map[];
      var kept: Records := map[];
      while todo != {}
        invariant todo <= records.Keys && records == old(records)
        invariant kept == Pruned(records - todo, now)
        invariant removed == |Expired(records - todo, now)|
        decreases |todo|
      {
        var segment :| segment in todo;
        hide Live;
        var live := Live(records[segment], now);
        assert (records - todo)[segment := records[segment]] == records - (todo - {segment});
        ExpiredStep(records - todo, segment, records[segment], now);
        PrunedStep(records - todo, segment, records[segment], now);
        removed := removed + (|records[segment]| - |live|);
        if live != [] { kept := kept[segment := live]; }
        todo := todo - {segment};
      }
      assert records - {} == records;
      records := kept;
    }
  }

  lemma ProvidersStep(entries: seq<Entry>, i: nat, now: nat)
    requires i < |entries|
    ensures Providers(Live(entries[..i + 1], now)) ==
            if entries[i].provider.ActiveAt(now) then Providers(Live(entries[..i], now)) + [entries[i].provider]
            else Providers(Live(entries[..i], now))
  {
    assert entries[..i + 1] == entries[..i] + [entries[i]];
    LivePush(entries[..i], entries[i], now);
  }

  lemma {:induction false} LivePush(entries: seq<Entry>, x: Entry, now: nat)
    ensures Live(entries + [x], now) == if x.provider.ActiveAt(now) then Live(entries, now) + [x] else Live(entries, now)
  {
    if entries == [] {
      assert [] + [x] == [x] && [x][1..] == [];
    } else {
      assert (entries + [x])[1..] == entries[1..] + [x];
      LivePush(entries[1..], x, now);
    }
  }

  lemma NothingLive(now: nat)
    ensures Live([], now) == [] && Providers([]) == []
  {
  }

  // -------------------------------------------------- one entry per key

  predicate DistinctKeys(entries: seq<Entry>) {
    forall i, j :: 0 <= i < j < |entries| ==> !SameKey(entries[i].provider, entries[j].provider)
  }

  /** Placing an entry drops exactly what it replaces and keeps keys distinct. */
  lemma PlaceMembers(entries: seq<Entry>, e: Entry)
    requires DistinctKeys(entries)
    ensures DistinctKeys(Place(entries, e))
    ensures forall x :: x in Place(entries, e) <==>
              (x in entries && !(SameKey(x.provider, e.provider) && Replaces(e, x))) ||
              (x == e && forall y :: y in entries && SameKey(y.provider, e.provider) ==> Replaces(e, y))
  {
    hide Replaces;
    var i := FindKey(entries, e.provider);
    var placed := Place(entries, e);
    if i < |entries| {
      assert forall y :: y in entries && SameKey(y.provider, e.provider) ==> y == entries[i];
      if Replaces(e, entries[i]) {
        assert placed[i] == e;
        assert forall k :: 0 <= k < |entries| && k != i ==> placed[k] == entries[k];
      }
    } else {
      assert forall k :: 0 <= k < |entries| ==> placed[k] == entries[k];
      assert placed[|entries|] == e;
    }
  }

  // -------------------------------------------------- the winner of a run

  /** The lease epoch first, signed evidence second. */
  function Rank(e: Entry): nat {
    2 * e.provider.leaseEpoch + if e.evidence.Some? then 1 else 0
  }

  lemma ReplacesIsRank(e: Entry, x: Entry)
    ensures Replaces(e, x) <==> Rank(x) <= Rank(e)
  {
  }

  function PutAll(es: seq<Entry>): Records {
    if es == [] then map[] else Put(PutAll(es[..|es| - 1]), es[|es| - 1])
  }

  /** No entry of the slot ranks higher, and none that ranks equal comes later. */
  predicate Winner(es: seq<Entry>, i: nat) {
    && i < |es|
    && forall j :: 0 <= j < |es| && SameSlot(es[i], es[j]) ==>
         if j <= i then Rank(es[j]) <= Rank(es[i]) else Rank(es[j]) < Rank(es[i])
  }

  lemma WinnerPrefix(p: seq<Entry>, e: Entry, i: nat)
    requires i < |p|
    ensures Winner(p + [e], i) <==> Winner(p, i) && !(SameSlot(p[i], e) && Rank(p[i]) <= Rank(e))
  {
    hide SameSlot, Rank;
    var es := p + [e];
    if Winner(es, i) {
      assert forall j :: 0 <= j < |p| ==> p[j] == es[j];
      assert es[|p|] == e;
    }
  }

  /** Every slot of a run has a winner at least as high as each of its entries. */
  lemma {:induction false} WinnerExists(es: seq<Entry>, j: nat) returns (i: nat)
    requires j < |es|
    ensures Winner(es, i) && SameSlot(es[i], es[j]) && Rank(es[j]) <= Rank(es[i])
  {
    hide Rank;
    var p, e := es[..|es| - 1], es[|es| - 1];
    assert es == p + [e];
    if j < |p| {
      i := WinnerExists(p, j);
      WinnerPrefix(p, e, i);
      if SameSlot(p[i], e) && Rank(p[i]) <= Rank(e) {
        LastWins(p, e, i);
        i := |p|;
      }
    } else if exists k :: 0 <= k < |p| && SameSlot(p[k], e) {
      var k :| 0 <= k < |p| && SameSlot(p[k], e);
      var w := WinnerExists(p, k);
      WinnerPrefix(p, e, w);
      if Rank(p[w]) <= Rank(e) {
        LastWins(p, e, w);
        i := |p|;
      } else {
        i := w;
      }
    } else {
      i := |p|;
    }
  }

  lemma LastWins(p: seq<Entry>, e: Entry, w: nat)
    requires Winner(p, w) && SameSlot(p[w], e) && Rank(p[w]) <= Rank(e)
    ensures Winner(p + [e], |p|)
  {
    hide Rank;
    var es := p + [e];
    forall j | 0 <= j < |es| && SameSlot(es[|p|], es[j])
      ensures Rank(es[j]) <= Rank(es[|p|])
    {
      if j < |p| { assert SameSlot(p[w], p[j]); }
    }
  }

  /** An entry of the run that wins its slot. */
  ghost predicate Wins(es: seq<Entry>, x: Entry) {
    exists i: nat :: i < |es| && Winner(es, i) && es[i] == x
  }

  lemma WinsStep(p: seq<Entry>, e: Entry, x: Entry)
    ensures Wins(p + [e], x) <==>
              (Wins(p, x) && !(SameSlot(x, e) && Rank(x) <= Rank(e))) ||
              (x == e && forall y :: Wins(p, y) && SameSlot(y, e) ==> Rank(y) <= Rank(e))
  {
    hide Rank, SameSlot, Winner;
    var es := p + [e];
    if Wins(es, x) {
      var i: nat :| i < |es| && Winner(es, i) && es[i] == x;
      if i < |p| {
        WinnerPrefix(p, e, i);
      } else {
        LastBeatsWinners(p, e);
      }
    }
    if Wins(p, x) && !(SameSlot(x, e) && Rank(x) <= Rank(e)) {
      var i: nat :| i < |p| && Winner(p, i) && p[i] == x;
      WinnerPrefix(p, e, i);
      assert Winner(es, i) && es[i] == x;
    }
    if x == e && forall y :: Wins(p, y) && SameSlot(y, e) ==> Rank(y) <= Rank(e) {
      BeatsWinnersWins(p, e);
      assert es[|p|] == e;
    }
  }

  lemma LastBeatsWinners(p: seq<Entry>, e: Entry)
    requires Winner(p + [e], |p|)
    ensures forall y :: Wins(p, y) && SameSlot(y, e) ==> Rank(y) <= Rank(e)
  {
    hide Rank;
    var es := p + [e];
    forall y | Wins(p, y) && SameSlot(y, e)
      ensures Rank(y) <= Rank(e)
    {
      var k: nat :| k < |p| && Winner(p, k) && p[k] == y;
      assert es[k] == y && SameSlot(es[|p|], es[k]);
    }
  }

  lemma BeatsWinnersWins(p: seq<Entry>, e: Entry)
    requires forall y :: Wins(p, y) && SameSlot(y, e) ==> Rank(y) <= Rank(e)
    ensures Winner(p + [e], |p|)
  {
    hide Rank;
    var es := p + [e];
    forall j | 0 <= j < |es| && SameSlot(es[|p|], es[j])
      ensures Rank(es[j]) <= Rank(es[|p|])
    {
      if j < |p| {
        var w := WinnerExists(p, j);
        assert Wins(p, p[w]);
      }
    }
  }

  predicate Filed(d: Records) {
    forall s :: s in d ==> DistinctKeys(d[s]) && d[s] != [] && forall x :: x in d[s] ==> x.provider.shard.segmentCid == s
  }

  predicate Holds(d: Records, x: Entry) {
    x in At(d, x.provider.shard.segmentCid)
  }

  lemma PutHolds(d: Records, e: Entry, x: Entry)
    requires Filed(d)
    ensures Filed(Put(d, e))
    ensures Holds(Put(d, e), x) <==>
              (Holds(d, x) && !(SameSlot(x, e) && Replaces(e, x))) ||
              (x == e && forall y :: Holds(d, y) && SameSlot(y, e) ==> Replaces(e, y))
  {
    hide Replaces, Place;
    var s := e.provider.shard.segmentCid;
    PlaceMembers(At(d, s), e);
    assert forall y :: y in At(d, s) && SameKey(y.provider, e.provider) <==> Holds(d, y) && SameSlot(y, e);
    assert Place(At(d, s), e) != [] by { PlaceNotEmpty(At(d, s), e); }
  }

  lemma PlaceNotEmpty(entries: seq<Entry>, e: Entry)
    ensures Place(entries, e) != []
  {
  }

  /** After any run of publications the directory holds, for each segment, shard,
      peer and index, exactly the winner of the run. */
  lemma {:induction false} DirectoryExact(es: seq<Entry>)
    ensures Filed(PutAll(es))
    ensures forall x :: Holds(PutAll(es), x) <==> Wins(es, x)
  {
    hide Wins, Replaces, Put, SameSlot, Rank;
    if es == [] {
      NothingWins();
    } else {
      var p, e := es[..|es| - 1], es[|es| - 1];
      assert es == p + [e];
      DirectoryExact(p);
      forall x
        ensures Holds(PutAll(es), x) <==> Wins(es, x)
      {
        PutHolds(PutAll(p), e, x);
        WinsStep(p, e, x);
        ReplacesIsRank(e, x);
        forall y
          ensures Replaces(e, y) <==> Rank(y) <= Rank(e)
        {
          ReplacesIsRank(e, y);
        }
      }
      PutHolds(PutAll(p), e, e);
    }
  }

  lemma NothingWins()
    ensures forall x :: !Wins([], x)
  {
  }

  // ------------------------------------------------------ runs of attempts

  function Run(id: Identity, attempts: seq<Attempt>): Records {
    if attempts == [] then map[]
    else
      var d := Run(id, attempts[..|attempts| - 1]);
      match Published(id, d, attempts[|attempts| - 1])
      case Ok(after) => after
      case Err(_) => d
  }

  /** The entries of the attempts that pass their checks. */
  function Admitted(id: Identity, attempts: seq<Attempt>): seq<Entry> {
    if attempts == [] then []
    else
      var es := Admitted(id, attempts[..|attempts| - 1]);
      match Admit(id, attempts[|attempts| - 1])
      case Ok(e) => es + [e]
      case Err(_) => es
  }

  /** Refused attempts leave no trace, so a run is the run of what it admits. */
  lemma {:induction false} RunExact(id: Identity, attempts: seq<Attempt>)
    ensures Run(id, attempts) == PutAll(Admitted(id, attempts))
    ensures Filed(Run(id, attempts))
    ensures forall x :: Holds(Run(id, attempts), x) <==> Wins(Admitted(id, attempts), x)
  {
    hide Admit, Put, Wins, Filed, Holds;
    DirectoryExact(Admitted(id, attempts));
    if attempts != [] {
      var p := attempts[..|attempts| - 1];
      RunExact(id, p);
      if Admit(id, attempts[|attempts| - 1]).Ok? {
        var e := Admit(id, attempts[|attempts| - 1]).value;
        assert (Admitted(id, p) + [e])[..|Admitted(id, p)|] == Admitted(id, p);
      }
    }
  }

  // -------------------------------------------------- order is irrelevant

  /** Entries of one slot with equal ranks are equal. */
  predicate NoTies(es: seq<Entry>) {
    forall i, j :: 0 <= i < j < |es| && SameSlot(es[i], es[j]) && Rank(es[i]) == Rank(es[j]) ==> es[i] == es[j]
  }

  ghost predicate Best(es: seq<Entry>, x: Entry) {
    x in es && forall y :: y in es && SameSlot(x, y) ==> Rank(y) <= Rank(x)
  }

  lemma WinsIsBest(es: seq<Entry>, x: Entry)
    requires NoTies(es)
    ensures Wins(es, x) <==> Best(es, x)
  {
    hide Rank;
    if Best(es, x) {
      var j: nat :| j < |es| && es[j] == x;
      var w := WinnerExists(es, j);
      assert es[w] in es;
      assert es[w] == x;
    }
  }

  /** Without ties, the order of publication does not matter. */
  lemma OrderIrrelevant(es: seq<Entry>, fs: seq<Entry>)
    requires multiset(es) == multiset(fs) && NoTies(es) && NoTies(fs)
    ensures forall x :: Holds(PutAll(es), x) <==> Holds(PutAll(fs), x)
    ensures forall s, now, q :: AvailabilityReport(PutAll(es), s, now, q) == AvailabilityReport(PutAll(fs), s, now, q)
  {
    hide Holds, Wins, PutAll, AvailabilityReport, NoTies;
    DirectoryExact(es);
    DirectoryExact(fs);
    SameMembers(es, fs);
    forall x
      ensures Holds(PutAll(es), x) <==> Holds(PutAll(fs), x)
    {
      WinsIsBest(es, x);
      WinsIsBest(fs, x);
      BestMembers(es, fs, x);
    }
    forall s, now, q
      ensures AvailabilityReport(PutAll(es), s, now, q) == AvailabilityReport(PutAll(fs), s, now, q)
    {
      SameReports(PutAll(es), PutAll(fs), s, now, q);
    }
  }

  lemma SameMembers(es: seq<Entry>, fs: seq<Entry>)
    requires multiset(es) == multiset(fs)
    ensures forall x :: x in es <==> x in fs
  {
    assert forall x :: x in es <==> x in multiset(es);
    assert forall x :: x in fs <==> x in multiset(fs);
  }

  lemma BestMembers(es: seq<Entry>, fs: seq<Entry>, x: Entry)
    requires forall x :: x in es <==> x in fs
    ensures Best(es, x) <==> Best(fs, x)
  {
  }

  predicate NoRepeats<T(==)>(s: seq<T>) {
    forall i, j :: 0 <= i < j < |s| ==> s[i] != s[j]
  }

  lemma {:induction false} NoRepeatsSize<T>(a: seq<T>, b: seq<T>)
    requires NoRepeats(a) && NoRepeats(b) && forall x :: x in a <==> x in b
    ensures |a| == |b|
  {
    MembersSize(a);
    MembersSize(b);
    assert (set x | x in a) == (set x | x in b);
  }

  lemma {:induction false} MembersSize<T>(a: seq<T>)
    requires NoRepeats(a)
    ensures |set x | x in a| == |a|
  {
    if a == [] {
      assert (set x | x in a) == {};
    } else {
      var p, last := a[..|a| - 1], a[|a| - 1];
      MembersSize(p);
      assert a == p + [last];
      assert last !in p;
      assert (set x | x in a) == (set x | x in p) + {last};
    }
  }

  lemma {:induction false} LiveDistinct(entries: seq<Entry>, now: nat)
    requires DistinctKeys(entries)
    ensures DistinctKeys(Live(entries, now))
  {
    if entries != [] {
      LiveDistinct(entries[1..], now);
      var rest := Live(entries[1..], now);
      assert forall k :: 0 <= k < |rest| ==> rest[k] in rest;
    }
  }

  lemma {:induction false} DurableMembers(records: seq<ProviderRecord>)
    ensures forall r :: r in Durable(records) <==> r in records && r.CountsForDurability()
  {
    if records != [] { DurableMembers(records[1..]); }
  }

  lemma {:induction false} DurableNoRepeats(records: seq<ProviderRecord>)
    requires NoRepeats(records)
    ensures NoRepeats(Durable(records))
  {
    if records != [] {
      DurableNoRepeats(records[1..]);
      DurableMembers(records[1..]);
      var rest := Durable(records[1..]);
      assert forall k :: 0 <= k < |rest| ==> rest[k] in rest;
      assert records[0] !in records[1..];
    }
  }

  /** A report counts, so it depends on which records there are and not on their order. */
  lemma ReportOfMembers(a: seq<ProviderRecord>, b: seq<ProviderRecord>, q: Requirement)
    requires NoRepeats(a) && NoRepeats(b) && forall r :: r in a <==> r in b
    ensures ReportOf(a, q) == ReportOf(b, q)
  {
    hide Durable, NoRepeats;
    DurableNoRepeats(a);
    DurableNoRepeats(b);
    DurableMembers(a);
    DurableMembers(b);
    var x, y := Durable(a), Durable(b);
    NoRepeatsSize(a, b);
    NoRepeatsSize(x, y);
    assert Places(x) == Places(y) && Qualified(x) == Qualified(y);
    assert Operators(x) == Operators(y) && Regions(x) == Regions(y);
  }

  lemma SameReports(d: Records, f: Records, s: Cid, now: nat, q: Requirement)
    requires Filed(d) && Filed(f) && forall x :: Holds(d, x) <==> Holds(f, x)
    ensures AvailabilityReport(d, s, now, q) == AvailabilityReport(f, s, now, q)
  {
    hide ReportOf, Live;
    var a, b := Live(At(d, s), now), Live(At(f, s), now);
    assert forall x :: x in At(d, s) <==> Holds(d, x) && x.provider.shard.segmentCid == s;
    assert forall x :: x in At(f, s) <==> Holds(f, x) && x.provider.shard.segmentCid == s;
    LiveDistinct(At(d, s), now);
    LiveDistinct(At(f, s), now);
    ProvidersMembers(a, b);
    ReportOfMembers(Providers(a), Providers(b), q);
  }

  lemma ProvidersMembers(a: seq<Entry>, b: seq<Entry>)
    requires DistinctKeys(a) && DistinctKeys(b) && forall x :: x in a <==> x in b
    ensures NoRepeats(Providers(a)) && NoRepeats(Providers(b))
    ensures forall r :: r in Providers(a) <==> r in Providers(b)
  {
    forall r
      ensures r in Providers(a) <==> r in Providers(b)
    {
      if r in Providers(a) {
        var i :| 0 <= i < |a| && Providers(a)[i] == r;
        assert a[i] in b;
        var j :| 0 <= j < |b| && b[j] == a[i];
        assert Providers(b)[j] == r;
      }
      if r in Providers(b) {
        var i :| 0 <= i < |b| && Providers(b)[i] == r;
        assert b[i] in a;
        var j :| 0 <= j < |a| && a[j] == b[i];
        assert Providers(a)[j] == r;
      }
    }
  }

  // --------------------------------------------------------------- pruning

  lemma {:induction false} LiveLive(entries: seq<Entry>, now: nat, later: nat)
    requires now <= later
    ensures Live(Live(entries, now), later) == Live(entries, later)
  {
    if entries != [] {
      LiveLive(entries[1..], now, later);
      if entries[0].provider.ActiveAt(now) {
        assert Live(entries, now)[1..] == Live(entries[1..], now);
      }
    }
  }

  /** Pruning at `now` is invisible to every query made at `now` or later. */
  lemma PruneInvisible(d: Records, s: Cid, now: nat, later: nat)
    requires now <= later
    ensures ActiveRecords(Pruned(d, now), s, later) == ActiveRecords(d, s, later)
    ensures forall q :: AvailabilityReport(Pruned(d, now), s, later, q) == AvailabilityReport(d, s, later, q)
  {
    hide Live, ReportOf, Providers;
    if s in d {
      LiveLive(d[s], now, later);
      NothingLive(later);
    }
  }

  /** What pruning forgets: afterwards a record is listed that the unpruned
      directory would have refused, exactly when an expired entry outranked it. */
  lemma PruneForgets(entries: seq<Entry>, e: Entry, now: nat, later: nat)
    requires DistinctKeys(entries) && now <= later && e.provider.ActiveAt(later) && e !in entries
    ensures (forall x :: x in Live(Place(Live(entries, now), e), later) <==> x in Live(Place(entries, e), later)) <==>
            !(exists y :: y in entries && SameKey(y.provider, e.provider) && !Replaces(e, y) && !y.provider.ActiveAt(now))
  {
    hide Replaces, Live, Place;
    LiveDistinct(entries, now);
    PlaceMembers(entries, e);
    PlaceMembers(Live(entries, now), e);
    var a, b := Live(Place(Live(entries, now), e), later), Live(Place(entries, e), later);
    if y :| y in entries && SameKey(y.provider, e.provider) && !Replaces(e, y) && !y.provider.ActiveAt(now) {
      UniqueKey(entries, y, e);
      assert e in a && e !in b;
    }
  }

  lemma UniqueKey(entries: seq<Entry>, y: Entry, e: Entry)
    requires DistinctKeys(entries) && y in entries && SameKey(y.provider, e.provider)
    ensures forall z :: z in entries && SameKey(z.provider, e.provider) ==> z == y
  {
  }

  // -------------------------------------------------------------- reports

  /** Each durable index comes with some operator, so the qualified count is never
      below the distinct count, and its test never decides. */
  lemma QualifiedNeverDecides(records: seq<ProviderRecord>, q: Requirement)
    ensures ReportOf(records, q).qualified >= ReportOf(records, q).distinctShards
    ensures ReportOf(records, q).Satisfies() <==>
            ReportOf(records, q).distinctShards >= q.minShards &&
            ReportOf(records, q).distinctOperators >= q.minOperators && ReportOf(records, q).distinctRegions >= q.minRegions
  {
    hide Durable;
    var durable := Durable(records);
    var pairs := Qualified(durable);
    var firsts := set p | p in pairs :: p.0;
    FirstsSize(pairs);
    forall r | r in durable
      ensures r.shard.shardIndex in firsts
    {
      assert (r.shard.shardIndex, r.operatorId) in pairs;
    }
    assert firsts == Places(durable);
  }

  lemma {:induction false} FirstsSize<A, B>(pairs: set<(A, B)>)
    ensures |set p | p in pairs :: p.0| <= |pairs|
  {
    if pairs == {} {
      assert (set p | p in pairs :: p.0) == {};
    } else {
      var x :| x in pairs;
      var rest := pairs - {x};
      FirstsSize(rest);
      var a, b := set p | p in pairs :: p.0, set p | p in rest :: p.0;
      assert a <= b + {x.0};
      SubsetSize(a, b + {x.0});
    }
  }

  /** The records of a segment that have not expired. */
  function Unexpired(entries: seq<Entry>, now: nat): set<ProviderRecord> {
    set e | e in entries && e.provider.expiresAt > now :: e.provider
  }

  function Storing(records: set<ProviderRecord>): set<ProviderRecord> {
    set r | r in records && StorageRole in r.roles
  }

  lemma NoRepeatsCount(records: seq<ProviderRecord>, members: set<ProviderRecord>)
    requires NoRepeats(records) && forall r :: r in records <==> r in members
    ensures |records| == |members|
  {
    MembersSize(records);
    assert (set r | r in records) == members;
  }

  /** The numbers of a report over a list without repeats. */
  lemma ReportCounts(records: seq<ProviderRecord>, members: set<ProviderRecord>, q: Requirement)
    requires NoRepeats(records) && forall r :: r in records <==> r in members
    ensures var storing := Storing(members);
            ReportOf(records, q) ==
            Report(|members|, |storing|, |set r | r in storing :: r.shard.shardIndex|,
                   |set r | r in storing :: (r.shard.shardIndex, r.operatorId)|,
                   |set r | r in storing :: r.operatorId|, |set r | r in storing :: r.region|, q)
  {
    hide Durable, NoRepeats;
    var durable, storing := Durable(records), Storing(members);
    DurableMembers(records);
    DurableNoRepeats(records);
    NoRepeatsCount(records, members);
    NoRepeatsCount(durable, storing);
    assert Places(durable) == set r | r in storing :: r.shard.shardIndex;
    assert Qualified(durable) == set r | r in storing :: (r.shard.shardIndex, r.operatorId);
    assert Operators(durable) == set r | r in storing :: r.operatorId;
    assert Regions(durable) == set r | r in storing :: r.region;
  }

  lemma UnexpiredMembers(entries: seq<Entry>, now: nat)
    requires DistinctKeys(entries)
    ensures NoRepeats(Providers(Live(entries, now)))
    ensures forall r :: r in Providers(Live(entries, now)) <==> r in Unexpired(entries, now)
  {
    hide Live;
    var live := Live(entries, now);
    LiveDistinct(entries, now);
    ProvidersMembers(live, live);
    forall r
      ensures r in Providers(live) <==> r in Unexpired(entries, now)
    {
      if r in Providers(live) {
        var i :| 0 <= i < |live| && Providers(live)[i] == r;
        assert live[i] in entries;
      }
      if r in Unexpired(entries, now) {
        var e :| e in entries && e.provider.expiresAt > now && e.provider == r;
        assert e in live;
        var i :| 0 <= i < |live| && live[i] == e;
        assert Providers(live)[i] == r;
      }
    }
  }

  /** An availability report, from the entries held: the unexpired records of the
      segment, those among them whose node has the storage role, and the distinct
      indices, operators and regions of these. */
  lemma ReportExact(d: Records, s: Cid, now: nat, q: Requirement)
    requires Filed(d)
    ensures var members := Unexpired(if s in d then d[s] else [], now);
            var storing := Storing(members);
            AvailabilityReport(d, s, now, q) ==
            Report(|members|, |storing|, |set r | r in storing :: r.shard.shardIndex|,
                   |set r | r in storing :: (r.shard.shardIndex, r.operatorId)|,
                   |set r | r in storing :: r.operatorId|, |set r | r in storing :: r.region|, q)
  {
    hide Live, ReportOf, Providers, NoRepeats;
    assert DistinctKeys(At(d, s));
    UnexpiredMembers(At(d, s), now);
    ReportCounts(ActiveRecords(d, s, now), Unexpired(At(d, s), now), q);
  }

  // ---------------------------------------------- publishing, field by field

  /** Which publications are admitted, and why the others are refused: signed
      evidence needs an unexpired record, a certificate whose identifiers are those
      of its keys, and a device signature over exactly this record. */
  lemma AdmitExact(id: Identity, a: Attempt)
    ensures var r := a.record;
            var genuine := a.Signed? ==>
              && var c := a.evidence.certificate;
                 && id.accountOf(c.accountKey) == Some(c.accountId) && id.deviceOf(c.deviceKey) == Some(c.deviceId)
                 && id.certified(c.accountKey, c.deviceKey, c.name, c.signature)
                 && id.signed(c.deviceKey, SigningTranscript(r), a.evidence.signature);
            var admitted := Admit(id, a);
            && (admitted == Err(ExpiredProviderRecord) <==> a.Signed? && r.expiresAt <= a.now)
            && (admitted == Err(IdentityRejected) <==> a.Signed? && r.expiresAt > a.now && !genuine)
            && (admitted == Err(InvalidProviderRecord) <==>
                  (a.Signed? ==> r.expiresAt > a.now) && genuine && (r.expiresAt == 0 || r.roles == {}))
            && (admitted == Ok(Entry(r, if a.Signed? then Some(a.evidence) else None)) <==>
                  (a.Signed? ==> r.expiresAt > a.now) && genuine && r.expiresAt > 0 && r.roles != {})
            && (admitted.Ok? ==> admitted.value.provider == r)
  {
    hide SigningTranscript;
  }

  predicate AtLeast(x: Entry, y: Entry) {
    || x.provider.leaseEpoch > y.provider.leaseEpoch
    || (x.provider.leaseEpoch == y.provider.leaseEpoch && (x.evidence.Some? || y.evidence.None?))
  }

  /** The same, over the fields: among the entries for one shard reference and one
      peer the directory holds the last of those with the highest lease epoch, and
      of these a signed one if there is any. */
  lemma DirectoryHoldsBest(es: seq<Entry>, x: Entry)
    ensures var d, s := PutAll(es), x.provider.shard.segmentCid;
            (s in d && x in d[s]) <==>
            exists i: nat :: i < |es| && es[i] == x &&
              forall j :: 0 <= j < |es| && es[j].provider.shard == x.provider.shard && es[j].provider.peerId == x.provider.peerId ==>
                if j <= i then AtLeast(x, es[j]) else !AtLeast(es[j], x)
  {
    hide PutAll;
    DirectoryExact(es);
    assert Holds(PutAll(es), x) <==> Wins(es, x);
    forall i: nat | i < |es| && es[i] == x
      ensures Winner(es, i) <==>
              forall j :: 0 <= j < |es| && es[j].provider.shard == x.provider.shard && es[j].provider.peerId == x.provider.peerId ==>
                if j <= i then AtLeast(x, es[j]) else !AtLeast(es[j], x)
    {
      assert forall j :: 0 <= j < |es| ==>
               (SameSlot(es[i], es[j]) <==> es[j].provider.shard == x.provider.shard && es[j].provider.peerId == x.provider.peerId);
      assert forall j :: 0 <= j < |es| ==> (Rank(es[j]) <= Rank(x) <==> AtLeast(x, es[j]));
      assert forall j :: 0 <= j < |es| ==> (Rank(x) <= Rank(es[j]) <==> AtLeast(es[j], x));
    }
  }

  /** Pruning keeps exactly the unexpired entries. */
  lemma PruneExact(d: Records, now: nat)
    requires Filed(d)
    ensures Filed(Pruned(d, now))
    ensures forall x: Entry :: (x.provider.shard.segmentCid in Pruned(d, now) && x in Pruned(d, now)[x.provider.shard.segmentCid]) <==>
              Holds(d, x) && x.provider.expiresAt > now
    ensures forall s, i :: (s, i) in Expired(d, now) <==> s in d && 0 <= i < |d[s]| && d[s][i].provider.expiresAt <= now
  {
    hide Live;
    forall s | s in Pruned(d, now)
      ensures DistinctKeys(Pruned(d, now)[s])
    {
      LiveDistinct(d[s], now);
    }
    forall x: Entry
      ensures (x.provider.shard.segmentCid in Pruned(d, now) && x in Pruned(d, now)[x.provider.shard.segmentCid]) <==>
              Holds(d, x) && x.provider.expiresAt > now
    {
    }
  }

  // ------------------------------------------------------------ coverage

  /** For the record's shard and peer the directory holds an entry of at least its claim. */
  ghost predicate Covers(d: Records, r: ProviderRecord) {
    exists x: Entry :: x in At(d, r.shard.segmentCid) && x.provider.shard == r.shard && x.provider.peerId == r.peerId && AtLeast(x, Entry(r, None))
  }

  lemma PutCovers(d: Records, e: Entry)
    requires Filed(d)
    ensures Filed(Put(d, e)) && Covers(Put(d, e), e.provider)
  {
    hide Put, At, Filed;
    PutHolds(d, e, e);
    if !Holds(Put(d, e), e) {
      var y :| Holds(d, y) && SameSlot(y, e) && !Replaces(e, y);
      PutHolds(d, e, y);
      assert y in At(Put(d, e), e.provider.shard.segmentCid);
    }
  }

  /** A later publication of the slot only raises the claim. */
  lemma PutKeepsCovered(d: Records, e: Entry, r: ProviderRecord)
    requires Filed(d) && Covers(d, r)
    ensures Covers(Put(d, e), r)
  {
    hide Put;
    var x: Entry :| x in At(d, r.shard.segmentCid) && x.provider.shard == r.shard && x.provider.peerId == r.peerId && AtLeast(x, Entry(r, None));
    assert Holds(d, x);
    PutHolds(d, e, x);
    if !Holds(Put(d, e), x) {
      PutHolds(d, e, e);
      UniqueSlot(d, x, e);
      assert e in At(Put(d, e), r.shard.segmentCid);
    }
  }

  lemma UniqueSlot(d: Records, x: Entry, e: Entry)
    requires Filed(d) && Holds(d, x) && SameSlot(x, e)
    ensures forall y :: Holds(d, y) && SameSlot(y, e) ==> y == x
  {
  }
}
