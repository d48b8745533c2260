/** gitmesh-repository: provider records for the shards of a stored object, and the
    availability report that a ref target must meet. */
module ObjectAvailability {
  import opened Prelude
  import opened Core
  import opened Erasure
  import opened GitOid
  import opened Network
  import opened Directory
  import opened ObjectStore

  // ---------------------------------------------------- local providers

  /** The record of the local node that holds a shard. */
  function LocalRecord(shard: Shard, leaseEpoch: nat, expiresAt: nat): Result<ProviderRecord, NetworkError> {
    var peer :- NewPeerId("v0-node-" + Dec(shard.index));
    var operator :- NewOperatorId("v0-operator-" + Dec(shard.index));
    NewProviderRecord(ShardRef(shard.segmentCid, shard.cid, shard.index), peer, operator,
                      if shard.index % 2 == 0 then "local-a" else "local-b", {StorageRole}, leaseEpoch, expiresAt)
  }

  function LocalRecords(shards: seq<Shard>, leaseEpoch: nat, expiresAt: nat): Result<seq<ProviderRecord>, NetworkError> {
    if shards == [] then Ok([])
    else
      match LocalRecords(shards[..|shards| - 1], leaseEpoch, expiresAt)
      case Err(e) => Err(e)
      case Ok(before) =>
        match LocalRecord(shards[|shards| - 1], leaseEpoch, expiresAt)
        case Err(e) => Err(e)
        case Ok(r) => Ok(before + [r])
  }

  /** Publishing stops at the first refusal; what went before it stays. */
  function PublishAll(id: Identity, d: Records, records: seq<ProviderRecord>): (Result<(), NetworkError>, Records) {
    if records == [] then (Ok(()), d)
    else
      var (before, d1) := PublishAll(id, d, records[..|records| - 1]);
      if before.Err? then (before, d1)
      else
        match Published(id, d1, Unsigned(records[|records| - 1]))
        case Err(e) => (Err(e), d1)
        case Ok(d2) => (Ok(()), d2)
  }

  /** `saturating_add(86_400)`. */
  function InADay(now: nat): nat {
    if now + 86400 < TWO_TO_64 then now + 86400 else TWO_TO_64 - 1
  }

  /** `publish_local_provider_records_for_object`. */
  function PublishLocal(id: Identity, d: Records, s: Objects, oid: Oid, now: nat): (Result<(), StoreError>, Records) {
    if oid !in s.stored then (Err(MissingObject(oid)), d)
    else
      match LocalRecords(s.stored[oid].shards, 1, InADay(now))
      case Err(e) => (Err(NetworkError(e)), d)
      case Ok(records) =>
        match PublishAll(id, d, records)
        case (Ok(_), after) => (Ok(()), after)
        case (Err(e), after) => (Err(NetworkError(e)), after)
  }

  method PublishLocalProviders(id: Identity, availability: AvailabilityDirectory, s: Objects, oid: Oid, now: nat)
    returns (r: Result<(), StoreError>)
    modifies availability
    ensures (r, availability.records) == PublishLocal(id, old(availability.records), s, oid, now)
  {
    hide LocalRecord, Published;
    if oid !in s.stored { return Err(MissingObject(oid)); }
    var records := LocalRecords(s.stored[oid].shards, 1, InADay(now));
    if records.Err? { return Err(NetworkError(records.error)); }
    for k := 0 to |records.value|
      invariant PublishAll(id, old(availability.records), records.value[..k]) == (Ok(()), availability.records)
    {
      assert records.value[..k + 1][..k] == records.value[..k];
      var published := availability.Publish(id, Unsigned(records.value[k]));
      if published.Err? {
        PublishFails(id, old(availability.records), records.value, k + 1);
        return Err(NetworkError(published.error));
      }
    }
    assert records.value[..|records.value|] == records.value;
    return Ok(());
  }

  lemma {:induction false} PublishFails(id: Identity, d: Records, records: seq<ProviderRecord>, k: nat)
    requires k <= |records| && PublishAll(id, d, records[..k]).0.Err?
    ensures PublishAll(id, d, records) == PublishAll(id, d, records[..k])
    decreases |records|
  {
    hide Published;
    if k < |records| {
      assert records[..|records| - 1][..k] == records[..k];
      PublishFails(id, d, records[..|records| - 1], k);
    } else {
      assert records[..k] == records;
    }
  }

  // -------------------------------------------------------------- report

  /** Evidence must name the object's segment, one of its shards, and an index in range. */
  predicate Evident(so: StoredObject, p: StoragePolicy, r: ProviderRecord) {
    r.shard.segmentCid == so.record.segmentCid && r.shard.shardCid in so.record.shardCids && r.shard.shardIndex < p.Total()
  }

  function Gathered(id: Identity, so: StoredObject, p: StoragePolicy, providers: seq<ProviderRecord>): Result<Records, StoreError> {
    if providers == [] then Ok(map[])
    else
      match Gathered(id, so, p, providers[..|providers| - 1])
      case Err(e) => Err(e)
      case Ok(d) =>
        var r := providers[|providers| - 1];
        if !Evident(so, p, r) then Err(InvalidAvailabilityEvidence)
        else
          match Published(id, d, Unsigned(r))
          case Err(e) => Err(NetworkError(e))
          case Ok(after) => Ok(after)
  }

  /** `object_availability_report`. */
  function ObjectReport(id: Identity, s: Objects, oid: Oid, providers: seq<ProviderRecord>, q: Requirement, now: nat): Result<Report, StoreError> {
    if oid !in s.stored then Err(MissingObject(oid))
    else
      match Gathered(id, s.stored[oid], s.policy, providers)
      case Err(e) => Err(e)
      case Ok(d) => Ok(AvailabilityReport(d, s.stored[oid].record.segmentCid, now, q))
  }

  lemma {:induction false} GatherFails(id: Identity, so: StoredObject, p: StoragePolicy, providers: seq<ProviderRecord>, k: nat)
    requires k <= |providers| && Gathered(id, so, p, providers[..k]).Err?
    ensures Gathered(id, so, p, providers) == Gathered(id, so, p, providers[..k])
    decreases |providers|
  {
    hide Published, Evident;
    if k < |providers| {
      assert providers[..|providers| - 1][..k] == providers[..k];
      GatherFails(id, so, p, providers[..|providers| - 1], k);
    } else {
      assert providers[..k] == providers;
    }
  }

  method ObjectAvailabilityReport(id: Identity, s: Objects, oid: Oid, providers: seq<ProviderRecord>, q: Requirement, now: nat)
    returns (r: Result<Report, StoreError>)
    ensures r == ObjectReport(id, s, oid, providers, q, now)
  {
    hide Published, Evident, AvailabilityReport;
    if oid !in s.stored { return Err(MissingObject(oid)); }
    var so := s.stored[oid];
    var directory := new AvailabilityDirectory();
    for k := 0 to |providers|
      invariant fresh(directory) && Gathered(id, so, s.policy, providers[..k]) == Ok(directory.records)
    {
      assert providers[..k + 1][..k] == providers[..k];
      if !Evident(so, s.policy, providers[k]) {
        GatherFails(id, so, s.policy, providers, k + 1);
        return Err(InvalidAvailabilityEvidence);
      }
      var published := directory.Publish(id, Unsigned(providers[k]));
      if published.Err? {
        GatherFails(id, so, s.policy, providers, k + 1);
        return Err(NetworkError(published.error));
      }
    }
    assert providers[..|providers|] == providers;
    return Ok(AvailabilityReport(directory.records, so.record.segmentCid, now, q));
  }
}
