/** gitmesh-network: names, roles, node descriptors and shard provider records. */
module Network {
  import opened Prelude
  import opened Text
  import opened Core

  datatype NetworkError =
    | InvalidPeerId
    | InvalidOperatorId
    | InvalidRegion
    | InvalidNodeDescriptor
    | InvalidAvailabilityDirectory
    | InvalidProviderRecord
    | ExpiredProviderRecord
    | IdentityRejected
    | InvalidShardEnvelope
    | InvalidAuditChallenge
    | ShardIntegrity
    | UnknownPeer
    | UnsupportedRole
    | UnsupportedProtocol
    | ShardNotFound
    | InvalidNetworkTransaction
    | NetworkTransactionConflict
    | InsufficientStoragePeers
    | InvalidAvailabilityRequirement

  // --------------------------------------------------------------- names

  predicate NameChar(c: char) {
    'a' <= c <= 'z' || 'A' <= c <= 'Z' || '0' <= c <= '9' || c == '-' || c == '_'
  }

  predicate AllNameChars(value: string) {
    forall c :: c in value ==> NameChar(c)
  }

  predicate ValidPeerId(value: string) { value != [] && AllNameChars(value) }

  predicate ValidOperatorId(value: string) { value != [] && |value| <= 64 && AllNameChars(value) }

  predicate ValidRegion(value: string) { value != [] && |value| <= 32 && AllNameChars(value) }

  function NewPeerId(value: string): Result<string, NetworkError> {
    if ValidPeerId(value) then Ok(value) else Err(InvalidPeerId)
  }

  function NewOperatorId(value: string): Result<string, NetworkError> {
    if ValidOperatorId(value) then Ok(value) else Err(InvalidOperatorId)
  }

  function ValidateRegion(value: string): Result<string, NetworkError> {
    if ValidRegion(value) then Ok(value) else Err(InvalidRegion)
  }

  predicate InAlphabet(c: char) {
    c in "0123456789" || c in "abcdefghijklmnopqrstuvwxyz" || c in "ABCDEFGHIJKLMNOPQRSTUVWXYZ" || c in "-_"
  }

  lemma NameCharExact(c: char)
    ensures NameChar(c) <==> InAlphabet(c)
  {
    CharRange(c, '0', "0123456789");
    CharRange(c, 'a', "abcdefghijklmnopqrstuvwxyz");
    CharRange(c, 'A', "ABCDEFGHIJKLMNOPQRSTUVWXYZ");
  }

  /** Peers, operators and regions are named by one or more ASCII letters, digits,
      hyphens and underscores, operators by at most 64 and regions by at most 32. */
  lemma NamesExact(value: string)
    ensures var plain := value != [] && forall c :: c in value ==> InAlphabet(c);
            && NewPeerId(value) == (if plain then Ok(value) else Err(InvalidPeerId))
            && NewOperatorId(value) == (if plain && |value| <= 64 then Ok(value) else Err(InvalidOperatorId))
            && ValidateRegion(value) == (if plain && |value| <= 32 then Ok(value) else Err(InvalidRegion))
  {
    hide InAlphabet, NameChar;
    forall c: char
      ensures NameChar(c) <==> InAlphabet(c)
    {
      NameCharExact(c);
    }
  }

  /** A lease must not expire at zero, and the region must be a valid one. */
  lemma NewRecordExact(shard: ShardRef, peerId: string, operatorId: string, region: string, roles: set<Role>, leaseEpoch: nat, expiresAt: nat)
    ensures NewProviderRecord(shard, peerId, operatorId, region, roles, leaseEpoch, expiresAt) ==
            if expiresAt == 0 then Err(InvalidProviderRecord)
            else if !ValidRegion(region) then Err(InvalidRegion)
            else Ok(ProviderRecord(shard, peerId, operatorId, region, roles, leaseEpoch, expiresAt))
  {
    hide AllNameChars;
  }

  // --------------------------------------------------------------- roles

  datatype Role =
    | Client | Cache | StorageRole | Bootstrap | Relay | Dht | Gateway | Coordinator | RepairRole | Indexer | Runner
  {
    function Name(): string {
      match this
      case Client => "client"
      case Cache => "cache"
      case StorageRole => "storage"
      case Bootstrap => "bootstrap"
      case Relay => "relay"
      case Dht => "dht"
      case Gateway => "gateway"
      case Coordinator => "coordinator"
      case RepairRole => "repair"
      case Indexer => "indexer"
      case Runner => "runner"
    }
  }

  const ALL_ROLES: seq<Role> :=
    [Client, Cache, StorageRole, Bootstrap, Relay, Dht, Gateway, Coordinator, RepairRole, Indexer, Runner]

  function ParseRole(value: string): Result<Role, NetworkError> {
    if value == "client" then Ok(Client)
    else if value == "cache" then Ok(Cache)
    else if value == "storage" then Ok(StorageRole)
    else if value == "bootstrap" then Ok(Bootstrap)
    else if value == "relay" then Ok(Relay)
    else if value == "dht" then Ok(Dht)
    else if value == "gateway" then Ok(Gateway)
    else if value == "coordinator" then Ok(Coordinator)
    else if value == "repair" then Ok(RepairRole)
    else if value == "indexer" then Ok(Indexer)
    else if value == "runner" then Ok(Runner)
    else Err(InvalidNodeDescriptor)
  }

  lemma ParseRoleOfName(r: Role)
    ensures ParseRole(r.Name()) == Ok(r)
  {
  }

  lemma RoleNamePlain(r: Role)
    ensures ',' !in r.Name() && '\t' !in r.Name() && '\n' !in r.Name() && '\r' !in r.Name()
  {
  }

  /** The names of a role set, in the order the roles are declared. */
  function RoleNames(roles: set<Role>, all: seq<Role>): seq<string> {
    if all == [] then []
    else if all[0] in roles then [all[0].Name()] + RoleNames(roles, all[1..])
    else RoleNames(roles, all[1..])
  }

  function FormatRoles(roles: set<Role>): string {
    Join(RoleNames(roles, ALL_ROLES), ',')
  }

  function ParseRoleList(parts: seq<string>): Result<set<Role>, NetworkError> {
    if parts == [] then Ok({})
    else
      var first :- ParseRole(parts[0]);
      var rest :- ParseRoleList(parts[1..]);
      Ok({first} + rest)
  }

  function ParseRoles(value: string): Result<set<Role>, NetworkError> {
    if value == [] then Err(InvalidNodeDescriptor) else ParseRoleList(Split(value, ','))
  }

  function RolesListed(roles: set<Role>, all: seq<Role>): set<Role> {
    set r | r in roles && r in all
  }

  lemma {:induction false} ParseRoleNames(roles: set<Role>, all: seq<Role>)
    ensures ParseRoleList(RoleNames(roles, all)) == Ok(RolesListed(roles, all))
    ensures forall p :: p in RoleNames(roles, all) ==> ',' !in p && '\t' !in p && '\n' !in p && '\r' !in p
  {
    hide ParseRole;
    if all == [] {
      assert RolesListed(roles, all) == {};
    } else {
      ParseRoleNames(roles, all[1..]);
      ParseRoleOfName(all[0]);
      RoleNamePlain(all[0]);
      var names, rest := RoleNames(roles, all), RoleNames(roles, all[1..]);
      if all[0] in roles {
        assert names[0] == all[0].Name() && names[1..] == rest;
        assert RolesListed(roles, all) == {all[0]} + RolesListed(roles, all[1..]);
      } else {
        assert RolesListed(roles, all) == RolesListed(roles, all[1..]);
      }
    }
  }

  lemma AllRolesListed(r: Role)
    ensures r in ALL_ROLES
  {
    assert ALL_ROLES[0] == Client && ALL_ROLES[1] == Cache && ALL_ROLES[2] == StorageRole && ALL_ROLES[3] == Bootstrap;
    assert ALL_ROLES[4] == Relay && ALL_ROLES[5] == Dht && ALL_ROLES[6] == Gateway && ALL_ROLES[7] == Coordinator;
    assert ALL_ROLES[8] == RepairRole && ALL_ROLES[9] == Indexer && ALL_ROLES[10] == Runner;
  }

  /** A non-empty role set is read back from its text. */
  lemma ParseRolesOfFormat(roles: set<Role>)
    requires roles != {}
    ensures ParseRoles(FormatRoles(roles)) == Ok(roles)
    ensures '\t' !in FormatRoles(roles) && '\n' !in FormatRoles(roles) && '\r' !in FormatRoles(roles)
  {
    hide RoleNames, ParseRoleList;
    var names := RoleNames(roles, ALL_ROLES);
    ParseRoleNames(roles, ALL_ROLES);
    forall r: Role
      ensures r in ALL_ROLES
    {
      AllRolesListed(r);
    }
    assert RolesListed(roles, ALL_ROLES) == roles;
    if names == [] {
      assert ParseRoleList([]) == Ok({}) by { ParseRoleNames({}, []); NoRoles(); }
    } else {
      SplitJoin(names, ',');
      JoinLacks(names, ',', '\t');
      JoinLacks(names, ',', '\n');
      JoinLacks(names, ',', '\r');
      assert [] != FormatRoles(roles) by { FirstNameNotEmpty(roles, ALL_ROLES); }
    }
  }

  lemma FormatRolesInjective(a: set<Role>, b: set<Role>)
    requires FormatRoles(a) == FormatRoles(b)
    ensures a == b
  {
    hide FormatRoles, ParseRoles;
    if a != {} { ParseRolesOfFormat(a); }
    if b != {} { ParseRolesOfFormat(b); }
    if a == {} || b == {} { NoRolesNoText(); }
  }

  lemma NoRolesNoText()
    ensures FormatRoles({}) == []
    ensures ParseRoles([]).Err?
  {
    hide ParseRoleList;
    ParseRoleNames({}, ALL_ROLES);
    NoneNamed(ALL_ROLES);
  }

  lemma {:induction false} NoneNamed(all: seq<Role>)
    ensures RoleNames({}, all) == []
  {
    if all != [] { NoneNamed(all[1..]); }
  }

  lemma NoRoles()
    ensures ParseRoleList([]) == Ok({})
  {
  }

  lemma {:induction false} FirstNameNotEmpty(roles: set<Role>, all: seq<Role>)
    requires RoleNames(roles, all) != []
    ensures Join(RoleNames(roles, all), ',') != []
  {
    if all[0] !in roles { FirstNameNotEmpty(roles, all[1..]); }
  }

  // --------------------------------------------------------- descriptors

  datatype Protocol = PingV0 | AvailabilityV0 | ShardTransferV0

  datatype NodeDescriptor = NodeDescriptor(peerId: string, operatorId: string, roles: set<Role>, region: string, protocols: set<Protocol>) {
    /** What `NodeDescriptor::new` and the name constructors enforce. */
    predicate Valid() {
      ValidPeerId(peerId) && ValidOperatorId(operatorId) && ValidRegion(region) && roles != {} && protocols != {}
    }
  }

  // ------------------------------------------------------ shard provider

  datatype ShardRef = ShardRef(segmentCid: Cid, shardCid: Cid, shardIndex: nat)

  datatype ProviderRecord = ProviderRecord(shard: ShardRef, peerId: string, operatorId: string, region: string,
                                           roles: set<Role>, leaseEpoch: nat, expiresAt: nat)
  {
    predicate ActiveAt(now: nat) { expiresAt > now }

    predicate CountsForDurability() { StorageRole in roles }

    /** What the constructors and the machine types enforce. */
    predicate WellFormed() {
      && ValidPeerId(peerId) && ValidOperatorId(operatorId) && ValidRegion(region)
      && shard.shardIndex < TWO_TO_64 && leaseEpoch < TWO_TO_64 && expiresAt < TWO_TO_64
    }
  }

  /** `ProviderLease::new` and `ShardProviderRecord::new`. */
  function NewProviderRecord(shard: ShardRef, peerId: string, operatorId: string, region: string, roles: set<Role>,
                             leaseEpoch: nat, expiresAt: nat): Result<ProviderRecord, NetworkError>
  {
    if expiresAt == 0 then Err(InvalidProviderRecord)
    else
      var checked :- ValidateRegion(region);
      Ok(ProviderRecord(shard, peerId, operatorId, checked, roles, leaseEpoch, expiresAt))
  }

  /** The bytes a device signs to vouch for a record. */
  function SigningTranscript(r: ProviderRecord): Bytes {
    Field(Ascii("gitmesh.network.shard-provider-record.v0")) +
    (TextField(CidText(r.shard.segmentCid)) +
     (TextField(CidText(r.shard.shardCid)) +
      (Be(r.shard.shardIndex, 8) +
       (TextField(r.peerId) +
        (TextField(r.operatorId) +
         (TextField(r.region) +
          (TextField(FormatRoles(r.roles)) +
           (Be(r.leaseEpoch, 8) + Be(r.expiresAt, 8)))))))))
  }

  // ---------------------------------------------------- signed evidence

  type Bytes64 = b: Bytes | |b| == 64 witness seq(64, _ => 0)

  datatype Certificate = Certificate(accountId: Cid, deviceId: Cid, accountKey: Digest32, deviceKey: Digest32,
                                     name: string, signature: Bytes64)

  datatype Evidence = Evidence(certificate: Certificate, signature: Bytes64)

  /** The identity library: identifiers of well-formed keys, and signature checks
      of certificates and of messages. */
  datatype Identity = Identity(
    accountOf: Digest32 -> Option<Cid>,
    deviceOf: Digest32 -> Option<Cid>,
    certified: (Digest32, Digest32, string, Bytes64) -> bool,
    signed: (Digest32, Bytes, Bytes64) -> bool)
  {
    /** `DeviceCertificate::from_key_bytes`. */
    function FromKeyBytes(name: string, accountKey: Digest32, deviceKey: Digest32, signature: Bytes64): Result<Certificate, NetworkError> {
      match (accountOf(accountKey), deviceOf(deviceKey))
      case (Some(a), Some(d)) => Ok(Certificate(a, d, accountKey, deviceKey, name, signature))
      case _ => Err(IdentityRejected)
    }

    predicate VerifyCertificate(c: Certificate) {
      && accountOf(c.accountKey) == Some(c.accountId) && deviceOf(c.deviceKey) == Some(c.deviceId)
      && certified(c.accountKey, c.deviceKey, c.name, c.signature)
    }

    /** `SignedShardProviderRecord::verify_signature`. */
    predicate VerifyRecord(r: ProviderRecord, e: Evidence) {
      VerifyCertificate(e.certificate) && signed(e.certificate.deviceKey, SigningTranscript(r), e.signature)
    }
  }

  lemma RoleTextShort(roles: set<Role>)
    ensures Representable(FormatRoles(roles))
  {
    hide RoleNames;
    RoleNamesShort(roles, ALL_ROLES);
    ShortRepresentable(FormatRoles(roles));
  }

  lemma {:induction false} RoleNamesShort(roles: set<Role>, all: seq<Role>)
    ensures |Join(RoleNames(roles, all), ',')| <= 11 * |all| + |all|
  {
    if all != [] {
      RoleNamesShort(roles, all[1..]);
      if all[0] in roles {
        assert RoleNames(roles, all)[1..] == RoleNames(roles, all[1..]);
        assert |all[0].Name()| <= 11;
      }
    }
  }

  /** A signature speaks for one record only: the signed bytes determine every field. */
  lemma SigningTranscriptInjective(r: ProviderRecord, s: ProviderRecord)
    requires r.WellFormed() && s.WellFormed()
    requires Representable(r.peerId) && Representable(s.peerId)
    requires SigningTranscript(r) == SigningTranscript(s)
    ensures r == s
  {
    hide Be, Utf8, CidText, FormatRoles, TextField, Ascii, ParseRoles, Representable;
    var r7, s7 := Be(r.leaseEpoch, 8) + Be(r.expiresAt, 8), Be(s.leaseEpoch, 8) + Be(s.expiresAt, 8);
    var r6, s6 := TextField(FormatRoles(r.roles)) + r7, TextField(FormatRoles(s.roles)) + s7;
    var r5, s5 := TextField(r.region) + r6, TextField(s.region) + s6;
    var r4, s4 := TextField(r.operatorId) + r5, TextField(s.operatorId) + s5;
    var r3, s3 := TextField(r.peerId) + r4, TextField(s.peerId) + s4;
    var r2, s2 := Be(r.shard.shardIndex, 8) + r3, Be(s.shard.shardIndex, 8) + s3;
    var r1, s1 := TextField(CidText(r.shard.shardCid)) + r2, TextField(CidText(s.shard.shardCid)) + s2;
    var r0, s0 := TextField(CidText(r.shard.segmentCid)) + r1, TextField(CidText(s.shard.segmentCid)) + s1;
    ShortRepresentable(r.operatorId);
    ShortRepresentable(s.operatorId);
    ShortRepresentable(r.region);
    ShortRepresentable(s.region);
    LeadCancel(Field(Ascii("gitmesh.network.shard-provider-record.v0")), r0, s0);
    CidFieldCancel(r.shard.segmentCid, r1, s.shard.segmentCid, s1);
    CidFieldCancel(r.shard.shardCid, r2, s.shard.shardCid, s2);
    ConcatCancel(Be(r.shard.shardIndex, 8), r3, Be(s.shard.shardIndex, 8), s3);
    U64BeInjective(r.shard.shardIndex, s.shard.shardIndex);
    TextFieldCancel(r.peerId, r4, s.peerId, s4);
    TextFieldCancel(r.operatorId, r5, s.operatorId, s5);
    TextFieldCancel(r.region, r6, s.region, s6);
    RoleTextShort(r.roles);
    RoleTextShort(s.roles);
    TextFieldCancel(FormatRoles(r.roles), r7, FormatRoles(s.roles), s7);
    FormatRolesInjective(r.roles, s.roles);
    ConcatCancel(Be(r.leaseEpoch, 8), Be(r.expiresAt, 8), Be(s.leaseEpoch, 8), Be(s.expiresAt, 8));
    U64BeInjective(r.leaseEpoch, s.leaseEpoch);
    U64BeInjective(r.expiresAt, s.expiresAt);
  }
}
