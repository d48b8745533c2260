/** gitmesh-coordination: the epoch-versioned repository policy and its
    authorization of ref updates. */
module RepoPolicies {
  import opened Prelude
  import Core
  import opened RefModel

  datatype Policy = Policy(
    epoch: u64,
    requireSigned: bool,
    writerAccounts: set<string>,
    writerDevices: set<string>,
    forceAccounts: set<string>,
    forceDevices: set<string>,
    protectedRefs: set<string>)

  const DEFAULT_POLICY := Policy(0, false, {}, {}, {}, {}, {})

  datatype Actor = Unsigned | Signed(account: string, device: string)

  datatype PolicyError =
    | StalePolicyEpoch(expected: u64, actual: u64)
    | UnsignedRefUpdateDenied
    | RefUpdateNotAuthorized
    | ProtectedRefDenied

  /** `saturating_add(1)`. */
  function Bump(epoch: u64): u64 {
    if epoch + 1 < TWO_TO_64 then epoch + 1 else epoch
  }

  datatype Change =
    | RequireSigned(value: bool)
    | GrantWriterAccount(account: string)
    | GrantWriterDevice(device: string)
    | GrantForceAccount(account: string)
    | GrantForceDevice(device: string)
    | ProtectRef(refName: string)

  function WithRules(p: Policy, q: Policy): Policy {
    if q == p then p else q.(epoch := Bump(p.epoch))
  }

  /** A change bumps the epoch exactly when it changes a rule. */
  function Changed(p: Policy, c: Change): Policy {
    match c
    case RequireSigned(v) => WithRules(p, p.(requireSigned := v))
    case GrantWriterAccount(a) => WithRules(p, p.(writerAccounts := p.writerAccounts + {a}))
    case GrantWriterDevice(d) => WithRules(p, p.(writerDevices := p.writerDevices + {d}))
    case GrantForceAccount(a) => WithRules(p, p.(forceAccounts := p.forceAccounts + {a}))
    case GrantForceDevice(d) => WithRules(p, p.(forceDevices := p.forceDevices + {d}))
    case ProtectRef(r) => WithRules(p, p.(protectedRefs := p.protectedRefs + {r}))
  }

  predicate Restricted(p: Policy) {
    p.writerAccounts != {} || p.writerDevices != {}
  }

  predicate MayWrite(p: Policy, account: string, device: string) {
    !Restricted(p) || account in p.writerAccounts || device in p.writerDevices
  }

  predicate MayForce(p: Policy, account: string, device: string) {
    account in p.forceAccounts || device in p.forceDevices
  }

  /** A forced move or a deletion of a protected ref. */
  predicate Destructive(p: Policy, u: RefUpdate) {
    u.refName in p.protectedRefs && (u.force || u.newOid.None?)
  }

  /** `authorize_ref_update`. */
  function Authorize(p: Policy, u: RefUpdate, actor: Actor): Result<(), PolicyError> {
    if u.policyEpoch != p.epoch then Err(StalePolicyEpoch(p.epoch, u.policyEpoch))
    else
      match actor
      case Unsigned => if p.requireSigned || Restricted(p) then Err(UnsignedRefUpdateDenied) else Ok(())
      case Signed(account, device) =>
        if !MayWrite(p, account, device) then Err(RefUpdateNotAuthorized)
        else if Destructive(p, u) && !MayForce(p, account, device) then Err(ProtectedRefDenied)
        else Ok(())
  }

  class RepoPolicy {
    var epoch: u64
    var requireSigned: bool
    var writerAccounts: set<string>
    var writerDevices: set<string>
    var forceAccounts: set<string>
    var forceDevices: set<string>
    var protectedRefs: set<string>

    function State(): Policy
      reads this
    {
      Policy(epoch, requireSigned, writerAccounts, writerDevices, forceAccounts, forceDevices, protectedRefs)
    }

    constructor ()
      ensures State() == DEFAULT_POLICY
    {
      epoch, requireSigned := 0, false;
      writerAccounts, writerDevices, forceAccounts, forceDevices, protectedRefs := {}, {}, {}, {}, {};
    }

    method SetRequireSigned(value: bool)
      modifies this
      ensures State() == Changed(old(State()), RequireSigned(value))
    {
      if requireSigned != value { epoch := Bump(epoch); }
      requireSigned := value;
    }

    method AllowWriterAccount(account: string)
      modifies this
      ensures State() == Changed(old(State()), GrantWriterAccount(account))
    {
      assert account in writerAccounts ==> writerAccounts + {account} == writerAccounts;
      if account !in writerAccounts { epoch := Bump(epoch); }
      writerAccounts := writerAccounts + {account};
    }

    method AllowWriterDevice(device: string)
      modifies this
      ensures State() == Changed(old(State()), GrantWriterDevice(device))
    {
      assert device in writerDevices ==> writerDevices + {device} == writerDevices;
      if device !in writerDevices { epoch := Bump(epoch); }
      writerDevices := writerDevices + {device};
    }

    method AllowForceAccount(account: string)
      modifies this
      ensures State() == Changed(old(State()), GrantForceAccount(account))
    {
      assert account in forceAccounts ==> forceAccounts + {account} == forceAccounts;
      if account !in forceAccounts { epoch := Bump(epoch); }
      forceAccounts := forceAccounts + {account};
    }

    method AllowForceDevice(device: string)
      modifies this
      ensures State() == Changed(old(State()), GrantForceDevice(device))
    {
      assert device in forceDevices ==> forceDevices + {device} == forceDevices;
      if device !in forceDevices { epoch := Bump(epoch); }
      forceDevices := forceDevices + {device};
    }

    method Protect(refName: string)
      modifies this
      ensures State() == Changed(old(State()), ProtectRef(refName))
    {
      assert refName in protectedRefs ==> protectedRefs + {refName} == protectedRefs;
      if refName !in protectedRefs { epoch := Bump(epoch); }
      protectedRefs := protectedRefs + {refName};
    }
  }

  // ------------------------------------------------------------ properties

  function ChangedBy(p: Policy, cs: seq<Change>): Policy {
    if cs == [] then p else Changed(ChangedBy(p, cs[..|cs| - 1]), cs[|cs| - 1])
  }

  lemma {:induction false} EpochsAdvance(p: Policy, cs: seq<Change>)
    ensures p.epoch <= ChangedBy(p, cs).epoch
    ensures ChangedBy(p, cs).epoch == p.epoch ==> ChangedBy(p, cs) == p || p.epoch + 1 == TWO_TO_64
  {
    if cs != [] { EpochsAdvance(p, cs[..|cs| - 1]); }
  }

  /** An update that names the epoch of `p` is authorized after any run of changes
      only if the policy is still exactly `p`, unless the epoch is saturated. */
  lemma AuthorizedUnderThatPolicy(p: Policy, cs: seq<Change>, u: RefUpdate, actor: Actor)
    requires u.policyEpoch == p.epoch && p.epoch + 1 < TWO_TO_64
    requires Authorize(ChangedBy(p, cs), u, actor).Ok?
    ensures ChangedBy(p, cs) == p && Authorize(p, u, actor).Ok?
  {
    EpochsAdvance(p, cs);
  }

  /** Only force-pushers may force or delete a protected ref: this holds exactly
      for the policies that refuse unsigned updates, because an unsigned actor is
      let through before protected refs are looked at. */
  lemma ProtectionExact(p: Policy)
    ensures (forall u, actor :: Destructive(p, u) && Authorize(p, u, actor).Ok? ==>
               actor.Signed? && MayForce(p, actor.account, actor.device))
            <==> p.protectedRefs == {} || p.requireSigned || Restricted(p)
  {
    if p.protectedRefs != {} && !p.requireSigned && !Restricted(p) {
      var name :| name in p.protectedRefs;
      var u := SomeDeletion(name, p.epoch);
      assert Destructive(p, u) && Authorize(p, u, Unsigned).Ok?;
    }
  }

  function SomeDeletion(name: string, epoch: u64): RefUpdate {
    RefUpdate(Core.Cid(Core.ProtocolObject, seq(32, _ => 0)), name, None, None, false, epoch, "tx", "")
  }

  // ------------------------------------------------------------ who may write

  /** Authorization over the fields of the policy: the exact condition of each
      refusal and of acceptance. */
  lemma AuthorizeExact(p: Policy, u: RefUpdate, actor: Actor)
    ensures var r := Authorize(p, u, actor);
            var restricted := p.writerAccounts + p.writerDevices != {};
            var writer := actor.Signed? && (actor.account in p.writerAccounts || actor.device in p.writerDevices);
            var forcer := actor.Signed? && (actor.account in p.forceAccounts || actor.device in p.forceDevices);
            var guarded := u.refName in p.protectedRefs && (u.force || u.newOid == None);
            && (r == Err(StalePolicyEpoch(p.epoch, u.policyEpoch)) <==> u.policyEpoch != p.epoch)
            && (r == Err(UnsignedRefUpdateDenied) <==>
                  u.policyEpoch == p.epoch && actor == Unsigned && (p.requireSigned || restricted))
            && (r == Err(RefUpdateNotAuthorized) <==>
                  u.policyEpoch == p.epoch && actor != Unsigned && restricted && !writer)
            && (r == Err(ProtectedRefDenied) <==>
                  u.policyEpoch == p.epoch && actor != Unsigned && (restricted ==> writer) && guarded && !forcer)
            && (r == Ok(()) <==>
                  && u.policyEpoch == p.epoch
                  && (actor == Unsigned ==> !p.requireSigned && !restricted)
                  && (actor != Unsigned ==> (restricted ==> writer) && (guarded ==> forcer)))
  {
    assert p.writerAccounts + p.writerDevices != {} <==> p.writerAccounts != {} || p.writerDevices != {};
  }

  /** Whether the last of the changes to that rule requires signatures. */
  function SignedRequired(cs: seq<Change>): bool {
    if cs == [] then false
    else if cs[|cs| - 1].RequireSigned? then cs[|cs| - 1].value
    else SignedRequired(cs[..|cs| - 1])
  }

  /** The policy holds exactly what was granted, protected and last required. */
  ghost predicate Reflects(p: Policy, cs: seq<Change>) {
    && p.requireSigned == SignedRequired(cs)
    && (forall a :: a in p.writerAccounts <==> GrantWriterAccount(a) in cs)
    && (forall d :: d in p.writerDevices <==> GrantWriterDevice(d) in cs)
    && (forall a :: a in p.forceAccounts <==> GrantForceAccount(a) in cs)
    && (forall d :: d in p.forceDevices <==> GrantForceDevice(d) in cs)
    && (forall r :: r in p.protectedRefs <==> ProtectRef(r) in cs)
  }

  lemma ChangeReflects(p: Policy, cs: seq<Change>, c: Change)
    requires Reflects(p, cs)
    ensures Reflects(Changed(p, c), cs + [c])
  {
    hide SignedRequired;
    LastRequired(cs, c);
    var ds := cs + [c];
    assert forall x :: x in ds <==> x in cs || x == c;
    match c
    case RequireSigned(_) =>
    case GrantWriterAccount(_) =>
    case GrantWriterDevice(_) =>
    case GrantForceAccount(_) =>
    case GrantForceDevice(_) =>
    case ProtectRef(_) =>
  }

  lemma LastRequired(cs: seq<Change>, c: Change)
    ensures SignedRequired(cs + [c]) == if c.RequireSigned? then c.value else SignedRequired(cs)
  {
    assert (cs + [c])[..|cs|] == cs;
  }

  lemma {:induction false} GrantsExact(cs: seq<Change>)
    ensures Reflects(ChangedBy(DEFAULT_POLICY, cs), cs)
  {
    hide Changed;
    if cs != [] {
      hide Reflects;
      var n := |cs| - 1;
      GrantsExact(cs[..n]);
      ChangeReflects(ChangedBy(DEFAULT_POLICY, cs[..n]), cs[..n], cs[n]);
      assert cs == cs[..n] + [cs[n]];
    }
  }

  /** Change `i` of a run alters a rule: it flips the signature rule, or grants or
      protects something for the first time. */
  predicate Effective(cs: seq<Change>, i: nat) {
    i < |cs| && if cs[i].RequireSigned? then cs[i].value != SignedRequired(cs[..i]) else cs[i] !in cs[..i]
  }

  function EffectiveCount(cs: seq<Change>): nat {
    if cs == [] then 0
    else EffectiveCount(cs[..|cs| - 1]) + if Effective(cs, |cs| - 1) then 1 else 0
  }

  /** The epoch counts the changes that altered a rule, until it saturates. */
  lemma {:induction false} EpochCountsChanges(cs: seq<Change>)
    ensures ChangedBy(DEFAULT_POLICY, cs).epoch == if EffectiveCount(cs) < TWO_TO_64 then EffectiveCount(cs) else TWO_TO_64 - 1
  {
    if cs != [] {
      var n := |cs| - 1;
      var p, c := ChangedBy(DEFAULT_POLICY, cs[..n]), cs[n];
      EpochCountsChanges(cs[..n]);
      GrantsExact(cs[..n]);
      AltersExact(p, c);
    }
  }

  /** A change alters the policy exactly when what it asks for is not there yet. */
  lemma AltersExact(p: Policy, c: Change)
    ensures Changed(p, c) == p <==>
            match c
            case RequireSigned(v) => p.requireSigned == v
            case GrantWriterAccount(a) => a in p.writerAccounts
            case GrantWriterDevice(d) => d in p.writerDevices
            case GrantForceAccount(a) => a in p.forceAccounts
            case GrantForceDevice(d) => d in p.forceDevices
            case ProtectRef(r) => r in p.protectedRefs
    ensures Changed(p, c) != p ==> Changed(p, c).epoch == if p.epoch + 1 < TWO_TO_64 then p.epoch + 1 else p.epoch
  {
  }

  /** Who may write after any run of changes to a new repository's policy, from the
      changes alone: without writer grants every signer may, and an unsigned actor
      unless signatures are required; with them only an account or a device that
      was itself granted, and never an unsigned actor.  A protected ref is forced
      or deleted only by signers granted that, or by an unsigned actor let in. */
  lemma WritersAreGranted(cs: seq<Change>, u: RefUpdate, actor: Actor)
    requires u.policyEpoch == ChangedBy(DEFAULT_POLICY, cs).epoch
    ensures var open := forall c :: c in cs ==> !c.GrantWriterAccount? && !c.GrantWriterDevice?;
            Authorize(ChangedBy(DEFAULT_POLICY, cs), u, actor).Ok? <==>
              if actor == Unsigned then open && !SignedRequired(cs)
              else
                && (open || GrantWriterAccount(actor.account) in cs || GrantWriterDevice(actor.device) in cs)
                && (ProtectRef(u.refName) in cs && (u.force || u.newOid == None) ==>
                      GrantForceAccount(actor.account) in cs || GrantForceDevice(actor.device) in cs)
  {
    hide Authorize, ChangedBy, SignedRequired;
    var p := ChangedBy(DEFAULT_POLICY, cs);
    GrantsExact(cs);
    AuthorizeExact(p, u, actor);
    if p.writerAccounts + p.writerDevices != {} {
      var w :| w in p.writerAccounts + p.writerDevices;
      assert GrantWriterAccount(w) in cs || GrantWriterDevice(w) in cs;
    }
    forall c | c in cs && (c.GrantWriterAccount? || c.GrantWriterDevice?)
      ensures p.writerAccounts + p.writerDevices != {}
    {
      assert c.GrantWriterAccount? ==> c.account in p.writerAccounts;
      assert c.GrantWriterDevice? ==> c.device in p.writerDevices;
    }
  }
}
