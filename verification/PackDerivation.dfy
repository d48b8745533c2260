/** What delta resolution means: every resolved object has a finite derivation
    from full objects, cycles never resolve, and ordered packs always do. */
module PackDerivation {
  import opened Prelude
  import opened GitOid
  import opened GitObjects
  import opened PackDelta
  import opened PackResolve

  /** How one entry gets its object: it is full, or its delta applies to the
      object of a base that is itself derived. */
  datatype Derivation =
    | Full(index: nat, obj: GitObject)
    | Applied(index: nat, obj: GitObject, base: Derivation)

  /** Entry `j`, holding `o`, is a base that `ref` names. */
  predicate Serves(sha1: Sha1, es: seq<PackEntry>, ref: DeltaBase, j: nat, o: GitObject) {
    match ref
    case AtOffset(offset) => offset in OffsetIndex(es) && OffsetIndex(es)[offset] == j
    case WithOid(oid) => ObjectId(sha1, o) == oid
  }

  predicate Correct(sha1: Sha1, es: seq<PackEntry>, d: Derivation)
    decreases d
  {
    && d.index < |es|
    && match d
       case Full(i, o) =>
         es[i].base.None? && FullKind(es[i].kind) == Ok(o.kind) && o.payload == es[i].payload
       case Applied(i, o, b) =>
         && Correct(sha1, es, b)
         && es[i].base.Some? && Serves(sha1, es, es[i].base.value, b.index, b.obj)
         && o.kind == b.obj.kind && ApplyDelta(b.obj.payload, es[i].payload) == Ok(o.payload)
  }

  ghost predicate Derivable(sha1: Sha1, es: seq<PackEntry>, i: nat, o: GitObject) {
    exists d :: Correct(sha1, es, d) && d.index == i && d.obj == o
  }

  ghost predicate HasDerivation(sha1: Sha1, es: seq<PackEntry>, i: nat) {
    exists o :: Derivable(sha1, es, i, o)
  }

  // ------------------------------------------------------------ soundness

  /** Resolved entries are derivable and are no longer being resolved; the oid
      index points at resolved objects with that id. */
  ghost predicate Sound(sha1: Sha1, es: seq<PackEntry>, m: Memo) {
    && Shape(es, m)
    && (forall i :: 0 <= i < |es| && m.resolved[i].Some? ==>
          Derivable(sha1, es, i, m.resolved[i].value) && !m.resolving[i])
    && (forall h :: h in m.oids ==> m.resolved[m.oids[h]].Some?)
    && (forall h :: h in m.oids ==> ObjectId(sha1, m.resolved[m.oids[h]].value) == h)
  }

  lemma EnterSound(sha1: Sha1, es: seq<PackEntry>, m: Memo, i: nat)
    requires Sound(sha1, es, m) && i < |es| && m.resolved[i].None?
    ensures Sound(sha1, es, Enter(m, i))
  {
    hide Derivable;
  }

  lemma LeaveSound(sha1: Sha1, es: seq<PackEntry>, m: Memo, i: nat, o: GitObject)
    requires Sound(sha1, es, m) && i < |es| && Derivable(sha1, es, i, o)
    requires m.resolved[i].Some? ==> m.resolved[i].value == o
    ensures Sound(sha1, es, Leave(m, i, o))
  {
    hide Derivable;
  }

  /** The memo only grows: what is resolved stays. */
  predicate Grows(m: Memo, n: Memo) {
    && |m.resolved| == |n.resolved| == |m.resolving| == |n.resolving|
    && (forall i :: 0 <= i < |m.resolved| && m.resolved[i].Some? ==> n.resolved[i] == m.resolved[i])
    && (forall i :: 0 <= i < |m.resolved| && m.resolved[i].None? && m.resolving[i] ==>
          n.resolved[i].None? && n.resolving[i])
  }

  lemma FinishSound(sha1: Sha1, es: seq<PackEntry>, i: nat, j: nat, base: Result<GitObject, GitError>, m: Memo)
    requires Sound(sha1, es, m) && i < |es| && j < |es| && m.resolved[i].None? && es[i].base.Some?
    requires base.Ok? ==> m.resolved[j] == Some(base.value) && Serves(sha1, es, es[i].base.value, j, base.value)
    ensures Sound(sha1, es, Finish(es, i, base, m).1)
  {
    hide ApplyDelta, OffsetIndex, Canonical;
    var (r, n) := Finish(es, i, base, m);
    if r.Ok? {
      var d :| Correct(sha1, es, d) && d.index == j && d.obj == base.value;
      assert Correct(sha1, es, Applied(i, r.value, d));
      LeaveSound(sha1, es, m, i, r.value);
    }
  }

  lemma {:induction false} ResolveSound(sha1: Sha1, es: seq<PackEntry>, m: Memo, i: nat)
    requires Sound(sha1, es, m) && i < |es|
    ensures Sound(sha1, es, Resolve(sha1, es, m, i).1)
    ensures Grows(m, Resolve(sha1, es, m, i).1)
    decreases |Fresh(m)|, 0
  {
    hide Sound, Finish, ApplyDelta, OffsetIndex, Derivable, FullKind, Canonical, ObjectId;
    SoundShape(sha1, es, m);
    if m.resolved[i].None? && !m.resolving[i] {
      var m1 := Enter(m, i);
      FewerFresh(m, i, m1);
      EnterSound(sha1, es, m, i);
      match es[i].base {
        case None =>
          if FullKind(es[i].kind).Ok? {
            var o := GitObject(FullKind(es[i].kind).value, es[i].payload);
            assert Correct(sha1, es, Full(i, o));
            DerivableBy(sha1, es, Full(i, o));
            LeaveSound(sha1, es, m1, i, o);
          }
        case Some(AtOffset(offset)) =>
          if offset in OffsetIndex(es) {
            var j := OffsetIndex(es)[offset];
            ResolveSound(sha1, es, m1, j);
            var (base, m2) := Resolve(sha1, es, m1, j);
            FinishSound(sha1, es, i, j, base, m2);
            FinishGrows(es, i, base, m1, m2);
          }
        case Some(WithOid(oid)) =>
          if oid in m1.oids {
            var j := m1.oids[oid];
            SoundOid(sha1, es, m1, oid);
            ResolveSound(sha1, es, m1, j);
            var (base, m2) := Resolve(sha1, es, m1, j);
            FinishSound(sha1, es, i, j, base, m2);
            FinishGrows(es, i, base, m1, m2);
          } else {
            SearchSound(sha1, es, m1, oid, 0);
            var (found, m2) := Search(sha1, es, m1, oid, 0);
            if found.Some? {
              var j := found.value;
              SoundInsert(sha1, es, m2, oid, j);
              var m3 := m2.(oids := m2.oids[oid := j]);
              assert Fresh(m3) == Fresh(m2);
              SubsetSize(Fresh(m2), Fresh(m1));
              ResolveSound(sha1, es, m3, j);
              var (base, m4) := Resolve(sha1, es, m3, j);
              assert Grows(m1, m4);
              FinishSound(sha1, es, i, j, base, m4);
              FinishGrows(es, i, base, m1, m4);
            }
          }
      }
    }
  }

  lemma SoundShape(sha1: Sha1, es: seq<PackEntry>, m: Memo)
    requires Sound(sha1, es, m)
    ensures Shape(es, m)
  {
  }

  lemma DerivableBy(sha1: Sha1, es: seq<PackEntry>, d: Derivation)
    requires Correct(sha1, es, d)
    ensures Derivable(sha1, es, d.index, d.obj)
  {
  }

  lemma SoundOid(sha1: Sha1, es: seq<PackEntry>, m: Memo, oid: Oid)
    requires Sound(sha1, es, m) && oid in m.oids
    ensures m.oids[oid] < |es| == |m.resolved| && m.resolved[m.oids[oid]].Some?
    ensures ObjectId(sha1, m.resolved[m.oids[oid]].value) == oid
  {
    hide Derivable;
  }

  lemma SoundInsert(sha1: Sha1, es: seq<PackEntry>, m: Memo, oid: Oid, j: nat)
    requires Sound(sha1, es, m) && j < |es| && m.resolved[j].Some? && ObjectId(sha1, m.resolved[j].value) == oid
    ensures Sound(sha1, es, m.(oids := m.oids[oid := j]))
  {
    hide Derivable, ObjectId;
  }

  lemma FinishGrows(es: seq<PackEntry>, i: nat, base: Result<GitObject, GitError>, m1: Memo, m2: Memo)
    requires Shape(es, m2) && i < |es| && |m1.resolved| == |es| && Grows(m1, m2)
    requires m1.resolved[i].None? && m1.resolving[i]
    ensures var n := Finish(es, i, base, m2).1;
            && (forall k :: 0 <= k < |es| && m1.resolved[k].Some? ==> n.resolved[k] == m1.resolved[k])
            && (forall k :: 0 <= k < |es| && k != i && m1.resolved[k].None? && m1.resolving[k] ==>
                  n.resolved[k].None? && n.resolving[k])
  {
    hide ApplyDelta;
  }

  lemma {:induction false} SearchSound(sha1: Sha1, es: seq<PackEntry>, m: Memo, oid: Oid, from: nat)
    requires Sound(sha1, es, m) && from <= |es|
    ensures Sound(sha1, es, Search(sha1, es, m, oid, from).1)
    ensures Grows(m, Search(sha1, es, m, oid, from).1)
    decreases |Fresh(m)|, 1 + |es| - from
  {
    hide Sound, Resolve, ObjectId;
    SoundShape(sha1, es, m);
    if from < |es| {
      ResolveSound(sha1, es, m, from);
      var (r, m1) := Resolve(sha1, es, m, from);
      SubsetSize(Fresh(m1), Fresh(m));
      if !(r.Ok? && ObjectId(sha1, r.value) == oid) {
        SearchSound(sha1, es, m1, oid, from + 1);
      }
    }
  }

  lemma {:induction false} ResolveFromSound(sha1: Sha1, es: seq<PackEntry>, m: Memo, i: nat)
    requires Sound(sha1, es, m) && i <= |es| && ResolveFrom(sha1, es, m, i).Ok?
    ensures Sound(sha1, es, ResolveFrom(sha1, es, m, i).value)
    decreases |es| - i
  {
    hide Sound, Resolve, ObjectId;
    SoundShape(sha1, es, m);
    if i < |es| {
      ResolveSound(sha1, es, m, i);
      var (r, m1) := Resolve(sha1, es, m, i);
      SoundInsert(sha1, es, m1, ObjectId(sha1, r.value), i);
      ResolveFromSound(sha1, es, m1.(oids := m1.oids[ObjectId(sha1, r.value) := i]), i + 1);
    }
  }

  lemma StartSound(sha1: Sha1, es: seq<PackEntry>)
    ensures Sound(sha1, es, Start(|es|))
  {
  }

  /** Whenever resolution succeeds, every object has a finite derivation from
      full objects by delta application. */
  lemma ResolutionSound(sha1: Sha1, es: seq<PackEntry>)
    requires ResolveAll(sha1, es).Ok?
    ensures |ResolveAll(sha1, es).value| == |es|
    ensures forall i :: 0 <= i < |es| ==> Derivable(sha1, es, i, ResolveAll(sha1, es).value[i])
  {
    hide Derivable, Resolve, ResolveFrom, Start;
    StartSound(sha1, es);
    StartShape(es);
    ResolveFromSound(sha1, es, Start(|es|), 0);
  }

  lemma StartShape(es: seq<PackEntry>)
    ensures Shape(es, Start(|es|))
  {
  }

  // --------------------------------------------------------------- cycles

  /** Entries of `c` are offset deltas whose bases lie in `c` again. */
  predicate OffsetCycle(es: seq<PackEntry>, c: set<nat>) {
    forall i :: i in c ==>
      && i < |es| && es[i].base.Some? && es[i].base.value.AtOffset?
      && es[i].base.value.offset in OffsetIndex(es)
      && OffsetIndex(es)[es[i].base.value.offset] in c
  }

  lemma {:induction false} NoDerivationInCycle(sha1: Sha1, es: seq<PackEntry>, c: set<nat>, d: Derivation)
    requires OffsetCycle(es, c) && Correct(sha1, es, d)
    ensures d.index !in c
    decreases d
  {
    if d.Applied? { NoDerivationInCycle(sha1, es, c, d.base); }
  }

  /** Entries that are their own base, directly or through others, never resolve. */
  lemma CyclesNeverResolve(sha1: Sha1, es: seq<PackEntry>, c: set<nat>)
    requires c != {} && OffsetCycle(es, c)
    ensures ResolveAll(sha1, es).Err?
  {
    hide ResolveAll;
    if ResolveAll(sha1, es).Ok? {
      ResolutionSound(sha1, es);
      var i :| i in c;
      assert Derivable(sha1, es, i, ResolveAll(sha1, es).value[i]);
      var d :| Correct(sha1, es, d) && d.index == i && d.obj == ResolveAll(sha1, es).value[i];
      NoDerivationInCycle(sha1, es, c, d);
    }
  }

  // ---------------------------------------------------------- determinism

  predicate SmallPayloads(d: Derivation)
    decreases d
  {
    |d.obj.payload| < TWO_TO_64 && (d.Applied? ==> SmallPayloads(d.base))
  }

  function DerivedBytes(d: Derivation): set<Bytes>
    decreases d
  {
    {Canonical(d.obj)} + (if d.Applied? then DerivedBytes(d.base) else {})
  }

  /** The object of an entry does not depend on the order of the search: any two
      derivations agree, unless two canonical objects share a SHA-1. */
  lemma {:induction false} DerivationsAgree(sha1: Sha1, es: seq<PackEntry>, d: Derivation, e: Derivation)
    requires Correct(sha1, es, d) && Correct(sha1, es, e) && d.index == e.index
    requires SmallPayloads(d) && SmallPayloads(e)
    requires forall x, y :: x in DerivedBytes(d) && y in DerivedBytes(e) && sha1(x) == sha1(y) ==> x == y
    ensures d.obj == e.obj
    decreases d
  {
    hide Canonical, OffsetIndex, ApplyDelta, FullKind;
    if d.Applied? && e.Applied? {
      if es[d.index].base.value.AtOffset? {
        DerivationsAgree(sha1, es, d.base, e.base);
      } else {
        assert Canonical(d.base.obj) in DerivedBytes(d.base);
        assert Canonical(e.base.obj) in DerivedBytes(e.base);
        CanonicalInjective(d.base.obj, e.base.obj);
      }
    }
  }

  // ------------------------------------------- packs whose bases come first

  /** Object ids of a prefix; the last object with an id wins. */
  function OidsOf(sha1: Sha1, objs: seq<GitObject>): (r: map<Oid, nat>)
    ensures forall h :: h in r ==> r[h] < |objs|
  {
    if objs == [] then map[]
    else OidsOf(sha1, objs[..|objs| - 1])[ObjectId(sha1, objs[|objs| - 1]) := |objs| - 1]
  }

  /** The base of the next entry, looked for among the objects before it. */
  function EarlierBase(sha1: Sha1, es: seq<PackEntry>, objs: seq<GitObject>, ref: DeltaBase): Option<GitObject> {
    match ref
    case AtOffset(offset) =>
      if offset in OffsetIndex(es) && OffsetIndex(es)[offset] < |objs| then Some(objs[OffsetIndex(es)[offset]]) else None
    case WithOid(oid) =>
      if oid in OidsOf(sha1, objs) then Some(objs[OidsOf(sha1, objs)[oid]]) else None
  }

  function NextObject(sha1: Sha1, es: seq<PackEntry>, objs: seq<GitObject>): Option<GitObject>
    requires |objs| < |es|
  {
    var e := es[|objs|];
    match e.base
    case None =>
      (match FullKind(e.kind)
       case Ok(kind) => Some(GitObject(kind, e.payload))
       case Err(_) => None)
    case Some(ref) =>
      match EarlierBase(sha1, es, objs, ref)
      case None => None
      case Some(b) =>
        match ApplyDelta(b.payload, e.payload)
        case Ok(payload) => Some(GitObject(b.kind, payload))
        case Err(_) => None
  }

  /** One pass from left to right, for packs where every base precedes its delta. */
  function LeftToRight(sha1: Sha1, es: seq<PackEntry>, n: nat): (r: Option<seq<GitObject>>)
    requires n <= |es|
    ensures r.Some? ==> |r.value| == n
  {
    if n == 0 then Some([])
    else
      match LeftToRight(sha1, es, n - 1)
      case None => None
      case Some(objs) =>
        match NextObject(sha1, es, objs)
        case Some(o) => Some(objs + [o])
        case None => None
  }

  /** The memo after the first `|objs|` entries of an ordered pack. */
  predicate Prefix(sha1: Sha1, es: seq<PackEntry>, objs: seq<GitObject>, m: Memo) {
    && |m.resolved| == |m.resolving| == |es| && |objs| <= |es|
    && (forall i :: 0 <= i < |objs| ==> m.resolved[i] == Some(objs[i]))
    && (forall i :: |objs| <= i < |es| ==> m.resolved[i] == None)
    && (forall i :: 0 <= i < |es| ==> !m.resolving[i])
    && m.oids == OidsOf(sha1, objs)
  }

  lemma PrefixStep(sha1: Sha1, es: seq<PackEntry>, objs: seq<GitObject>, m: Memo, o: GitObject)
    requires Prefix(sha1, es, objs, m) && |objs| < |es| && Shape(es, m)
    requires NextObject(sha1, es, objs) == Some(o)
    ensures Resolve(sha1, es, m, |objs|).0 == Ok(o)
    ensures var m1 := Resolve(sha1, es, m, |objs|).1;
            Prefix(sha1, es, objs + [o], m1.(oids := m1.oids[ObjectId(sha1, o) := |objs|]))
  {
    hide ApplyDelta, ObjectId, FullKind;
    var i := |objs|;
    var m1 := Enter(m, i);
    FewerFresh(m, i, m1);
    assert (objs + [o])[..i] == objs;
    if es[i].base.Some? {
      var j := match es[i].base.value
               case AtOffset(offset) => OffsetIndex(es)[offset]
               case WithOid(oid) => OidsOf(sha1, objs)[oid];
      assert m1.resolved[j] == Some(objs[j]);
      assert Resolve(sha1, es, m1, j) == (Ok(objs[j]), m1);
    }
    assert Resolve(sha1, es, m, i) == (Ok(o), Leave(m1, i, o));
  }

  lemma {:induction false} LeftToRightPrefix(sha1: Sha1, es: seq<PackEntry>, n: nat, k: nat)
    requires k <= n <= |es| && LeftToRight(sha1, es, n).Some?
    ensures LeftToRight(sha1, es, k).Some?
    ensures LeftToRight(sha1, es, k).value == LeftToRight(sha1, es, n).value[..k]
  {
    hide NextObject;
    if k < n { LeftToRightPrefix(sha1, es, n - 1, k); }
  }

  lemma {:induction false} OrderedFrom(sha1: Sha1, es: seq<PackEntry>, m: Memo, objs: seq<GitObject>, all: seq<GitObject>)
    requires Prefix(sha1, es, objs, m) && Shape(es, m)
    requires LeftToRight(sha1, es, |es|) == Some(all) && LeftToRight(sha1, es, |objs|) == Some(objs)
    ensures ResolveFrom(sha1, es, m, |objs|).Ok?
    ensures ResolveFrom(sha1, es, m, |objs|).value.resolved == seq(|es|, i requires 0 <= i < |all| => Some(all[i]))
    decreases |es| - |objs|
  {
    hide Resolve, NextObject, ObjectId, OidsOf;
    var i := |objs|;
    if i == |es| {
      assert objs == all;
    } else {
      LeftToRightPrefix(sha1, es, |es|, i + 1);
      var o := NextObject(sha1, es, objs).value;
      PrefixStep(sha1, es, objs, m, o);
      var m1 := Resolve(sha1, es, m, i).1;
      OrderedFrom(sha1, es, m1.(oids := m1.oids[ObjectId(sha1, o) := i]), objs + [o], all);
    }
  }

  /** If every base precedes its delta and all deltas apply, resolution succeeds
      and gives the result of the single pass. */
  lemma OrderedResolves(sha1: Sha1, es: seq<PackEntry>)
    requires LeftToRight(sha1, es, |es|).Some?
    ensures ResolveAll(sha1, es) == Ok(LeftToRight(sha1, es, |es|).value)
  {
    hide ResolveFrom, NextObject, ObjectId, Start, Prefix, Collect;
    var all := LeftToRight(sha1, es, |es|).value;
    StartPrefix(sha1, es);
    OrderedFrom(sha1, es, Start(|es|), [], all);
    CollectAll(all);
  }

  lemma StartPrefix(sha1: Sha1, es: seq<PackEntry>)
    ensures Shape(es, Start(|es|)) && Prefix(sha1, es, [], Start(|es|))
  {
  }

  lemma CollectAll(all: seq<GitObject>)
    ensures Collect(seq(|all|, i requires 0 <= i < |all| => Some(all[i]))) == Ok(all)
  {
    var resolved := seq(|all|, i requires 0 <= i < |all| => Some(all[i]));
    assert Collect(resolved).value == all;
  }

  // --------------------------------------------- packs of offset deltas only

  predicate OffsetsOnly(es: seq<PackEntry>) {
    forall i :: 0 <= i < |es| && es[i].base.Some? ==> es[i].base.value.AtOffset?
  }

  /** Without REF_DELTA entries an index has at most one derivation. */
  lemma {:induction false} OffsetDerivationUnique(sha1: Sha1, es: seq<PackEntry>, d: Derivation, e: Derivation)
    requires OffsetsOnly(es) && Correct(sha1, es, d) && Correct(sha1, es, e) && d.index == e.index
    ensures d == e
    decreases d
  {
    hide ApplyDelta, OffsetIndex;
    if d.Applied? { OffsetDerivationUnique(sha1, es, d.base, e.base); }
  }

  predicate Uses(d: Derivation, i: nat)
    decreases d
  {
    d.index == i || (d.Applied? && Uses(d.base, i))
  }

  lemma {:induction false} UsesWithin(sha1: Sha1, es: seq<PackEntry>, d: Derivation, i: nat, whole: Derivation)
    requires OffsetsOnly(es) && Correct(sha1, es, d) && Correct(sha1, es, whole) && whole.index == i
    requires Uses(d, i)
    ensures d == whole || Depth(whole) < Depth(d)
    decreases d
  {
    hide ApplyDelta, OffsetIndex;
    if d.index == i {
      OffsetDerivationUnique(sha1, es, d, whole);
    } else {
      UsesWithin(sha1, es, d.base, i, whole);
    }
  }

  function Depth(d: Derivation): nat
    decreases d
  {
    if d.Applied? then 1 + Depth(d.base) else 0
  }

  /** Entries entered and not resolved. */
  predicate Stuck(m: Memo, i: nat) {
    i < |m.resolved| == |m.resolving| && m.resolved[i].None? && m.resolving[i]
  }

  /** An entry whose derivation avoids the stuck entries resolves, and leaves
      nothing new stuck. */
  lemma {:induction false} OffsetResolves(sha1: Sha1, es: seq<PackEntry>, m: Memo, d: Derivation)
    requires OffsetsOnly(es) && Sound(sha1, es, m) && Shape(es, m) && Correct(sha1, es, d)
    requires forall k :: Uses(d, k) ==> !Stuck(m, k)
    ensures Resolve(sha1, es, m, d.index).0 == Ok(d.obj)
    ensures forall k :: Stuck(Resolve(sha1, es, m, d.index).1, k) ==> Stuck(m, k)
    decreases d
  {
    hide Sound, ApplyDelta, OffsetIndex, Derivable, FullKind;
    var i := d.index;
    assert Uses(d, i);
    if m.resolved[i].Some? {
      SoundValue(sha1, es, m, i, d);
    } else {
      var m1 := Enter(m, i);
      FewerFresh(m, i, m1);
      EnterSound(sha1, es, m, i);
      if d.Applied? {
        var b := d.base;
        if Uses(b, i) { UsesWithin(sha1, es, b, i, d); }
        forall k | Uses(b, k)
          ensures !Stuck(m1, k)
        {
          assert Uses(d, k) && k != i;
        }
        OffsetResolves(sha1, es, m1, b);
        var m2 := Resolve(sha1, es, m1, b.index).1;
        assert Resolve(sha1, es, m, i) == Finish(es, i, Ok(b.obj), m2);
        assert Finish(es, i, Ok(b.obj), m2) == (Ok(d.obj), Leave(m2, i, d.obj));
        assert forall k :: Stuck(Leave(m2, i, d.obj), k) ==> k != i && Stuck(m2, k);
        assert forall k :: Stuck(m1, k) ==> k == i || Stuck(m, k);
      } else {
        assert Resolve(sha1, es, m, i) == (Ok(d.obj), Leave(m1, i, d.obj));
        assert forall k :: Stuck(Leave(m1, i, d.obj), k) ==> k != i && Stuck(m, k);
      }
    }
  }

  lemma SoundValue(sha1: Sha1, es: seq<PackEntry>, m: Memo, i: nat, d: Derivation)
    requires OffsetsOnly(es) && Sound(sha1, es, m) && i < |es| == |m.resolved| && m.resolved[i].Some?
    requires Correct(sha1, es, d) && d.index == i
    ensures m.resolved[i].value == d.obj
  {
    var e :| Correct(sha1, es, e) && e.index == i && e.obj == m.resolved[i].value;
    OffsetDerivationUnique(sha1, es, d, e);
  }

  lemma {:induction false} OffsetResolvesFrom(sha1: Sha1, es: seq<PackEntry>, m: Memo, i: nat)
    requires OffsetsOnly(es) && Sound(sha1, es, m) && Shape(es, m) && i <= |es|
    requires forall k :: 0 <= k < |es| ==> HasDerivation(sha1, es, k)
    requires forall k :: !Stuck(m, k)
    requires forall k :: 0 <= k < i ==> m.resolved[k].Some?
    ensures ResolveFrom(sha1, es, m, i).Ok?
    ensures forall k :: 0 <= k < |es| ==> ResolveFrom(sha1, es, m, i).value.resolved[k].Some?
    decreases |es| - i
  {
    hide Sound, Resolve, ObjectId, Correct;
    if i < |es| {
      assert HasDerivation(sha1, es, i);
      var o :| Derivable(sha1, es, i, o);
      var d :| Correct(sha1, es, d) && d.index == i && d.obj == o;
      OffsetResolves(sha1, es, m, d);
      ResolveSound(sha1, es, m, i);
      var m1 := Resolve(sha1, es, m, i).1;
      SoundInsert(sha1, es, m1, ObjectId(sha1, o), i);
      var m2 := m1.(oids := m1.oids[ObjectId(sha1, o) := i]);
      assert forall k :: Stuck(m2, k) ==> Stuck(m1, k);
      OffsetResolvesFrom(sha1, es, m2, i + 1);
    }
  }

  /** A pack without REF_DELTA entries resolves exactly when every entry has a
      derivation, in whatever order the entries come. */
  lemma OffsetPackExact(sha1: Sha1, es: seq<PackEntry>)
    requires OffsetsOnly(es)
    ensures ResolveAll(sha1, es).Ok? <==> forall i :: 0 <= i < |es| ==> HasDerivation(sha1, es, i)
  {
    hide ResolveFrom, Derivable, Sound;
    if ResolveAll(sha1, es).Ok? {
      ResolutionSound(sha1, es);
      forall i | 0 <= i < |es|
        ensures HasDerivation(sha1, es, i)
      {
        assert Derivable(sha1, es, i, ResolveAll(sha1, es).value[i]);
      }
    }
    if forall i :: 0 <= i < |es| ==> HasDerivation(sha1, es, i) {
      StartSound(sha1, es);
      OffsetResolvesFrom(sha1, es, Start(|es|), 0);
    }
  }

  // ------------------------------------ REF_DELTA search is not complete

  /** A REF_DELTA to the last entry, an OFS_DELTA to the first one, and a full blob. */
  function StuckPack(sha1: Sha1): seq<PackEntry> {
    [PackEntry(12, 7, [0, 0], Some(WithOid(ObjectId(sha1, GitObject(Blob, []))))),
     PackEntry(50, 6, [0, 0], Some(AtOffset(12))),
     PackEntry(70, 3, [], None)]
  }

  lemma EmptyDelta()
    ensures ApplyDelta([], [0, 0]) == Ok([])
  {
    ApplyDeltaOfInstrs([], []);
    assert PackVarintZero() + PackVarintZero() + InstrsBytes([]) == [0, 0];
  }

  function PackVarintZero(): Bytes { [0] }

  lemma StuckPackOffsets(sha1: Sha1)
    ensures OffsetIndex(StuckPack(sha1)) == map[12 := 0, 50 := 1, 70 := 2]
  {
    hide ObjectId;
    var es := StuckPack(sha1);
    assert es[..2][..1] == [es[0]] && es[..2][1] == es[1] && es[..1][..0] == [];
    assert OffsetIndex([es[0]][..0]) == map[];
    assert OffsetIndex([es[0]]) == map[12 := 0];
    assert OffsetIndex(es[..2]) == map[12 := 0, 50 := 1];
  }

  /** Every entry of this pack has a derivation and yet it is refused: while the
      first entry searches for its base, the second one is tried, fails because
      it depends on the first, and stays marked.  Putting the full object first
      makes the same entries resolve. */
  lemma ResolvablePackRefused(sha1: Sha1)
    ensures var es := StuckPack(sha1);
            && (forall i :: 0 <= i < |es| ==> Derivable(sha1, es, i, GitObject(Blob, [])))
            && ResolveAll(sha1, es) == Err(InvalidPackDelta)
            && ResolveAll(sha1, [es[2], es[0], es[1]]) == Ok([GitObject(Blob, []), GitObject(Blob, []), GitObject(Blob, [])])
  {
    StuckDerivable(sha1);
    StuckRefused(sha1);
    StuckReordered(sha1);
  }

  lemma StuckDerivable(sha1: Sha1)
    ensures forall i :: 0 <= i < 3 ==> Derivable(sha1, StuckPack(sha1), i, GitObject(Blob, []))
  {
    hide ObjectId, OffsetIndex, ApplyDelta;
    var es, o := StuckPack(sha1), GitObject(Blob, []);
    EmptyDelta();
    StuckPackOffsets(sha1);
    var d2 := Full(2, o);
    var d0 := Applied(0, o, d2);
    var d1 := Applied(1, o, d0);
    DerivableBy(sha1, es, d2);
    DerivableBy(sha1, es, d0);
    DerivableBy(sha1, es, d1);
  }

  lemma StuckRefused(sha1: Sha1)
    ensures ResolveAll(sha1, StuckPack(sha1)) == Err(InvalidPackDelta)
  {
    hide ObjectId, OffsetIndex, ApplyDelta;
    var es, o := StuckPack(sha1), GitObject(Blob, []);
    var oid := ObjectId(sha1, o);
    EmptyDelta();
    StuckPackOffsets(sha1);
    var m0 := Start(3);
    var m1 := Enter(m0, 0);
    assert Resolve(sha1, es, m1, 0) == (Err(InvalidPackDelta), m1);
    var m2 := Enter(m1, 1);
    assert Resolve(sha1, es, m2, 0) == (Err(InvalidPackDelta), m2);
    assert Resolve(sha1, es, m1, 1) == (Err(InvalidPackDelta), m2);
    var m3 := Leave(Enter(m2, 2), 2, o);
    assert Resolve(sha1, es, m2, 2) == (Ok(o), m3);
    assert Search(sha1, es, m2, oid, 2) == (Some(2), m3);
    assert Search(sha1, es, m1, oid, 1) == (Some(2), m3);
    assert Search(sha1, es, m1, oid, 0) == (Some(2), m3);
    var m4 := m3.(oids := m3.oids[oid := 2]);
    assert Resolve(sha1, es, m4, 2) == (Ok(o), m4);
    var m5 := Leave(m4, 0, o);
    assert Resolve(sha1, es, m0, 0) == (Ok(o), m5);
    var m6 := m5.(oids := m5.oids[oid := 0]);
    assert Resolve(sha1, es, m6, 1) == (Err(InvalidPackDelta), m6);
    assert ResolveFrom(sha1, es, m6, 1) == Err(InvalidPackDelta);
  }

  lemma LeftToRightNext(sha1: Sha1, es: seq<PackEntry>, objs: seq<GitObject>, o: GitObject)
    requires |objs| < |es| && LeftToRight(sha1, es, |objs|) == Some(objs) && NextObject(sha1, es, objs) == Some(o)
    ensures LeftToRight(sha1, es, |objs| + 1) == Some(objs + [o])
  {
    hide NextObject;
  }

  lemma StuckReordered(sha1: Sha1)
    ensures var es := StuckPack(sha1);
            var o := GitObject(Blob, []);
            ResolveAll(sha1, [es[2], es[0], es[1]]) == Ok([o, o, o])
  {
    hide ObjectId, ApplyDelta, ResolveAll, OffsetIndex, LeftToRight;
    var es0, o := StuckPack(sha1), GitObject(Blob, []);
    var es := [es0[2], es0[0], es0[1]];
    EmptyDelta();
    assert es[1].offset in OffsetIndex(es) && OffsetIndex(es)[12] == 1;
    NoneYet(sha1, es);
    assert NextObject(sha1, es, []) == Some(o);
    LeftToRightNext(sha1, es, [], o);
    assert [] + [o] == [o] && [o] + [o] == [o, o] && [o, o] + [o] == [o, o, o];
    assert [o][..0] == [];
    assert OidsOf(sha1, [o]) == map[ObjectId(sha1, o) := 0];
    assert NextObject(sha1, es, [o]) == Some(o);
    LeftToRightNext(sha1, es, [o], o);
    assert NextObject(sha1, es, [o, o]) == Some(o);
    LeftToRightNext(sha1, es, [o, o], o);
    OrderedResolves(sha1, es);
  }

  lemma NoneYet(sha1: Sha1, es: seq<PackEntry>)
    ensures LeftToRight(sha1, es, 0) == Some([])
  {
  }
}
