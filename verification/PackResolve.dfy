/** gitmesh-git: the memoising delta resolver of a pack.  Entries are resolved on
    demand through recursion; `resolving` marks the entries whose body has been
    entered and has not succeeded. */
module PackResolve {
  import opened Prelude
  import opened GitOid
  import opened GitObjects
  import opened PackDelta

  type Sha1 = Bytes -> Oid

  datatype DeltaBase = AtOffset(offset: nat) | WithOid(oid: Oid)

  datatype PackEntry = PackEntry(offset: nat, kind: nat, payload: Bytes, base: Option<DeltaBase>)

  function ObjectId(sha1: Sha1, o: GitObject): Oid {
    sha1(Canonical(o))
  }

  /** `full_object_kind`. */
  function FullKind(code: nat): Result<Kind, GitError> {
    if code == 1 then Ok(Commit)
    else if code == 2 then Ok(Tree)
    else if code == 3 then Ok(Blob)
    else if code == 4 then Ok(Tag)
    else Err(UnsupportedPackObjectType(code))
  }

  /** The index of the entry at each offset; the last one wins. */
  function OffsetIndex(es: seq<PackEntry>): (m: map<nat, nat>)
    ensures forall o :: o in m ==> m[o] < |es| && es[m[o]].offset == o
    ensures forall i :: 0 <= i < |es| ==> es[i].offset in m && i <= m[es[i].offset]
  {
    if es == [] then map[] else OffsetIndex(es[..|es| - 1])[es[|es| - 1].offset := |es| - 1]
  }

  // ------------------------------------------------------------ the search

  datatype Memo = Memo(resolved: seq<Option<GitObject>>, resolving: seq<bool>, oids: map<Oid, nat>)

  predicate Shape(es: seq<PackEntry>, m: Memo) {
    |m.resolved| == |m.resolving| == |es| && forall h :: h in m.oids ==> m.oids[h] < |es|
  }

  /** Entries whose body can still run. */
  function Fresh(m: Memo): set<nat>
    requires |m.resolved| == |m.resolving|
  {
    set i | 0 <= i < |m.resolved| && m.resolved[i].None? && !m.resolving[i]
  }

  function Enter(m: Memo, i: nat): Memo
    requires i < |m.resolving|
  {
    m.(resolving := m.resolving[i := true])
  }

  function Leave(m: Memo, i: nat, o: GitObject): Memo
    requires i < |m.resolved| == |m.resolving|
  {
    m.(resolving := m.resolving[i := false], resolved := m.resolved[i := Some(o)])
  }

  /** Build entry `i` from the outcome of resolving its base. */
  function Finish(es: seq<PackEntry>, i: nat, base: Result<GitObject, GitError>, m: Memo):
      (r: (Result<GitObject, GitError>, Memo))
    requires Shape(es, m) && i < |es|
    ensures Shape(es, r.1) && (r.0.Ok? ==> r.1.resolved[i] == Some(r.0.value))
    ensures m.resolving[i] ==> Fresh(r.1) <= Fresh(m)
  {
    match base
    case Err(e) => (Err(e), m)
    case Ok(b) =>
      match ApplyDelta(b.payload, es[i].payload)
      case Err(e) => (Err(e), m)
      case Ok(payload) =>
        var o := GitObject(b.kind, payload);
        (Ok(o), Leave(m, i, o))
  }

  lemma FewerFresh(m: Memo, i: nat, n: Memo)
    requires |m.resolved| == |m.resolving| && |n.resolved| == |n.resolving|
    requires i in Fresh(m) && i !in Fresh(n) && Fresh(n) <= Fresh(m)
    ensures |Fresh(n)| < |Fresh(m)|
  {
    assert Fresh(n) <= Fresh(m) - {i};
    SubsetSize(Fresh(n), Fresh(m) - {i});
  }

  /** `resolve_pack_entry`. */
  function Resolve(sha1: Sha1, es: seq<PackEntry>, m: Memo, i: nat): (r: (Result<GitObject, GitError>, Memo))
    requires Shape(es, m) && i < |es|
    ensures Shape(es, r.1) && Fresh(r.1) <= Fresh(m)
    ensures r.0.Ok? ==> r.1.resolved[i] == Some(r.0.value)
    decreases |Fresh(m)|, 0
  {
    if m.resolved[i].Some? then (Ok(m.resolved[i].value), m)
    else if m.resolving[i] then (Err(InvalidPackDelta), m)
    else
      var m1 := Enter(m, i);
      FewerFresh(m, i, m1);
      match es[i].base
      case None =>
        (match FullKind(es[i].kind)
         case Err(e) => (Err(e), m1)
         case Ok(kind) =>
           var o := GitObject(kind, es[i].payload);
           (Ok(o), Leave(m1, i, o)))
      case Some(AtOffset(offset)) =>
        if offset !in OffsetIndex(es) then (Err(InvalidPackDelta), m1)
        else
          var (base, m2) := Resolve(sha1, es, m1, OffsetIndex(es)[offset]);
          FinishFresh(es, i, base, m2);
          Finish(es, i, base, m2)
      case Some(WithOid(oid)) =>
        if oid in m1.oids then
          var (base, m2) := Resolve(sha1, es, m1, m1.oids[oid]);
          FinishFresh(es, i, base, m2);
          Finish(es, i, base, m2)
        else
          var (found, m2) := Search(sha1, es, m1, oid, 0);
          SubsetSize(Fresh(m2), Fresh(m1));
          if found.None? then (Err(InvalidPackDelta), m2)
          else
            var m3 := m2.(oids := m2.oids[oid := found.value]);
            assert Fresh(m3) == Fresh(m2);
            var (base, m4) := Resolve(sha1, es, m3, found.value);
            FinishFresh(es, i, base, m4);
            Finish(es, i, base, m4)
  }

  lemma FinishFresh(es: seq<PackEntry>, i: nat, base: Result<GitObject, GitError>, m: Memo)
    requires Shape(es, m) && i < |es|
    ensures Fresh(Finish(es, i, base, m).1) <= Fresh(m)
  {
    hide ApplyDelta;
  }

  /** The `find_map` over all entries: the first one that resolves to `oid`. */
  function Search(sha1: Sha1, es: seq<PackEntry>, m: Memo, oid: Oid, from: nat): (r: (Option<nat>, Memo))
    requires Shape(es, m) && from <= |es|
    ensures Shape(es, r.1) && Fresh(r.1) <= Fresh(m)
    ensures r.0.Some? ==> r.0.value < |es| && r.1.resolved[r.0.value].Some? &&
                          ObjectId(sha1, r.1.resolved[r.0.value].value) == oid
    decreases |Fresh(m)|, 1 + |es| - from
  {
    if from == |es| then (None, m)
    else
      var (r, m1) := Resolve(sha1, es, m, from);
      SubsetSize(Fresh(m1), Fresh(m));
      if r.Ok? && ObjectId(sha1, r.value) == oid then (Some(from), m1)
      else Search(sha1, es, m1, oid, from + 1)
  }

  /** The main loop of `resolve_pack_entries` from entry `i` on. */
  function ResolveFrom(sha1: Sha1, es: seq<PackEntry>, m: Memo, i: nat): (r: Result<Memo, GitError>)
    requires Shape(es, m) && i <= |es|
    ensures r.Ok? ==> Shape(es, r.value)
    decreases |es| - i
  {
    if i == |es| then Ok(m)
    else
      var (r, m1) := Resolve(sha1, es, m, i);
      match r
      case Err(e) => Err(e)
      case Ok(o) => ResolveFrom(sha1, es, m1.(oids := m1.oids[ObjectId(sha1, o) := i]), i + 1)
  }

  function Start(n: nat): Memo {
    Memo(seq(n, _ => None), seq(n, _ => false), map[])
  }

  function Collect(resolved: seq<Option<GitObject>>): Result<seq<GitObject>, GitError> {
    if exists i :: 0 <= i < |resolved| && resolved[i].None? then Err(InvalidPackDelta)
    else Ok(seq(|resolved|, i requires 0 <= i < |resolved| && resolved[i].Some? => resolved[i].value))
  }

  /** `resolve_pack_entries`. */
  function ResolveAll(sha1: Sha1, es: seq<PackEntry>): Result<seq<GitObject>, GitError> {
    match ResolveFrom(sha1, es, Start(|es|), 0)
    case Err(e) => Err(e)
    case Ok(m) => Collect(m.resolved)
  }

  lemma OffsetInRange(es: seq<PackEntry>, offset: nat)
    requires offset in OffsetIndex(es)
    ensures OffsetIndex(es)[offset] < |es|
  {
  }

  // ------------------------------------------------- the search, in place

  class Resolver {
    const sha1: Sha1
    const entries: seq<PackEntry>
    const offsetIndex: map<nat, nat>
    var resolved: seq<Option<GitObject>>
    var resolving: seq<bool>
    var oidIndex: map<Oid, nat>
    /** The entries whose body has run, in order. */
    ghost var runs: seq<nat>

    function State(): Memo
      reads this
    {
      Memo(resolved, resolving, oidIndex)
    }

    /** A body runs only for a fresh entry, and leaves it fresh no more. */
    ghost predicate Valid()
      reads this
    {
      && Shape(entries, State()) && offsetIndex == OffsetIndex(entries)
      && (forall i, j :: 0 <= i < j < |runs| ==> runs[i] != runs[j])
      && (forall i :: 0 <= i < |runs| ==> runs[i] < |entries| && runs[i] !in Fresh(State()))
    }

    constructor (sha1: Sha1, entries: seq<PackEntry>)
      ensures Valid() && State() == Start(|entries|)
      ensures this.sha1 == sha1 && this.entries == entries
    {
      this.sha1, this.entries := sha1, entries;
      offsetIndex := OffsetIndex(entries);
      resolved, resolving := seq(|entries|, _ => None), seq(|entries|, _ => false);
      oidIndex, runs := map[], [];
    }

    /** Build the entry from its base and record it. */
    method FinishEntry(index: nat, base: Result<GitObject, GitError>) returns (r: Result<GitObject, GitError>)
      requires Valid() && index < |entries|
      modifies this`resolved, this`resolving
      ensures Valid()
      ensures (r, State()) == Finish(entries, index, base, old(State()))
    {
      hide ApplyDelta, OffsetIndex;
      FinishFresh(entries, index, base, State());
      if base.Err? { return Err(base.error); }
      var payload := ApplyPackDelta(base.value.payload, entries[index].payload);
      if payload.Err? { return Err(payload.error); }
      var obj := GitObject(base.value.kind, payload.value);
      resolving := resolving[index := false];
      resolved := resolved[index := Some(obj)];
      return Ok(obj);
    }

    method ResolveEntry(index: nat) returns (r: Result<GitObject, GitError>)
      requires Valid() && index < |entries|
      modifies this
      ensures Valid()
      ensures (r, State()) == Resolve(sha1, entries, old(State()), index)
      decreases |Fresh(State())|, 0
    {
      hide Finish, FullKind, OffsetIndex;
      if resolved[index].Some? {
        return Ok(resolved[index].value);
      }
      if resolving[index] {
        return Err(InvalidPackDelta);
      }
      ghost var before := State();
      resolving := resolving[index := true];
      runs := runs + [index];
      FewerFresh(before, index, State());
      var entry := entries[index];
      match entry.base {
        case None =>
          var kind := FullKind(entry.kind);
          if kind.Err? {
            return Err(kind.error);
          }
          var obj := GitObject(kind.value, entry.payload);
          ghost var built := State();
          resolving := resolving[index := false];
          resolved := resolved[index := Some(obj)];
          assert Fresh(State()) <= Fresh(built);
          return Ok(obj);
        case Some(AtOffset(offset)) =>
          if offset !in offsetIndex {
            return Err(InvalidPackDelta);
          }
          OffsetInRange(entries, offset);
          var base := ResolveEntry(offsetIndex[offset]);
          r := FinishEntry(index, base);
        case Some(WithOid(oid)) =>
          var baseIndex: nat;
          if oid in oidIndex {
            baseIndex := oidIndex[oid];
          } else {
            var found := FindWithOid(oid);
            if found.None? {
              return Err(InvalidPackDelta);
            }
            baseIndex := found.value;
            SubsetSize(Fresh(State()), Fresh(Enter(before, index)));
            ghost var searched := State();
            oidIndex := oidIndex[oid := baseIndex];
            assert Fresh(State()) == Fresh(searched);
          }
          var base := ResolveEntry(baseIndex);
          r := FinishEntry(index, base);
      }
    }

    method FindWithOid(oid: Oid) returns (found: Option<nat>)
      requires Valid()
      modifies this
      ensures Valid()
      ensures (found, State()) == Search(sha1, entries, old(State()), oid, 0)
      decreases |Fresh(State())|, 1
    {
      var candidate := 0;
      while candidate < |entries|
        invariant candidate <= |entries| && Valid()
        invariant Fresh(State()) <= Fresh(old(State()))
        invariant Search(sha1, entries, old(State()), oid, 0) == Search(sha1, entries, State(), oid, candidate)
      {
        SubsetSize(Fresh(State()), Fresh(old(State())));
        var r := ResolveEntry(candidate);
        if r.Ok? && ObjectId(sha1, r.value) == oid {
          return Some(candidate);
        }
        candidate := candidate + 1;
      }
      return None;
    }
  }

  method ResolvePackEntries(sha1: Sha1, entries: seq<PackEntry>) returns (r: Result<seq<GitObject>, GitError>)
    ensures r == ResolveAll(sha1, entries)
  {
    hide Resolve, OffsetIndex, Search;
    var resolver := new Resolver(sha1, entries);
    for index := 0 to |entries|
      invariant resolver.Valid() && resolver.sha1 == sha1 && resolver.entries == entries
      invariant fresh(resolver)
      invariant ResolveFrom(sha1, entries, Start(|entries|), 0) == ResolveFrom(sha1, entries, resolver.State(), index)
    {
      var obj := resolver.ResolveEntry(index);
      if obj.Err? {
        return Err(obj.error);
      }
      ghost var m := resolver.State();
      resolver.oidIndex := resolver.oidIndex[ObjectId(sha1, obj.value) := index];
      assert Fresh(resolver.State()) == Fresh(m);
    }
    return Collect(resolver.resolved);
  }
}
