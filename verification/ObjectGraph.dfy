/** gitmesh-repository: walks over the object graph.  A view gives, for every
    stored object, what its record says and what reading it back yields. */
module ObjectGraph {
  import opened Prelude
  import opened GitOid
  import opened GitObjects

  datatype Node = Node(kind: Kind, durable: bool, stored: Option<GitObject>)

  type View = map<Oid, Node>

  datatype GraphError =
    | MissingObject(oid: Oid)
    | ObjectNotDurable(oid: Oid)
    | Unreadable(oid: Oid)
    | Malformed(error: GitError)
    | InvalidRefTarget(oid: Oid, expected: Kind, actual: Kind)
    | NonFastForward(oldOid: Oid, newOid: Oid)

  function MapError<T>(r: Result<T, GitError>): Result<T, GraphError> {
    match r
    case Ok(v) => Ok(v)
    case Err(e) => Err(Malformed(e))
  }

  /** `get_git_object`. */
  function Load(v: View, oid: Oid): (r: Result<GitObject, GraphError>)
    ensures r.Ok? ==> oid in v
  {
    if oid !in v then Err(MissingObject(oid))
    else if v[oid].stored.None? then Err(Unreadable(oid))
    else Ok(v[oid].stored.value)
  }

  /** `require_kind`. */
  function RequireKind(v: View, oid: Oid, expected: Kind): Result<(), GraphError> {
    if oid !in v then Err(MissingObject(oid))
    else if !v[oid].durable then Err(ObjectNotDurable(oid))
    else if v[oid].kind != expected then Err(InvalidRefTarget(oid, expected, v[oid].kind))
    else Ok(())
  }

  lemma FewerUnseen(v: View, seen: set<Oid>, oid: Oid)
    requires oid in v && oid !in seen
    ensures |v.Keys - (seen + {oid})| < |v.Keys - seen|
  {
    assert v.Keys - seen == (v.Keys - (seen + {oid})) + {oid};
  }

  lemma {:induction false} NotMoreUnseen(v: View, s: set<Oid>, t: set<Oid>)
    requires s <= t
    ensures |v.Keys - t| <= |v.Keys - s|
  {
    SubsetSize(v.Keys - t, v.Keys - s);
  }

  // ------------------------------------------------------ ancestor search

  /** The parents an object names, whatever its kind: the search reads links
      without checking that an inner object is a commit. */
  function Parents(v: View, oid: Oid): (r: Result<seq<Oid>, GraphError>)
    ensures r.Ok? ==> oid in v
  {
    var o :- Load(v, oid);
    var links :- MapError(ParseCommitLinks(o.payload));
    Ok(links.parents)
  }

  /** The stack loop of `is_commit_ancestor`. */
  function AncestorSearch(v: View, ancestor: Oid, stack: seq<Oid>, seen: set<Oid>): Result<bool, GraphError>
    decreases |v.Keys - seen|, |stack|
  {
    if stack == [] then Ok(false)
    else
      var oid, rest := stack[|stack| - 1], stack[..|stack| - 1];
      if oid in seen then AncestorSearch(v, ancestor, rest, seen)
      else if oid == ancestor then Ok(true)
      else
        var parents :- Parents(v, oid);
        FewerUnseen(v, seen, oid);
        AncestorSearch(v, ancestor, rest + parents, seen + {oid})
  }

  /** `is_commit_ancestor`. */
  function IsAncestor(v: View, ancestor: Oid, descendant: Oid): Result<bool, GraphError> {
    if ancestor == descendant then Ok(true)
    else
      var _ :- RequireKind(v, ancestor, Commit);
      var _ :- RequireKind(v, descendant, Commit);
      AncestorSearch(v, ancestor, [descendant], {})
  }

  method IsCommitAncestor(v: View, ancestor: Oid, descendant: Oid) returns (r: Result<bool, GraphError>)
    ensures r == IsAncestor(v, ancestor, descendant)
  {
    if ancestor == descendant { return Ok(true); }
    var a := RequireKind(v, ancestor, Commit);
    if a.Err? { return Err(a.error); }
    var d := RequireKind(v, descendant, Commit);
    if d.Err? { return Err(d.error); }
    var stack, seen: set<Oid> := [descendant], {};
    while stack != []
      invariant AncestorSearch(v, ancestor, stack, seen) == AncestorSearch(v, ancestor, [descendant], {})
      decreases |v.Keys - seen|, |stack|
    {
      var oid := stack[|stack| - 1];
      stack := stack[..|stack| - 1];
      if oid in seen { continue; }
      if oid == ancestor { return Ok(true); }
      var parents := Parents(v, oid);
      if parents.Err? { return Err(parents.error); }
      FewerUnseen(v, seen, oid);
      seen := seen + {oid};
      stack := stack + parents.value;
    }
    return Ok(false);
  }

  /** Each object of the path names the next one as a parent. */
  predicate ParentPath(v: View, p: seq<Oid>) {
    && p != []
    && forall i :: 0 <= i < |p| - 1 ==> Parents(v, p[i]).Ok? && p[i + 1] in Parents(v, p[i]).value
  }

  ghost predicate HasAncestor(v: View, descendant: Oid, ancestor: Oid) {
    exists p :: ParentPath(v, p) && p[0] == descendant && p[|p| - 1] == ancestor
  }

  lemma HasAncestorSelf(v: View, x: Oid)
    ensures HasAncestor(v, x, x)
  {
    assert ParentPath(v, [x]);
  }

  lemma HasAncestorStep(v: View, x: Oid, y: Oid, z: Oid)
    requires Parents(v, x).Ok? && y in Parents(v, x).value && HasAncestor(v, y, z)
    ensures HasAncestor(v, x, z)
  {
    hide Parents;
    var p :| ParentPath(v, p) && p[0] == y && p[|p| - 1] == z;
    var q := [x] + p;
    forall i | 0 <= i < |q| - 1
      ensures Parents(v, q[i]).Ok? && q[i + 1] in Parents(v, q[i]).value
    {
      assert i > 0 ==> q[i] == p[i - 1] && q[i + 1] == p[i];
    }
    assert ParentPath(v, q);
  }

  lemma {:induction false} SearchFinds(v: View, ancestor: Oid, stack: seq<Oid>, seen: set<Oid>)
    requires AncestorSearch(v, ancestor, stack, seen) == Ok(true)
    ensures exists s :: s in stack && HasAncestor(v, s, ancestor)
    decreases |v.Keys - seen|, |stack|
  {
    hide Parents, HasAncestor;
    var oid, rest := stack[|stack| - 1], stack[..|stack| - 1];
    if oid in seen {
      SearchFinds(v, ancestor, rest, seen);
    } else if oid == ancestor {
      HasAncestorSelf(v, oid);
    } else {
      var parents := Parents(v, oid).value;
      FewerUnseen(v, seen, oid);
      SearchFinds(v, ancestor, rest + parents, seen + {oid});
      var s :| s in rest + parents && HasAncestor(v, s, ancestor);
      if s in parents { HasAncestorStep(v, oid, s, ancestor); }
    }
  }

  /** Objects whose parents were all read and lie in `s` or are still to be visited. */
  predicate Explored(v: View, ancestor: Oid, s: set<Oid>, pending: set<Oid>) {
    && ancestor !in s
    && forall x :: x in s ==> Parents(v, x).Ok? && forall y :: y in Parents(v, x).value ==> y in s || y in pending
  }

  function Members(s: seq<Oid>): set<Oid> { set x | x in s }

  lemma ExploredNext(v: View, ancestor: Oid, seen: set<Oid>, oid: Oid, rest: seq<Oid>, stack: seq<Oid>)
    requires Explored(v, ancestor, seen, Members(stack)) && stack == rest + [oid]
    requires oid != ancestor && Parents(v, oid).Ok?
    ensures Explored(v, ancestor, seen + {oid}, Members(rest + Parents(v, oid).value))
  {
    hide Parents;
    assert Members(stack) == Members(rest) + {oid};
    assert Members(rest + Parents(v, oid).value) == Members(rest) + Members(Parents(v, oid).value);
  }

  lemma ExploredSkip(v: View, ancestor: Oid, seen: set<Oid>, oid: Oid, rest: seq<Oid>, stack: seq<Oid>)
    requires Explored(v, ancestor, seen, Members(stack)) && stack == rest + [oid] && oid in seen
    ensures Explored(v, ancestor, seen, Members(rest))
  {
    hide Parents;
    assert Members(stack) == Members(rest) + {oid};
  }

  lemma {:induction false} SearchExhausts(v: View, ancestor: Oid, stack: seq<Oid>, seen: set<Oid>) returns (all: set<Oid>)
    requires AncestorSearch(v, ancestor, stack, seen) == Ok(false)
    requires Explored(v, ancestor, seen, Members(stack))
    ensures Members(stack) <= all && seen <= all && Explored(v, ancestor, all, {})
    decreases |v.Keys - seen|, |stack|
  {
    hide Parents, Explored;
    if stack == [] {
      all := seen;
      assert Members([]) == {};
    } else {
      var oid, rest := stack[|stack| - 1], stack[..|stack| - 1];
      assert stack == rest + [oid];
      assert Members(stack) == Members(rest) + {oid};
      if oid in seen {
        ExploredSkip(v, ancestor, seen, oid, rest, stack);
        all := SearchExhausts(v, ancestor, rest, seen);
      } else {
        var parents := Parents(v, oid).value;
        FewerUnseen(v, seen, oid);
        ExploredNext(v, ancestor, seen, oid, rest, stack);
        assert Members(rest) <= Members(rest + parents);
        all := SearchExhausts(v, ancestor, rest + parents, seen + {oid});
      }
    }
  }

  lemma {:induction false} AncestorsStayInside(v: View, ancestor: Oid, all: set<Oid>, p: seq<Oid>)
    requires Explored(v, ancestor, all, {}) && ParentPath(v, p) && p[0] in all
    ensures p[|p| - 1] in all
    decreases |p|
  {
    hide Parents;
    if |p| > 1 {
      assert p[0 + 1] in Parents(v, p[0]).value;
      assert p[1..][0] == p[1];
      AncestorsStayInside(v, ancestor, all, p[1..]);
    }
  }

  /** Every ancestor that can be named was read. */
  ghost predicate AllAncestorsLoad(v: View, descendant: Oid) {
    forall x :: HasAncestor(v, descendant, x) ==> Parents(v, x).Ok?
  }

  /** When nothing fails to load, the search does not fail either. */
  lemma {:induction false} SearchSucceeds(v: View, ancestor: Oid, stack: seq<Oid>, seen: set<Oid>, root: Oid)
    requires AllAncestorsLoad(v, root)
    requires forall s :: s in stack ==> HasAncestor(v, root, s)
    ensures AncestorSearch(v, ancestor, stack, seen).Ok?
    decreases |v.Keys - seen|, |stack|
  {
    hide Parents, HasAncestor;
    if stack != [] {
      var oid, rest := stack[|stack| - 1], stack[..|stack| - 1];
      if oid in seen {
        SearchSucceeds(v, ancestor, rest, seen, root);
      } else if oid != ancestor {
        assert oid in stack;
        var parents := Parents(v, oid).value;
        FewerUnseen(v, seen, oid);
        forall s | s in rest + parents
          ensures HasAncestor(v, root, s)
        {
          if s in parents { HasAncestorAppend(v, root, oid, s); }
        }
        SearchSucceeds(v, ancestor, rest + parents, seen + {oid}, root);
      }
    }
  }

  lemma HasAncestorAppend(v: View, x: Oid, y: Oid, z: Oid)
    requires HasAncestor(v, x, y) && Parents(v, y).Ok? && z in Parents(v, y).value
    ensures HasAncestor(v, x, z)
  {
    hide Parents;
    var p :| ParentPath(v, p) && p[0] == x && p[|p| - 1] == y;
    var q := p + [z];
    forall i | 0 <= i < |q| - 1
      ensures Parents(v, q[i]).Ok? && q[i + 1] in Parents(v, q[i]).value
    {
      assert i < |p| - 1 ==> q[i] == p[i] && q[i + 1] == p[i + 1];
    }
    assert ParentPath(v, q);
  }

  /** The search answers yes only along a parent path, and no exactly when all
      ancestors were loaded and none of them matches; when all ancestors load it
      always answers. */
  lemma AncestorExact(v: View, ancestor: Oid, descendant: Oid)
    requires ancestor != descendant
    requires RequireKind(v, ancestor, Commit).Ok? && RequireKind(v, descendant, Commit).Ok?
    ensures IsAncestor(v, ancestor, descendant) == Ok(true) ==> HasAncestor(v, descendant, ancestor)
    ensures IsAncestor(v, ancestor, descendant) == Ok(false) <==>
            AllAncestorsLoad(v, descendant) && !HasAncestor(v, descendant, ancestor)
    ensures AllAncestorsLoad(v, descendant) ==>
            IsAncestor(v, ancestor, descendant) == Ok(HasAncestor(v, descendant, ancestor))
  {
    hide Parents, AncestorSearch, RequireKind;
    var r := AncestorSearch(v, ancestor, [descendant], {});
    assert IsAncestor(v, ancestor, descendant) == r;
    if r == Ok(true) {
      SearchFinds(v, ancestor, [descendant], {});
      assert HasAncestor(v, descendant, ancestor);
    }
    if r == Ok(false) {
      var all := SearchExhausts(v, ancestor, [descendant], {});
      assert descendant in Members([descendant]);
      forall x | HasAncestor(v, descendant, x)
        ensures x in all
      {
        var p :| ParentPath(v, p) && p[0] == descendant && p[|p| - 1] == x;
        AncestorsStayInside(v, ancestor, all, p);
      }
      assert !HasAncestor(v, descendant, ancestor);
      assert AllAncestorsLoad(v, descendant);
    }
    if AllAncestorsLoad(v, descendant) {
      HasAncestorSelf(v, descendant);
      SearchSucceeds(v, ancestor, [descendant], {}, descendant);
      assert r.Ok?;
      assert r == Ok(r.value);
      assert if r.value then r == Ok(true) else r == Ok(false);
    }
  }

  // ------------------------------------------------------ closure export

  function EntryOids(es: seq<TreeEntry>): (r: seq<Oid>)
    ensures |r| == |es| && forall i :: 0 <= i < |es| ==> r[i] == es[i].oid
  {
    seq(|es|, i requires 0 <= i < |es| => es[i].oid)
  }

  /** What `collect_reachable_object_graph` follows: a commit names its tree and
      parents, a tree its entries; blobs and tags name nothing. */
  function Children(v: View, oid: Oid): (r: Result<seq<Oid>, GraphError>)
    ensures r.Ok? ==> oid in v
  {
    var o :- Load(v, oid);
    match o.kind
    case Commit =>
      var links :- MapError(ParseCommitLinks(o.payload));
      Ok([links.tree] + links.parents)
    case Tree =>
      var entries :- MapError(ParseTree(o.payload));
      Ok(EntryOids(entries))
    case Blob => Ok([])
    case Tag => Ok([])
  }

  function Collect(v: View, oid: Oid, seen: set<Oid>): (r: (Result<(), GraphError>, set<Oid>))
    ensures seen <= r.1
    decreases |v.Keys - seen|, 0
  {
    if oid in seen then (Ok(()), seen)
    else
      match Children(v, oid)
      case Err(e) => (Err(e), seen + {oid})
      case Ok(children) =>
        FewerUnseen(v, seen, oid);
        CollectAll(v, children, seen + {oid})
  }

  function CollectAll(v: View, oids: seq<Oid>, seen: set<Oid>): (r: (Result<(), GraphError>, set<Oid>))
    ensures seen <= r.1
    decreases |v.Keys - seen|, 1 + |oids|
  {
    if oids == [] then (Ok(()), seen)
    else
      var (r, s) := Collect(v, oids[0], seen);
      NotMoreUnseen(v, seen, s);
      if r.Err? then (r, s) else CollectAll(v, oids[1..], s)
  }

  /** The objects `export_pack_reachable_from` packs. */
  function Reachable(v: View, tips: seq<Oid>): Result<set<Oid>, GraphError> {
    match CollectAll(v, tips, {})
    case (Ok(_), s) => Ok(s)
    case (Err(e), _) => Err(e)
  }

  /** Closed under the edges, every member readable. */
  predicate Closed(v: View, s: set<Oid>) {
    forall x :: x in s ==> Children(v, x).Ok? && forall y :: y in Children(v, x).value ==> y in s
  }

  /** New members of `t` have their edges inside `t`. */
  predicate ClosedSince(v: View, s: set<Oid>, t: set<Oid>) {
    && s <= t
    && forall x :: x in t && x !in s ==> Children(v, x).Ok? && forall y :: y in Children(v, x).value ==> y in t
  }

  lemma ClosedSinceRefl(v: View, s: set<Oid>)
    ensures ClosedSince(v, s, s)
  {
  }

  lemma ClosedSinceTrans(v: View, s: set<Oid>, t: set<Oid>, u: set<Oid>)
    requires ClosedSince(v, s, t) && ClosedSince(v, t, u)
    ensures ClosedSince(v, s, u) && s <= t <= u
  {
    hide Children;
  }

  lemma {:induction false} CollectSound(v: View, oid: Oid, seen: set<Oid>)
    requires Collect(v, oid, seen).0.Ok?
    ensures oid in Collect(v, oid, seen).1 && ClosedSince(v, seen, Collect(v, oid, seen).1)
    decreases |v.Keys - seen|, 0
  {
    hide Children;
    if oid !in seen {
      FewerUnseen(v, seen, oid);
      CollectAllSound(v, Children(v, oid).value, seen + {oid});
    }
  }

  lemma {:induction false} CollectAllSound(v: View, oids: seq<Oid>, seen: set<Oid>)
    requires CollectAll(v, oids, seen).0.Ok?
    ensures Members(oids) <= CollectAll(v, oids, seen).1 && ClosedSince(v, seen, CollectAll(v, oids, seen).1)
    decreases |v.Keys - seen|, 1 + |oids|
  {
    hide Children, Collect, ClosedSince;
    if oids == [] {
      ClosedSinceRefl(v, seen);
    } else {
      var s := Collect(v, oids[0], seen).1;
      NotMoreUnseen(v, seen, s);
      CollectSound(v, oids[0], seen);
      CollectAllSound(v, oids[1..], s);
      ClosedSinceTrans(v, seen, s, CollectAll(v, oids[1..], s).1);
      assert Members(oids) == {oids[0]} + Members(oids[1..]);
    }
  }

  /** Nothing outside a closed set that holds the start is ever collected, and
      inside one nothing fails. */
  lemma {:induction false} CollectWithin(v: View, oid: Oid, seen: set<Oid>, c: set<Oid>)
    requires Closed(v, c) && oid in c
    ensures Collect(v, oid, seen).0.Ok? && Collect(v, oid, seen).1 <= seen + c
    decreases |v.Keys - seen|, 0
  {
    hide Children;
    if oid !in seen {
      FewerUnseen(v, seen, oid);
      CollectAllWithin(v, Children(v, oid).value, seen + {oid}, c);
    }
  }

  lemma {:induction false} CollectAllWithin(v: View, oids: seq<Oid>, seen: set<Oid>, c: set<Oid>)
    requires Closed(v, c) && Members(oids) <= c
    ensures CollectAll(v, oids, seen).0.Ok? && CollectAll(v, oids, seen).1 <= seen + c
    decreases |v.Keys - seen|, 1 + |oids|
  {
    hide Children, Collect;
    if oids != [] {
      assert oids[0] in Members(oids) && Members(oids[1..]) <= Members(oids);
      var s := Collect(v, oids[0], seen).1;
      NotMoreUnseen(v, seen, s);
      CollectWithin(v, oids[0], seen, c);
      CollectAllWithin(v, oids[1..], s, c);
    }
  }

  /** Export succeeds exactly when some closed set of readable objects holds the
      tips, and then it yields the least such set. */
  lemma ReachableExact(v: View, tips: seq<Oid>)
    ensures Reachable(v, tips).Ok? <==> exists c :: Closed(v, c) && Members(tips) <= c
    ensures Reachable(v, tips).Ok? ==>
            var s := Reachable(v, tips).value;
            && Closed(v, s) && Members(tips) <= s
            && forall c :: Closed(v, c) && Members(tips) <= c ==> s <= c
  {
    hide Children, CollectAll;
    if Reachable(v, tips).Ok? {
      CollectAllSound(v, tips, {});
      assert Closed(v, Reachable(v, tips).value);
    }
    forall c | Closed(v, c) && Members(tips) <= c
      ensures Reachable(v, tips).Ok? && Reachable(v, tips).value <= c
    {
      CollectAllWithin(v, tips, {}, c);
    }
  }

  // ------------------------------------------------------ tree validation

  function ValidateTree(v: View, oid: Oid, seen: set<Oid>): (r: (Result<(), GraphError>, set<Oid>))
    ensures seen <= r.1
    decreases |v.Keys - seen|, 0
  {
    if oid in seen then (Ok(()), seen)
    else
      match TreeOf(v, oid)
      case Err(e) => (Err(e), seen + {oid})
      case Ok(entries) =>
        FewerUnseen(v, seen, oid);
        ValidateEntries(v, entries, seen + {oid})
  }

  /** The entries of a stored, durable tree. */
  function TreeOf(v: View, oid: Oid): (r: Result<seq<TreeEntry>, GraphError>)
    ensures r.Ok? ==> oid in v
  {
    var _ :- RequireKind(v, oid, Tree);
    var o :- Load(v, oid);
    MapError(ParseTree(o.payload))
  }

  function ValidateEntries(v: View, es: seq<TreeEntry>, seen: set<Oid>): (r: (Result<(), GraphError>, set<Oid>))
    ensures seen <= r.1
    decreases |v.Keys - seen|, 1 + |es|
  {
    if es == [] then (Ok(()), seen)
    else
      var (r, s) := ValidateEntry(v, es[0], seen);
      NotMoreUnseen(v, seen, s);
      if r.Err? then (r, s) else ValidateEntries(v, es[1..], s)
  }

  function ValidateEntry(v: View, e: TreeEntry, seen: set<Oid>): (r: (Result<(), GraphError>, set<Oid>))
    ensures seen <= r.1
    decreases |v.Keys - seen|, 1
  {
    match e.target
    case ToBlob => (RequireKind(v, e.oid, Blob), seen)
    case ToTree => ValidateTree(v, e.oid, seen)
    case ToCommit => (RequireKind(v, e.oid, Commit), seen)
  }

  predicate EntryOk(v: View, e: TreeEntry, trees: set<Oid>) {
    match e.target
    case ToBlob => RequireKind(v, e.oid, Blob).Ok?
    case ToTree => e.oid in trees
    case ToCommit => RequireKind(v, e.oid, Commit).Ok?
  }

  predicate TreeOk(v: View, t: Oid, trees: set<Oid>) {
    TreeOf(v, t).Ok? && forall e :: e in TreeOf(v, t).value ==> EntryOk(v, e, trees)
  }

  /** A set of stored, durable trees whose subtrees lie in the set and whose blobs
      and commits are stored, durable and of the right kind. */
  predicate SoundTrees(v: View, trees: set<Oid>) {
    forall t :: t in trees ==> TreeOk(v, t, trees)
  }

  ghost predicate SoundTree(v: View, root: Oid) {
    exists trees :: root in trees && SoundTrees(v, trees)
  }

  predicate SoundSince(v: View, s: set<Oid>, t: set<Oid>) {
    s <= t && forall x :: x in t && x !in s ==> TreeOk(v, x, t)
  }

  lemma SoundSinceTrans(v: View, s: set<Oid>, t: set<Oid>, u: set<Oid>)
    requires SoundSince(v, s, t) && SoundSince(v, t, u)
    ensures SoundSince(v, s, u)
  {
    hide TreeOf, RequireKind;
    forall x | x in u && x !in s
      ensures TreeOk(v, x, u)
    {
      if x in t {
        assert TreeOk(v, x, t);
        assert forall e :: e in TreeOf(v, x).value ==> EntryOk(v, e, t);
      }
    }
  }

  lemma {:induction false} ValidateTreeSound(v: View, oid: Oid, seen: set<Oid>)
    requires ValidateTree(v, oid, seen).0.Ok?
    ensures oid in ValidateTree(v, oid, seen).1 && SoundSince(v, seen, ValidateTree(v, oid, seen).1)
    decreases |v.Keys - seen|, 0
  {
    hide TreeOf, TreeOk, ValidateEntries;
    if oid !in seen {
      FewerUnseen(v, seen, oid);
      var es := TreeOf(v, oid).value;
      ValidateEntriesSound(v, es, seen + {oid});
      var t := ValidateTree(v, oid, seen).1;
      TreeOkBy(v, oid, t);
    }
  }

  lemma TreeOkBy(v: View, oid: Oid, t: set<Oid>)
    requires TreeOf(v, oid).Ok? && forall e :: e in TreeOf(v, oid).value ==> EntryOk(v, e, t)
    ensures TreeOk(v, oid, t)
  {
  }

  lemma {:induction false} ValidateEntriesSound(v: View, es: seq<TreeEntry>, seen: set<Oid>)
    requires ValidateEntries(v, es, seen).0.Ok?
    ensures var t := ValidateEntries(v, es, seen).1;
            SoundSince(v, seen, t) && forall e :: e in es ==> EntryOk(v, e, t)
    decreases |v.Keys - seen|, 1 + |es|
  {
    hide SoundSince, RequireKind, ValidateTree;
    if es == [] {
      SoundSinceRefl(v, seen);
    } else {
      var s := ValidateEntry(v, es[0], seen).1;
      NotMoreUnseen(v, seen, s);
      if es[0].target.ToTree? {
        ValidateTreeSound(v, es[0].oid, seen);
      } else {
        SoundSinceRefl(v, seen);
      }
      ValidateEntriesSound(v, es[1..], s);
      var t := ValidateEntries(v, es, seen).1;
      SoundSinceTrans(v, seen, s, t);
      assert s <= t;
    }
  }

  lemma SoundSinceRefl(v: View, s: set<Oid>)
    ensures SoundSince(v, s, s)
  {
  }

  lemma {:induction false} ValidateTreeWithin(v: View, oid: Oid, seen: set<Oid>, trees: set<Oid>)
    requires SoundTrees(v, trees) && oid in trees
    ensures ValidateTree(v, oid, seen).0.Ok?
    decreases |v.Keys - seen|, 0
  {
    hide TreeOf, RequireKind;
    if oid !in seen {
      FewerUnseen(v, seen, oid);
      assert TreeOk(v, oid, trees);
      ValidateEntriesWithin(v, TreeOf(v, oid).value, seen + {oid}, trees);
    }
  }

  lemma {:induction false} ValidateEntriesWithin(v: View, es: seq<TreeEntry>, seen: set<Oid>, trees: set<Oid>)
    requires SoundTrees(v, trees) && forall e :: e in es ==> EntryOk(v, e, trees)
    ensures ValidateEntries(v, es, seen).0.Ok?
    decreases |v.Keys - seen|, 1 + |es|
  {
    hide TreeOk, RequireKind, ValidateTree;
    if es != [] {
      assert EntryOk(v, es[0], trees);
      var s := ValidateEntry(v, es[0], seen).1;
      NotMoreUnseen(v, seen, s);
      if es[0].target.ToTree? { ValidateTreeWithin(v, es[0].oid, seen, trees); }
      ValidateEntriesWithin(v, es[1..], s, trees);
    }
  }

  /** `validate_tree_graph` accepts a tree exactly when its whole closure is
      stored and durable with the right kinds. */
  lemma ValidateTreeExact(v: View, root: Oid)
    ensures ValidateTree(v, root, {}).0.Ok? <==> SoundTree(v, root)
  {
    hide ValidateTree, TreeOk;
    if ValidateTree(v, root, {}).0.Ok? {
      ValidateTreeSound(v, root, {});
      assert SoundTrees(v, ValidateTree(v, root, {}).1);
    }
    if SoundTree(v, root) {
      var trees :| root in trees && SoundTrees(v, trees);
      ValidateTreeWithin(v, root, {}, trees);
    }
  }

  // ---------------------------------------------------------- ref updates

  function RequireCommits(v: View, parents: seq<Oid>): Result<(), GraphError> {
    if parents == [] then Ok(())
    else
      var _ :- RequireKind(v, parents[0], Commit);
      RequireCommits(v, parents[1..])
  }

  /** `validate_commit_graph`. */
  function ValidateCommit(v: View, oid: Oid): Result<(), GraphError> {
    var o :- Load(v, oid);
    if o.kind != Commit then Err(InvalidRefTarget(oid, Commit, o.kind))
    else
      var links :- MapError(ParseCommitLinks(o.payload));
      var _ :- ValidateTree(v, links.tree, {}).0;
      RequireCommits(v, links.parents)
  }

  const HEADS := "refs/heads/"

  predicate IsBranch(refName: string) { HEADS <= refName }

  /** `validate_ref_target`. */
  function ValidateTarget(v: View, refName: string, oid: Oid): Result<(), GraphError> {
    if oid !in v then Err(MissingObject(oid))
    else if !v[oid].durable then Err(ObjectNotDurable(oid))
    else if IsBranch(refName) then ValidateCommit(v, oid)
    else Ok(())
  }

  /** `validate_ref_update`. */
  function ValidateUpdate(v: View, refName: string, expectedOld: Option<Oid>, newOid: Option<Oid>, force: bool): Result<(), GraphError> {
    if newOid.None? then Ok(())
    else
      var _ :- ValidateTarget(v, refName, newOid.value);
      if IsBranch(refName) && !force && expectedOld.Some? then
        var forward :- IsAncestor(v, expectedOld.value, newOid.value);
        if forward then Ok(()) else Err(NonFastForward(expectedOld.value, newOid.value))
      else Ok(())
  }

  /** A tip that a branch may point at: a commit whose tree closure and direct
      parents are stored and durable with the right kinds. */
  ghost predicate SoundTip(v: View, oid: Oid) {
    && Load(v, oid).Ok? && Load(v, oid).value.kind == Commit && v[oid].durable
    && ParseCommitLinks(Load(v, oid).value.payload).Ok?
    && var links := ParseCommitLinks(Load(v, oid).value.payload).value;
       SoundTree(v, links.tree) && forall p :: p in links.parents ==> RequireKind(v, p, Commit).Ok?
  }

  lemma {:induction false} RequireCommitsExact(v: View, parents: seq<Oid>)
    ensures RequireCommits(v, parents).Ok? <==> forall p :: p in parents ==> RequireKind(v, p, Commit).Ok?
  {
    hide RequireKind;
    if parents != [] {
      RequireCommitsExact(v, parents[1..]);
      assert forall p :: p in parents <==> p == parents[0] || p in parents[1..];
    }
  }

  /** A branch target is accepted exactly when it is a sound tip. */
  lemma ValidateTargetExact(v: View, refName: string, oid: Oid)
    requires IsBranch(refName)
    ensures ValidateTarget(v, refName, oid).Ok? <==> SoundTip(v, oid)
  {
    hide ValidateTree, SoundTree, RequireKind, ParseCommitLinks;
    if Load(v, oid).Ok? && ParseCommitLinks(Load(v, oid).value.payload).Ok? {
      var links := ParseCommitLinks(Load(v, oid).value.payload).value;
      ValidateTreeExact(v, links.tree);
      RequireCommitsExact(v, links.parents);
    }
  }

  /** An accepted branch update that is not forced is a fast-forward. */
  lemma ValidateUpdateSound(v: View, refName: string, expectedOld: Option<Oid>, newOid: Option<Oid>, force: bool)
    requires ValidateUpdate(v, refName, expectedOld, newOid, force).Ok?
    ensures newOid.Some? ==> newOid.value in v && v[newOid.value].durable
    ensures newOid.Some? && IsBranch(refName) ==> SoundTip(v, newOid.value)
    ensures newOid.Some? && IsBranch(refName) && !force && expectedOld.Some? ==>
            HasAncestor(v, newOid.value, expectedOld.value)
  {
    hide SoundTip, AncestorSearch, ValidateCommit, HasAncestor;
    if newOid.Some? {
      if IsBranch(refName) {
        ValidateTargetExact(v, refName, newOid.value);
        if !force && expectedOld.Some? {
          if expectedOld == newOid {
            HasAncestorSelf(v, newOid.value);
          } else {
            AncestorExact(v, expectedOld.value, newOid.value);
          }
        }
      }
    }
  }

  // -------------------------------------------------- links, over the fields

  /** The object is stored and was read back. */
  predicate Readable(v: View, x: Oid) {
    x in v && v[x].stored != None
  }

  /** What a walk follows from a commit to its tree and parents, and from a tree to its entries. */
  predicate Follows(v: View, x: Oid, y: Oid) {
    && Readable(v, x)
    && var o := v[x].stored.value;
       || (o.kind == Commit && ParseCommitLinks(o.payload).Ok? &&
             (y == ParseCommitLinks(o.payload).value.tree || y in ParseCommitLinks(o.payload).value.parents))
       || (o.kind == Tree && ParseTree(o.payload).Ok? && exists i :: 0 <= i < |ParseTree(o.payload).value| && ParseTree(o.payload).value[i].oid == y)
  }

  /** A walk can go on from an object exactly when it was read back and, if it is a
      commit or a tree, parses; it goes where the object's links lead, and nowhere
      from blobs and tags. */
  lemma ChildrenExact(v: View, x: Oid)
    ensures Children(v, x).Ok? <==>
            && Readable(v, x)
            && (v[x].stored.value.kind == Commit ==> ParseCommitLinks(v[x].stored.value.payload).Ok?)
            && (v[x].stored.value.kind == Tree ==> ParseTree(v[x].stored.value.payload).Ok?)
    ensures Children(v, x).Ok? ==> forall y :: y in Children(v, x).value <==> Follows(v, x, y)
  {
    hide ParseCommitLinks, ParseTree;
  }

  /** The search for ancestors reads the parents an object names, in order. */
  lemma ParentsExact(v: View, x: Oid)
    ensures Parents(v, x).Ok? <==> Readable(v, x) && ParseCommitLinks(v[x].stored.value.payload).Ok?
    ensures Parents(v, x).Ok? ==> Parents(v, x).value == ParseCommitLinks(v[x].stored.value.payload).value.parents
  {
    hide ParseCommitLinks;
  }

  /** A required object is stored and durable, and its record has the kind. */
  lemma RequireKindExact(v: View, x: Oid, kind: Kind)
    ensures RequireKind(v, x, kind).Ok? <==> x in v && v[x].durable && v[x].kind == kind
    ensures RequireKind(v, x, kind) == Err(MissingObject(x)) <==> x !in v
    ensures RequireKind(v, x, kind) == Err(ObjectNotDurable(x)) <==> x in v && !v[x].durable
  {
  }

  /** A sound tree, over the fields: a set of stored, durable trees that read back,
      parse, and name only trees of the set and stored, durable blobs and commits. */
  lemma SoundTreesExact(v: View, trees: set<Oid>)
    ensures SoundTrees(v, trees) <==>
            forall t :: t in trees ==>
              && t in v && v[t].durable && v[t].kind == Tree && Readable(v, t) && ParseTree(v[t].stored.value.payload).Ok?
              && forall e :: e in ParseTree(v[t].stored.value.payload).value ==>
                   if e.target == ToTree then e.oid in trees
                   else e.oid in v && v[e.oid].durable && v[e.oid].kind == (if e.target == ToBlob then Blob else Commit)
  {
    hide ParseTree;
    if SoundTrees(v, trees) {
      forall t, e | t in trees && TreeOf(v, t).Ok? && e in TreeOf(v, t).value
        ensures EntryOk(v, e, trees)
      {
        assert TreeOk(v, t, trees);
      }
    }
  }

  // ----------------------------------------------- what an update may do

  /** A tip a branch may point at, over the fields. */
  lemma SoundTipExact(v: View, x: Oid)
    ensures SoundTip(v, x) <==>
            && Readable(v, x) && v[x].durable && v[x].stored.value.kind == Commit
            && ParseCommitLinks(v[x].stored.value.payload).Ok?
            && var links := ParseCommitLinks(v[x].stored.value.payload).value;
               && SoundTree(v, links.tree)
               && forall p :: p in links.parents ==> p in v && v[p].durable && v[p].kind == Commit
  {
    hide SoundTree, ParseCommitLinks;
  }

  /** An update is accepted exactly when it deletes, or its target is stored and
      durable and, on a branch, a sound tip that, unless forced or new, is the old
      tip or has it as an ancestor. */
  lemma ValidateUpdateExact(v: View, refName: string, expectedOld: Option<Oid>, newOid: Option<Oid>, force: bool)
    ensures ValidateUpdate(v, refName, expectedOld, newOid, force).Ok? <==>
            newOid != None ==>
              && newOid.value in v && v[newOid.value].durable
              && ("refs/heads/" <= refName ==>
                    && SoundTip(v, newOid.value)
                    && (!force && expectedOld != None && expectedOld != newOid ==>
                          RequireKind(v, expectedOld.value, Commit).Ok? && RequireKind(v, newOid.value, Commit).Ok? &&
                          IsAncestor(v, expectedOld.value, newOid.value) == Ok(true)))
  {
    hide SoundTip, AncestorSearch, ValidateCommit, RequireKind;
    if newOid.Some? && IsBranch(refName) { ValidateTargetExact(v, refName, newOid.value); }
  }

  /** When every ancestor of the new tip was read back, an unforced branch move to
      a sound tip is accepted exactly when it is a fast-forward from a stored,
      durable commit, and a forced one always. */
  lemma FastForwardExact(v: View, refName: string, oldOid: Oid, newOid: Oid, force: bool)
    requires "refs/heads/" <= refName && oldOid != newOid && SoundTip(v, newOid) && v[newOid].kind == Commit
    requires AllAncestorsLoad(v, newOid)
    ensures ValidateUpdate(v, refName, Some(oldOid), Some(newOid), force).Ok? <==>
            force || (oldOid in v && v[oldOid].durable && v[oldOid].kind == Commit && HasAncestor(v, newOid, oldOid))
    ensures ValidateUpdate(v, refName, Some(oldOid), Some(newOid), force) == Err(NonFastForward(oldOid, newOid)) <==>
            !force && oldOid in v && v[oldOid].durable && v[oldOid].kind == Commit && !HasAncestor(v, newOid, oldOid)
  {
    hide SoundTree, AncestorSearch, ValidateCommit, HasAncestor, AllAncestorsLoad, ParseCommitLinks;
    RequireKindExact(v, oldOid, Commit);
    RequireKindExact(v, newOid, Commit);
    ValidateTargetExact(v, refName, newOid);
    if RequireKind(v, oldOid, Commit).Ok? { AncestorExact(v, oldOid, newOid); }
  }

  // ------------------------------------------------------------ growth

  /** `w` holds everything `v` holds, unchanged. */
  predicate Extends(v: View, w: View) {
    forall o :: o in v ==> o in w && w[o] == v[o]
  }

  lemma SoundTreesStay(v: View, w: View, trees: set<Oid>)
    requires Extends(v, w) && SoundTrees(v, trees)
    ensures SoundTrees(w, trees)
  {
    hide ParseTree;
    forall t | t in trees
      ensures TreeOk(w, t, trees)
    {
      assert TreeOk(v, t, trees);
      assert TreeOf(w, t) == TreeOf(v, t);
      forall e | e in TreeOf(w, t).value
        ensures EntryOk(w, e, trees)
      {
        assert EntryOk(v, e, trees);
      }
    }
  }

  lemma SoundTipStays(v: View, w: View, oid: Oid)
    requires Extends(v, w) && SoundTip(v, oid)
    ensures SoundTip(w, oid)
  {
    hide SoundTrees, ParseCommitLinks;
    assert Load(w, oid) == Load(v, oid);
    var links := ParseCommitLinks(Load(v, oid).value.payload).value;
    var trees :| links.tree in trees && SoundTrees(v, trees);
    SoundTreesStay(v, w, trees);
    assert SoundTree(w, links.tree);
  }

  lemma HasAncestorStays(v: View, w: View, x: Oid, y: Oid)
    requires Extends(v, w) && HasAncestor(v, x, y)
    ensures HasAncestor(w, x, y)
  {
    hide ParseCommitLinks;
    var p :| ParentPath(v, p) && p[0] == x && p[|p| - 1] == y;
    forall i | 0 <= i < |p| - 1
      ensures Parents(w, p[i]).Ok? && p[i + 1] in Parents(w, p[i]).value
    {
      assert Parents(v, p[i]).Ok?;
      assert Parents(w, p[i]) == Parents(v, p[i]);
    }
    assert ParentPath(w, p);
  }

  // ------------------------------------------------- the walks, in place

  /** The two recursive walks update one `seen` set as they go. */
  class GraphWalk {
    const view: View
    var seen: set<Oid>

    constructor (view: View)
      ensures this.view == view && seen == {}
    {
      this.view, seen := view, {};
    }

    method CollectFrom(oid: Oid) returns (r: Result<(), GraphError>)
      modifies this
      ensures (r, seen) == Collect(view, oid, old(seen))
      decreases |view.Keys - seen|, 0
    {
      if oid in seen { return Ok(()); }
      ghost var before := seen;
      seen := seen + {oid};
      var children := Children(view, oid);
      if children.Err? { return Err(children.error); }
      FewerUnseen(view, before, oid);
      var i := 0;
      while i < |children.value|
        invariant i <= |children.value| && before + {oid} <= seen
        invariant CollectAll(view, children.value, before + {oid}) == CollectAll(view, children.value[i..], seen)
      {
        NotMoreUnseen(view, before + {oid}, seen);
        assert children.value[i..][1..] == children.value[i + 1..];
        var child := CollectFrom(children.value[i]);
        if child.Err? { return child; }
        i := i + 1;
      }
      return Ok(());
    }

    method ValidateFrom(oid: Oid) returns (r: Result<(), GraphError>)
      modifies this
      ensures (r, seen) == ValidateTree(view, oid, old(seen))
      decreases |view.Keys - seen|, 0
    {
      hide TreeOf, RequireKind;
      if oid in seen { return Ok(()); }
      ghost var before := seen;
      seen := seen + {oid};
      var entries := TreeOf(view, oid);
      if entries.Err? { return Err(entries.error); }
      FewerUnseen(view, before, oid);
      var i := 0;
      while i < |entries.value|
        invariant i <= |entries.value| && before + {oid} <= seen
        invariant ValidateEntries(view, entries.value, before + {oid}) == ValidateEntries(view, entries.value[i..], seen)
      {
        NotMoreUnseen(view, before + {oid}, seen);
        assert entries.value[i..][1..] == entries.value[i + 1..];
        var e := entries.value[i];
        match e.target {
          case ToBlob =>
            var kind := RequireKind(view, e.oid, Blob);
            if kind.Err? { return kind; }
          case ToTree =>
            var tree := ValidateFrom(e.oid);
            if tree.Err? { return tree; }
          case ToCommit =>
            var kind := RequireKind(view, e.oid, Commit);
            if kind.Err? { return kind; }
        }
        i := i + 1;
      }
      return Ok(());
    }
  }

  /** The first half of `export_pack_reachable_from`. */
  method CollectReachable(v: View, tips: seq<Oid>) returns (r: Result<set<Oid>, GraphError>)
    ensures r == Reachable(v, tips)
  {
    var walk := new GraphWalk(v);
    var i := 0;
    while i < |tips|
      invariant i <= |tips| && walk.view == v && fresh(walk)
      invariant CollectAll(v, tips, {}) == CollectAll(v, tips[i..], walk.seen)
    {
      assert tips[i..][1..] == tips[i + 1..];
      var tip := walk.CollectFrom(tips[i]);
      if tip.Err? { return Err(tip.error); }
      i := i + 1;
    }
    return Ok(walk.seen);
  }
}
