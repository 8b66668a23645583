/**
 The tree operations of `write.go`: deleting, copying, and clearing the way for MOVE and COPY.
 They change the driver's tree step by step and collect one row per failure.
 */
module TreeOps {
  import opened Wrappers
  import opened Paths
  import opened Driver

  /** What Stat said of a resource when it was looked up. */
  datatype ResourceInfo = ResourceInfo(path: Path, isDir: bool)

  /** One row of a 207: the resource it names and the driver's reason. */
  datatype Row = Row(path: Path, collection: bool, error: Error)

  method Lookup(fs: FileSystem, p: Path) returns (r: Result<ResourceInfo, Error>)
    modifies fs`unread
    ensures r.Ok? ==> p in fs.nodes && r.value == ResourceInfo(p, fs.nodes[p].Dir?)
    ensures r == Err(NotFound) ==> p !in fs.nodes
    ensures fs.unread == if r.Ok? || r == Err(NotFound) then old(fs.unread) else old(fs.unread) + [p]
    ensures fs.steady ==>
              r == if p in fs.nodes then Ok(ResourceInfo(p, fs.nodes[p].Dir?)) else Err(NotFound)
  {
    var st := fs.Stat(p);
    match st {
      case Info(isDir) => r := Ok(ResourceInfo(p, isDir));
      case StatFailed(error) => r := Err(error);
    }
  }

  // -------------------------------------------------------------------------
  // removeTree: what it promises
  // -------------------------------------------------------------------------

  predicate Related(a: Path, b: Path) {
    a <= b || b <= a
  }

  /** No row names a resource above, below or equal to another row's. */
  predicate Apart(rows: seq<Row>) {
    forall i, j | 0 <= i < j < |rows| :: !Related(rows[i].path, rows[j].path)
  }

  predicate Mentioned(q: Path, rows: seq<Row>) {
    exists row | row in rows :: Related(q, row.path)
  }

  /** Nothing appears or changes. */
  predicate Shrunk(before: Tree, after: Tree) {
    forall q | q in after :: q in before && after[q] == before[q]
  }

  predicate OutsideKept(before: Tree, after: Tree, p: Path) {
    forall q | q in before && !(p <= q) :: q in after
  }

  predicate RowsSurvive(after: Tree, p: Path, rows: seq<Row>) {
    forall row | row in rows :: p <= row.path && row.path in after
  }

  predicate SurvivorsMentioned(after: Tree, p: Path, rows: seq<Row>) {
    forall q | q in after && p <= q :: Mentioned(q, rows)
  }

  /**
   A delete of `p`: nothing outside the subtree changes; no row exactly when the resource is
   gone; rows name resources that are still there; every survivor in the subtree is equal to,
   above or below a named one.
   */
  predicate Removed(before: Tree, after: Tree, p: Path, rows: seq<Row>) {
    && Shrunk(before, after)
    && OutsideKept(before, after, p)
    && (rows == [] <==> p !in after)
    && RowsSurvive(after, p, rows)
    && Apart(rows)
    && SurvivorsMentioned(after, p, rows)
  }

  /** A resource the driver refuses to delete is at or below `q`. */
  predicate Pinned(t: Tree, q: Path, refused: set<Path>) {
    exists r | r in refused :: r in t && q <= r
  }

  /** Under `p`, exactly what the driver refuses to delete and what is above that is left. */
  predicate Spared(before: Tree, after: Tree, p: Path, refused: set<Path>) {
    forall q | q in before :: q in after <==> !(p <= q) || Pinned(before, q, refused)
  }

  // -------------------------------------------------------------------------
  // removeTree: the loop over the members of a collection
  // -------------------------------------------------------------------------

  /** `q` lies under a member of `p` whose name is not in `left`. */
  predicate Visited(p: Path, left: set<string>, q: Path) {
    p < q && q[|p|] !in left
  }

  predicate UnvisitedKept(before: Tree, now: Tree, p: Path, left: set<string>) {
    forall q | q in before && !Visited(p, left, q) :: q in now
  }

  predicate RowsVisited(now: Tree, p: Path, left: set<string>, rows: seq<Row>) {
    forall row | row in rows :: Visited(p, left, row.path) && row.path in now
  }

  predicate VisitedMentioned(now: Tree, p: Path, left: set<string>, rows: seq<Row>) {
    forall q | q in now && Visited(p, left, q) :: Mentioned(q, rows)
  }

  /** The members of `p` not in `left` have been deleted, as far as they could be. */
  predicate RemovedSoFar(before: Tree, now: Tree, p: Path, left: set<string>, rows: seq<Row>) {
    && Shrunk(before, now)
    && UnvisitedKept(before, now, p, left)
    && RowsVisited(now, p, left, rows)
    && Apart(rows)
    && VisitedMentioned(now, p, left, rows)
  }

  predicate SparedSoFar(before: Tree, now: Tree, p: Path, left: set<string>, refused: set<Path>) {
    forall q | q in before :: q in now <==> !Visited(p, left, q) || Pinned(before, q, refused)
  }

  /** A name below `p` is below exactly one member of `p`. */
  lemma BelowMember(p: Path, n: string, q: Path)
    ensures p + [n] <= q <==> p < q && q[|p|] == n
  {
    if p < q && q[|p|] == n {
      assert q[..|p| + 1] == p + [n];
    }
    if p + [n] <= q {
      assert q[..|p|] == (p + [n])[..|p|] == p;
      assert q[|p|] == (p + [n])[|p|];
    }
  }

  lemma MentionedMore(q: Path, rows: seq<Row>, more: seq<Row>)
    ensures Mentioned(q, rows) || Mentioned(q, more) ==> Mentioned(q, rows + more)
  {
    if Mentioned(q, rows) {
      var row :| row in rows && Related(q, row.path);
      assert row in rows + more;
    } else if Mentioned(q, more) {
      var row :| row in more && Related(q, row.path);
      assert row in rows + more;
    }
  }

  lemma ApartMembers(p: Path, n: string, left: set<string>, now: Tree, next: Tree, rows: seq<Row>, more: seq<Row>)
    requires Apart(rows) && Apart(more) && n in left
    requires RowsVisited(now, p, left, rows) && RowsSurvive(next, p + [n], more)
    ensures Apart(rows + more)
  {
    var all := rows + more;
    forall i, j | 0 <= i < j < |all|
      ensures !Related(all[i].path, all[j].path)
    {
      if i < |rows| && |rows| <= j {
        var a, b := all[i], all[j];
        assert a in rows && b in more;
        BelowMember(p, n, b.path);
        assert a.path[|p|] != b.path[|p|];
      }
    }
  }

  lemma UnvisitedStep(before: Tree, now: Tree, next: Tree, p: Path, n: string, left: set<string>)
    requires UnvisitedKept(before, now, p, left) && OutsideKept(now, next, p + [n]) && n in left
    ensures UnvisitedKept(before, next, p, left - {n})
  {
    forall q | q in before && !Visited(p, left - {n}, q)
      ensures q in next
    {
      BelowMember(p, n, q);
      assert !Visited(p, left, q);
    }
  }

  lemma RowsStep(now: Tree, next: Tree, p: Path, n: string, left: set<string>, rows: seq<Row>, more: seq<Row>)
    requires RowsVisited(now, p, left, rows) && n in left
    requires OutsideKept(now, next, p + [n]) && RowsSurvive(next, p + [n], more)
    ensures RowsVisited(next, p, left - {n}, rows + more)
  {
    forall row | row in rows + more
      ensures Visited(p, left - {n}, row.path) && row.path in next
    {
      BelowMember(p, n, row.path);
      if row in rows {
        assert Visited(p, left, row.path);
      }
    }
  }

  lemma MentionedStep(now: Tree, next: Tree, p: Path, n: string, left: set<string>, rows: seq<Row>, more: seq<Row>)
    requires VisitedMentioned(now, p, left, rows) && Shrunk(now, next) && n in left
    requires SurvivorsMentioned(next, p + [n], more)
    ensures VisitedMentioned(next, p, left - {n}, rows + more)
  {
    forall q | q in next && Visited(p, left - {n}, q)
      ensures Mentioned(q, rows + more)
    {
      BelowMember(p, n, q);
      MentionedMore(q, rows, more);
    }
  }

  lemma RemovedMember(before: Tree, now: Tree, next: Tree, p: Path, n: string, left: set<string>,
                      rows: seq<Row>, more: seq<Row>)
    requires RemovedSoFar(before, now, p, left, rows) && n in left
    requires Removed(now, next, p + [n], more)
    ensures RemovedSoFar(before, next, p, left - {n}, rows + more)
  {
    assert Shrunk(before, next);
    hide Shrunk, OutsideKept, UnvisitedKept, RowsSurvive, RowsVisited, Apart, SurvivorsMentioned, VisitedMentioned;
    UnvisitedStep(before, now, next, p, n, left);
    RowsStep(now, next, p, n, left, rows, more);
    ApartMembers(p, n, left, now, next, rows, more);
    MentionedStep(now, next, p, n, left, rows, more);
  }

  lemma SparedMember(before: Tree, now: Tree, next: Tree, p: Path, n: string, left: set<string>, refused: set<Path>)
    requires Shrunk(before, now) && SparedSoFar(before, now, p, left, refused) && n in left
    requires Shrunk(now, next) && Spared(now, next, p + [n], refused)
    ensures SparedSoFar(before, next, p, left - {n}, refused)
  {
    forall q | q in before
      ensures q in next <==> !Visited(p, left - {n}, q) || Pinned(before, q, refused)
    {
      BelowMember(p, n, q);
      if p + [n] <= q {
        if r :| r in refused && r in before && q <= r {
          BelowMember(p, n, r);
          assert r in now;
        }
      }
    }
  }

  lemma SparedMembersLeft(before: Tree, now: Tree, p: Path, rows: seq<Row>, refused: set<Path>)
    requires Shrunk(before, now) && SparedSoFar(before, now, p, {}, refused)
    requires p in before && rows != [] && RowsVisited(now, p, {}, rows)
    ensures Spared(before, now, p, refused)
  {
    assert rows[0] in rows;
    var q := rows[0].path;
    assert q in before && Visited(p, {}, q);
    var r :| r in refused && r in before && q <= r;
    assert p <= r;
  }

  lemma SparedMembersGone(before: Tree, now: Tree, p: Path, refused: set<Path>)
    requires RemovedSoFar(before, now, p, {}, []) && SparedSoFar(before, now, p, {}, refused) && p in before
    ensures if p in refused then Spared(before, now, p, refused) else Spared(before, now - {p}, p, refused)
  {
    assert !Visited(p, {}, p);
    assert forall q :: !Mentioned(q, []);
    forall r | r in refused && r in before && p <= r
      ensures r == p
    {
      assert Pinned(before, r, refused);
      assert r != p <==> Visited(p, {}, r);
    }
    var after := if p in refused then now else now - {p};
    forall q | q in before
      ensures q in after <==> !(p <= q) || Pinned(before, q, refused)
    {
      if p <= q {
        assert Pinned(before, q, refused) <==> q == p && p in refused;
        assert q != p ==> Visited(p, {}, q);
      } else {
        assert !Visited(p, {}, q);
      }
    }
  }

  lemma NothingRemoved(t: Tree, row: Row)
    requires row.path in t
    ensures Removed(t, t, row.path, [row])
  {
    forall q | q in t && row.path <= q
      ensures Mentioned(q, [row])
    {
      assert row in [row] && Related(q, row.path);
    }
  }

  lemma MembersGone(before: Tree, now: Tree, p: Path)
    requires RemovedSoFar(before, now, p, {}, []) && p in before
    ensures p in now && ChildNames(now, p) == {}
    ensures Removed(before, now - {p}, p, [])
  {
    forall q | q in now && p <= q
      ensures q == p
    {
      assert !Mentioned(q, []);
      assert q != p ==> Visited(p, {}, q);
    }
    assert !Visited(p, {}, p);
    forall q | q in before && !(p <= q)
      ensures q in now - {p}
    {
      assert !Visited(p, {}, q);
    }
  }

  lemma MembersLeft(before: Tree, now: Tree, p: Path, rows: seq<Row>)
    requires RemovedSoFar(before, now, p, {}, rows) && p in before && rows != []
    ensures Removed(before, now, p, rows)
  {
    assert !Visited(p, {}, p);
    forall q | q in before && !(p <= q)
      ensures q in now
    {
      assert !Visited(p, {}, q);
    }
    forall q | q in now && p <= q
      ensures Mentioned(q, rows)
    {
      if q == p {
        assert rows[0] in rows && Related(p, rows[0].path);
      } else {
        assert Visited(p, {}, q);
      }
    }
  }

  lemma NothingVisited(t: Tree, p: Path, names: set<string>)
    requires TreeOk(t) && p in t
    requires forall n | p + [n] in t :: n in names
    ensures RemovedSoFar(t, t, p, names, [])
    ensures forall refused :: SparedSoFar(t, t, p, names, refused)
  {
    NoneVisited(t, p, names);
  }

  lemma NoneVisited(t: Tree, p: Path, names: set<string>)
    requires TreeOk(t) && p in t
    requires forall n | p + [n] in t :: n in names
    ensures forall q | q in t :: !Visited(p, names, q)
  {
    forall q | q in t
      ensures !Visited(p, names, q)
    {
      if p < q {
        BelowMember(p, q[|p|], q);
        if p + [q[|p|]] != q {
          AncestorsAreDirs(t, q, p + [q[|p|]]);
        }
      }
    }
  }

  /** The names still to be visited. */
  function Remaining(names: seq<string>): set<string> {
    set n | n in names && n != "." && n != ".."
  }

  predicate ListedOnce(names: seq<string>) {
    forall i, j | 0 <= i < j < |names| && names[i] == names[j] :: names[i] == "." || names[i] == ".."
  }

  /** `names` is a listing of the directory `p`: its members once each, and perhaps dots. */
  ghost predicate Lists(t: Tree, p: Path, names: seq<string>) {
    ListedOnce(names) && forall n | n != "." && n != ".." :: n in names <==> p + [n] in t
  }

  lemma Listed(t: Tree, p: Path, names: seq<string>, i: nat)
    requires Lists(t, p, names) && i < |names|
    ensures names[i] != "." && names[i] != ".." ==> p + [names[i]] in t
    ensures Remaining(names[i + 1..]) == Remaining(names[i..]) - {names[i]}
    ensures names[i] != "." && names[i] != ".." ==> names[i] in Remaining(names[i..])
  {
    RemainingStep(names, i);
  }

  lemma NoDotsRemain(names: seq<string>)
    ensures "." !in Remaining(names) && ".." !in Remaining(names)
  {
  }

  lemma NoneRemain(names: seq<string>)
    ensures Remaining(names[|names|..]) == {}
  {
  }

  lemma AllListed(t: Tree, p: Path, names: seq<string>)
    requires Lists(t, p, names) && TreeOk(t)
    ensures forall n | p + [n] in t :: n in Remaining(names)
  {
    MembersAreNames(t, p);
  }

  lemma RemainingStep(names: seq<string>, i: nat)
    requires i < |names| && ListedOnce(names)
    ensures Remaining(names[i + 1..]) == Remaining(names[i..]) - {names[i]}
    ensures names[i] != "." && names[i] != ".." ==> names[i] in Remaining(names[i..])
  {
    assert names[i..] == [names[i]] + names[i + 1..];
    var rest := names[i + 1..];
    forall k | 0 <= k < |rest|
      ensures rest[k] == names[i] ==> names[i] == "." || names[i] == ".."
    {
      assert rest[k] == names[i + 1 + k];
    }
  }

  lemma MembersAreNames(t: Tree, p: Path)
    requires TreeOk(t)
    ensures forall n | p + [n] in t :: n != "." && n != ".."
  {
    forall n | p + [n] in t
      ensures IsName(n)
    {
      assert (p + [n])[|p|] == n;
    }
  }

  ghost function Subtree(t: Tree, p: Path): set<Path> {
    set q | q in t && p <= q
  }

  lemma MemberSmaller(before: Tree, now: Tree, p: Path, n: string)
    requires p in before && Shrunk(before, now)
    ensures Subtree(now, p + [n]) < Subtree(before, p)
  {
    assert p in Subtree(before, p) && p !in Subtree(now, p + [n]);
    forall q | q in Subtree(now, p + [n])
      ensures q in Subtree(before, p)
    {
      BelowMember(p, n, q);
    }
  }

  lemma LeafRemoved(t: Tree, p: Path)
    requires TreeOk(t) && p in t && p != []
    requires forall q | q in t && p <= q :: q == p
    ensures TreeOk(t - {p}) && Removed(t, t - {p}, p, [])
    ensures forall refused :: if p in refused then Spared(t, t, p, refused) else Spared(t, t - {p}, p, refused)
  {
    forall q | q in t - {p} && q != []
      ensures Parent(q) in t - {p}
    {
      assert Parent(q) <= q;
    }
  }

  lemma FileIsLeaf(t: Tree, p: Path)
    requires TreeOk(t) && IsFileAt(t, p)
    ensures p != [] && forall q | q in t && p <= q :: q == p
  {
    forall q | q in t && p <= q
      ensures q == p
    {
      if q != p {
        AncestorsAreDirs(t, q, p);
      }
    }
  }

  lemma ChildNamed(t: Tree, p: Path, n: string)
    requires p + [n] in t
    ensures n in ChildNames(t, p)
  {
    assert (p + [n])[|p|] == n;
  }

  lemma EmptyDirIsLeaf(t: Tree, p: Path)
    requires TreeOk(t) && ChildNames(t, p) == {}
    ensures forall q | q in t && p <= q :: q == p
  {
    forall q | q in t && p <= q
      ensures q == p
    {
      if q != p {
        var n := q[|p|];
        BelowMember(p, n, q);
        if p + [n] != q {
          AncestorsAreDirs(t, q, p + [n]);
        }
        ChildNamed(t, p, n);
      }
    }
  }

  // -------------------------------------------------------------------------
  // removeTree
  // -------------------------------------------------------------------------

  /**
   `removeTree`: members first, then the resource itself; what could not go is named in a row,
   and a collection with such a member is not tried.
   */
  method RemoveTree(fs: FileSystem, info: ResourceInfo, failures: seq<Row>) returns (failures': seq<Row>)
    requires TreeOk(fs.nodes) && info.path in fs.nodes && info.isDir == fs.nodes[info.path].Dir?
    modifies fs
    ensures TreeOk(fs.nodes)
    ensures failures <= failures'
    ensures Removed(old(fs.nodes), fs.nodes, info.path, failures'[|failures|..])
    ensures fs.steady && info.path != [] ==> Spared(old(fs.nodes), fs.nodes, info.path, fs.refused)
    ensures fs.reliable && info.path != [] ==> failures' == failures
    decreases Subtree(fs.nodes, info.path)
  {
    hide TreeOk, Removed, RemovedSoFar, ChildNames, Spared, SparedSoFar, Pinned;
    var p := info.path;
    ghost var before := fs.nodes;
    if !info.isDir {
      FileIsLeaf(before, p);
      LeafRemoved(before, p);
      var err := fs.DeleteFile(p);
      failures' := failures;
      if err.Some? {
        NothingRemoved(before, Row(p, false, err.value));
        failures' := failures + [Row(p, false, err.value)];
      }
      assert failures'[|failures|..] == if err.Some? then [Row(p, false, err.value)] else [];
      return;
    }
    var listed := fs.ListDir(p);
    if listed.Err? {
      NothingRemoved(before, Row(p, true, listed.error));
      failures' := failures + [Row(p, true, listed.error)];
      assert failures'[|failures|..] == [Row(p, true, listed.error)];
      return;
    }
    failures' := RemoveMembers(fs, p, listed.value, failures);
    ghost var now := fs.nodes;
    if |failures'| != |failures| {
      // Something below is still there; the rows already say what.
      MembersLeft(before, now, p, failures'[|failures|..]);
      if fs.steady {
        RowsLeft(before, now, p, failures'[|failures|..]);
        SparedMembersLeft(before, now, p, failures'[|failures|..], fs.refused);
      }
      return;
    }
    assert failures'[|failures|..] == [];
    MembersGone(before, now, p);
    if fs.steady {
      SparedMembersGone(before, now, p, fs.refused);
    }
    EmptyDirIsLeaf(now, p);
    var err := fs.DeleteDir(p);
    if err.None? {
      LeafRemoved(now, p);
    } else {
      KeptAlone(before, now, Row(p, true, err.value));
      failures' := failures' + [Row(p, true, err.value)];
      assert failures'[|failures|..] == [Row(p, true, err.value)];
    }
  }

  lemma RowsLeft(before: Tree, now: Tree, p: Path, rows: seq<Row>)
    requires RemovedSoFar(before, now, p, {}, rows)
    ensures Shrunk(before, now) && RowsVisited(now, p, {}, rows)
  {
  }

  lemma KeptAlone(before: Tree, now: Tree, row: Row)
    requires RemovedSoFar(before, now, row.path, {}, []) && row.path in before
    requires forall q | q in now && row.path <= q :: q == row.path
    ensures Removed(before, now, row.path, [row])
  {
    assert !Visited(row.path, {}, row.path);
    forall q | q in before && !(row.path <= q)
      ensures q in now
    {
      assert !Visited(row.path, {}, q);
    }
    assert row in [row] && Related(row.path, row.path);
  }

  /** The loop of removeTree over the entries a collection listed. */
  method RemoveMembers(fs: FileSystem, p: Path, entries: seq<string>, failures: seq<Row>)
    returns (failures': seq<Row>)
    requires TreeOk(fs.nodes) && IsDirAt(fs.nodes, p) && Lists(fs.nodes, p, entries)
    modifies fs
    ensures TreeOk(fs.nodes) && IsDirAt(fs.nodes, p)
    ensures failures <= failures'
    ensures RemovedSoFar(old(fs.nodes), fs.nodes, p, {}, failures'[|failures|..])
    ensures fs.steady ==> SparedSoFar(old(fs.nodes), fs.nodes, p, {}, fs.refused)
    ensures fs.reliable ==> failures' == failures
    decreases Subtree(fs.nodes, p), 0
  {
    hide TreeOk, Removed, RemovedSoFar, Lists, Remaining, Spared, SparedSoFar, Shrunk;
    ghost var before := fs.nodes;
    failures' := failures;
    assert entries[0..] == entries && failures'[|failures|..] == [];
    AllListed(before, p, entries);
    NothingVisited(before, p, Remaining(entries));
    for i := 0 to |entries|
      invariant TreeOk(fs.nodes)
      invariant failures <= failures'
      invariant RemovedSoFar(before, fs.nodes, p, Remaining(entries[i..]), failures'[|failures|..])
      invariant fs.steady ==> SparedSoFar(before, fs.nodes, p, Remaining(entries[i..]), fs.refused)
      invariant fs.reliable ==> failures' == failures
    {
      var n := entries[i];
      Listed(before, p, entries, i);
      if n == "." || n == ".." {
        assert Remaining(entries[i + 1..]) == Remaining(entries[i..]) by {
          NoDotsRemain(entries[i..]);
        }
        continue;
      }
      ghost var now, left, rows := fs.nodes, Remaining(entries[i..]), failures'[|failures|..];
      MemberKept(before, now, p, n, left, rows);
      var child := Lookup(fs, p + [n]);
      match child {
        case Err(error) =>
          NothingRemoved(now, Row(p + [n], false, error));
          failures' := failures' + [Row(p + [n], false, error)];
          assert failures'[|failures|..] == rows + [Row(p + [n], false, error)];
          RemovedMember(before, now, now, p, n, left, rows, [Row(p + [n], false, error)]);
        case Ok(found) =>
          ghost var sofar := failures';
          failures' := RemoveTree(fs, found, failures');
          assert failures'[|failures|..] == rows + failures'[|sofar|..];
          RemovedMember(before, now, fs.nodes, p, n, left, rows, failures'[|sofar|..]);
          if fs.steady {
            BothShrunk(before, now, fs.nodes, p, n, left, rows, failures'[|sofar|..]);
            SparedMember(before, now, fs.nodes, p, n, left, fs.refused);
          }
      }
    }
    NoneRemain(entries);
    AllVisited(before, fs.nodes, p, failures'[|failures|..]);
  }

  lemma BothShrunk(before: Tree, now: Tree, next: Tree, p: Path, n: string, left: set<string>,
                   rows: seq<Row>, more: seq<Row>)
    requires RemovedSoFar(before, now, p, left, rows) && Removed(now, next, p + [n], more)
    ensures Shrunk(before, now) && Shrunk(now, next)
  {
  }

  lemma MemberKept(before: Tree, now: Tree, p: Path, n: string, left: set<string>, rows: seq<Row>)
    requires RemovedSoFar(before, now, p, left, rows) && n in left && p + [n] in before && p in before
    ensures p + [n] in now
    ensures Subtree(now, p + [n]) < Subtree(before, p)
  {
    assert (p + [n])[|p|] == n;
    assert !Visited(p, left, p + [n]);
    MemberSmaller(before, now, p, n);
  }

  lemma AllVisited(before: Tree, now: Tree, p: Path, rows: seq<Row>)
    requires RemovedSoFar(before, now, p, {}, rows) && IsDirAt(before, p)
    ensures IsDirAt(now, p)
  {
    assert !Visited(p, {}, p);
  }

  // -------------------------------------------------------------------------
  // copyTree: what it promises
  // -------------------------------------------------------------------------

  predicate SameOutside(before: Tree, after: Tree, p: Path) {
    && (forall q | q in before && !(p <= q) :: q in after && after[q] == before[q])
    && (forall q | q in after && !(p <= q) :: q in before)
  }

  /** Some row is at or above `q`: the copy of `q` was not promised. */
  predicate Excused(q: Path, rows: seq<Row>) {
    exists row | row in rows :: row.path <= q
  }

  predicate Wanted(src: Path, deep: bool, k: Path) {
    src <= k && (deep || k == src)
  }

  predicate CopiedTo(before: Tree, after: Tree, k: Path, q: Path) {
    k in before && q in after && after[q] == before[k]
  }

  predicate NothingExtra(before: Tree, after: Tree, src: Path, dst: Path, deep: bool) {
    forall q | q in after && dst <= q ::
      var k := Rebase(q, dst, src);
      k in before && Wanted(src, deep, k) && after[q].Dir? == before[k].Dir?
  }

  predicate AllCopied(before: Tree, after: Tree, src: Path, dst: Path, deep: bool, rows: seq<Row>) {
    forall k | k in before && Wanted(src, deep, k) ::
      CopiedTo(before, after, k, Rebase(k, src, dst)) || Excused(Rebase(k, src, dst), rows)
  }

  predicate RowsUnder(p: Path, rows: seq<Row>) {
    forall row | row in rows :: p <= row.path
  }

  /**
   A copy of `src` at `dst`: nothing outside the destination changes, the destination holds
   counterparts of source members and nothing else, and every member it does not hold exactly
   is at or below a row.
   */
  predicate Copied(before: Tree, after: Tree, src: Path, dst: Path, deep: bool, rows: seq<Row>) {
    && SameOutside(before, after, dst)
    && NothingExtra(before, after, src, dst, deep)
    && AllCopied(before, after, src, dst, deep, rows)
    && RowsUnder(dst, rows)
  }

  /** With no rows the destination is an exact copy: the whole subtree, or at depth 0 the node alone. */
  lemma CleanCopyIsExact(before: Tree, after: Tree, src: Path, dst: Path, deep: bool)
    requires Copied(before, after, src, dst, deep, [])
    ensures forall tail: Path ::
              dst + tail in after <==> src + tail in before && (deep || tail == [])
    ensures forall tail: Path | dst + tail in after :: after[dst + tail] == before[src + tail]
  {
    forall tail: Path
      ensures dst + tail in after <==> src + tail in before && (deep || tail == [])
      ensures dst + tail in after ==> after[dst + tail] == before[src + tail]
    {
      var q, k := dst + tail, src + tail;
      assert Rebase(q, dst, src) == k && Rebase(k, src, dst) == q;
      assert !Excused(q, []);
      assert k == src <==> tail == [] by {
        assert tail == k[|src|..];
      }
    }
  }

  // -------------------------------------------------------------------------
  // copyTree: the loop over the members of a collection
  // -------------------------------------------------------------------------

  predicate OnlyVisitedCopied(before: Tree, now: Tree, src: Path, dst: Path, left: set<string>) {
    forall q | q in now && dst < q ::
      var k := Rebase(q, dst, src);
      q[|dst|] !in left && k in before && now[q].Dir? == before[k].Dir?
  }

  predicate VisitedCopied(before: Tree, now: Tree, src: Path, dst: Path, left: set<string>, rows: seq<Row>) {
    forall k | k in before && Visited(src, left, k) ::
      CopiedTo(before, now, k, Rebase(k, src, dst)) || Excused(Rebase(k, src, dst), rows)
  }

  predicate CopiedSoFar(before: Tree, now: Tree, src: Path, dst: Path, left: set<string>, rows: seq<Row>) {
    && SameOutside(before, now, dst)
    && IsDirAt(now, dst)
    && OnlyVisitedCopied(before, now, src, dst, left)
    && VisitedCopied(before, now, src, dst, left, rows)
    && RowsUnder(dst, rows)
  }

  /** Where a copy may go: a free name in a directory. */
  ghost predicate CanPlace(t: Tree, dst: Path) {
    TreeOk(t) && IsPath(dst) && dst !in t && dst != [] && IsDirAt(t, Parent(dst))
  }

  /** The source is there, and the destination is not inside it. */
  ghost predicate CanCopy(t: Tree, src: Path, dst: Path) {
    CanPlace(t, dst) && src in t && !(src <= dst)
  }

  predicate Free(t: Tree, dst: Path) {
    forall q | q in t :: !(dst <= q)
  }

  lemma SourceApart(t: Tree, src: Path, dst: Path)
    requires CanCopy(t, src, dst)
    ensures Diverge(src, dst) && Free(t, dst)
  {
    NothingUnderAbsent(t, dst);
  }

  lemma RebaseMember(q: Path, src: Path, dst: Path, n: string)
    requires dst + [n] <= q
    ensures dst <= q && Rebase(q, dst + [n], src + [n]) == Rebase(q, dst, src)
    ensures src + [n] <= Rebase(q, dst, src)
  {
    BelowMember(dst, n, q);
    assert q[|dst|..] == [n] + q[|dst| + 1..];
    assert src + [n] + q[|dst| + 1..] == src + ([n] + q[|dst| + 1..]);
    assert Rebase(q, dst, src)[..|src| + 1] == src + [n];
  }

  lemma ExcusedMore(q: Path, rows: seq<Row>, more: seq<Row>)
    ensures Excused(q, rows) || Excused(q, more) ==> Excused(q, rows + more)
  {
    if Excused(q, rows) {
      var row :| row in rows && row.path <= q;
      assert row in rows + more;
    } else if Excused(q, more) {
      var row :| row in more && row.path <= q;
      assert row in rows + more;
    }
  }

  lemma OutsideStep(before: Tree, now: Tree, next: Tree, dst: Path, n: string)
    requires SameOutside(before, now, dst) && SameOutside(now, next, dst + [n])
    ensures SameOutside(before, next, dst)
    ensures IsDirAt(now, dst) ==> IsDirAt(next, dst)
  {
    forall q | q in before + next && !(dst <= q)
      ensures !(dst + [n] <= q)
    {
      BelowMember(dst, n, q);
    }
    BelowMember(dst, n, dst);
  }

  lemma OnlyVisitedStep(before: Tree, now: Tree, next: Tree, src: Path, dst: Path, n: string, left: set<string>)
    requires OnlyVisitedCopied(before, now, src, dst, left) && n in left
    requires SameOutside(before, now, dst) && Diverge(src, dst)
    requires SameOutside(now, next, dst + [n]) && NothingExtra(now, next, src + [n], dst + [n], true)
    ensures OnlyVisitedCopied(before, next, src, dst, left - {n})
  {
    forall q | q in next && dst < q
      ensures q[|dst|] !in left - {n}
      ensures Rebase(q, dst, src) in before && next[q].Dir? == before[Rebase(q, dst, src)].Dir?
    {
      BelowMember(dst, n, q);
      if dst + [n] <= q {
        RebaseMember(q, src, dst, n);
        var k := Rebase(q, dst, src);
        BelowMember(src, n, k);
        NothingUnderBoth(src, dst, k);
        assert k in now;
      } else {
        assert q in now && next[q] == now[q];
      }
    }
  }

  lemma VisitedCopiedStep(before: Tree, now: Tree, next: Tree, src: Path, dst: Path, n: string, left: set<string>,
                          rows: seq<Row>, more: seq<Row>)
    requires VisitedCopied(before, now, src, dst, left, rows) && n in left
    requires SameOutside(before, now, dst) && Diverge(src, dst)
    requires SameOutside(now, next, dst + [n]) && AllCopied(now, next, src + [n], dst + [n], true, more)
    ensures VisitedCopied(before, next, src, dst, left - {n}, rows + more)
  {
    forall k | k in before && Visited(src, left - {n}, k)
      ensures CopiedTo(before, next, k, Rebase(k, src, dst)) || Excused(Rebase(k, src, dst), rows + more)
    {
      var q := Rebase(k, src, dst);
      BelowMember(src, n, k);
      ExcusedMore(q, rows, more);
      if src + [n] <= k {
        RebaseMember(k, dst, src, n);
        NothingUnderBoth(src, dst, k);
        assert k in now && now[k] == before[k] && Wanted(src + [n], true, k);
        assert CopiedTo(now, next, k, q) || Excused(q, more);
      } else {
        assert Visited(src, left, k);
        assert q[|dst|] == k[|src|];
        BelowMember(dst, n, q);
      }
    }
  }

  lemma CopiedMember(before: Tree, now: Tree, next: Tree, src: Path, dst: Path, n: string, left: set<string>,
                     rows: seq<Row>, more: seq<Row>)
    requires CopiedSoFar(before, now, src, dst, left, rows) && n in left
    requires Diverge(src, dst)
    requires Copied(now, next, src + [n], dst + [n], true, more)
    ensures CopiedSoFar(before, next, src, dst, left - {n}, rows + more)
  {
    assert RowsUnder(dst, rows + more) by {
      forall row | row in more
        ensures dst <= row.path
      {
        BelowMember(dst, n, row.path);
      }
    }
    hide SameOutside, NothingExtra, AllCopied, OnlyVisitedCopied, VisitedCopied, RowsUnder;
    OutsideStep(before, now, next, dst, n);
    OnlyVisitedStep(before, now, next, src, dst, n, left);
    VisitedCopiedStep(before, now, next, src, dst, n, left, rows, more);
  }

  lemma NothingCopied(t: Tree, src: Path, dst: Path, deep: bool, row: Row)
    requires row.path == dst && Free(t, dst)
    ensures Copied(t, t, src, dst, deep, [row])
  {
    forall k | src <= k
      ensures Excused(Rebase(k, src, dst), [row])
    {
      assert row in [row] && row.path <= Rebase(k, src, dst);
    }
  }

  lemma NodeCopied(before: Tree, after: Tree, src: Path, dst: Path, deep: bool)
    requires CanCopy(before, src, dst)
    requires after == before[dst := before[src]]
    requires !deep || forall k | k in before && src <= k :: k == src
    ensures Copied(before, after, src, dst, deep, [])
  {
    SourceApart(before, src, dst);
    RebaseBack(src, src, dst);
    assert Rebase(dst, dst, src) == src && Rebase(src, src, dst) == dst;
    assert CopiedTo(before, after, src, dst);
  }

  lemma PartlyCopied(before: Tree, after: Tree, src: Path, dst: Path, deep: bool, row: Row)
    requires CanCopy(before, src, dst) && row.path == dst
    requires dst in after && after == before[dst := after[dst]] && after[dst].Dir? == before[src].Dir?
    ensures Copied(before, after, src, dst, deep, [row])
  {
    SourceApart(before, src, dst);
    assert Rebase(dst, dst, src) == src;
    forall k | src <= k
      ensures Excused(Rebase(k, src, dst), [row])
    {
      assert row in [row] && row.path <= Rebase(k, src, dst);
    }
  }

  lemma NothingCopiedYet(before: Tree, src: Path, dst: Path, names: set<string>)
    requires CanCopy(before, src, dst) && IsDirAt(before, src)
    requires forall n | src + [n] in before :: n in names
    ensures CopiedSoFar(before, before[dst := Dir], src, dst, names, [])
  {
    SourceApart(before, src, dst);
    NoneVisited(before, src, names);
  }

  lemma MembersCopied(before: Tree, now: Tree, src: Path, dst: Path, rows: seq<Row>)
    requires CopiedSoFar(before, now, src, dst, {}, rows) && IsDirAt(before, src)
    ensures Copied(before, now, src, dst, true, rows)
  {
    assert Rebase(dst, dst, src) == src && Rebase(src, src, dst) == dst;
    forall q | q in now && dst <= q
      ensures var k := Rebase(q, dst, src);
              k in before && Wanted(src, true, k) && now[q].Dir? == before[k].Dir?
    {
      RebaseBack(q, dst, src);
    }
    forall k | k in before && Wanted(src, true, k)
      ensures CopiedTo(before, now, k, Rebase(k, src, dst)) || Excused(Rebase(k, src, dst), rows)
    {
      if k != src {
        assert Visited(src, {}, k);
      }
    }
  }

  lemma MemberCanCopy(before: Tree, now: Tree, src: Path, dst: Path, n: string, left: set<string>, rows: seq<Row>)
    requires CanCopy(before, src, dst) && TreeOk(now)
    requires CopiedSoFar(before, now, src, dst, left, rows) && n in left && src + [n] in before
    ensures CanCopy(now, src + [n], dst + [n])
    ensures Free(now, dst + [n])
    ensures Subtree(now, src + [n]) < Subtree(before, src)
  {
    SourceApart(before, src, dst);
    BelowMember(src, n, src + [n]);
    assert (src + [n])[|src|] == n && IsName(n);
    assert Parent(dst + [n]) == dst;
    forall q | dst + [n] <= q
      ensures q !in now
    {
      BelowMember(dst, n, q);
    }
    NothingUnderBoth(dst, src, dst + [n]);
    BelowMember(src, n, dst + [n]);
    assert src in Subtree(before, src) && src !in Subtree(now, src + [n]);
    forall q | q in Subtree(now, src + [n])
      ensures q in Subtree(before, src)
    {
      BelowMember(src, n, q);
      NothingUnderBoth(src, dst, q);
    }
  }

  lemma AddedNodeOk(t: Tree, p: Path, node: Node)
    requires TreeOk(t) && IsPath(p) && p != [] && IsDirAt(t, Parent(p))
    requires p !in t || (t[p].File? && node.File?)
    ensures TreeOk(t[p := node])
  {
  }

  // -------------------------------------------------------------------------
  // copyTree
  // -------------------------------------------------------------------------

  /**
   `copyFile` has three ways: read and write the whole file where the driver opens none, the
   same where an opened file cannot be written in place, and a copy between two open files.
   */
  method CopyFile(fs: FileSystem, src: Path, dst: Path) returns (err: Option<Error>)
    requires dst !in fs.nodes && fs.CanWrite(dst) && src != dst
    modifies fs
    ensures err.None? ==> IsFileAt(old(fs.nodes), src) && fs.nodes == old(fs.nodes)[dst := old(fs.nodes)[src]]
    ensures err.Some? && fs.nodes != old(fs.nodes) ==>
              && IsFileAt(old(fs.nodes), src) && IsFileAt(fs.nodes, dst)
              && fs.nodes == old(fs.nodes)[dst := fs.nodes[dst]]
    ensures err.None? && fs.opens && fs.writesInPlace ==> dst !in fs.unsynced
    ensures fs.steady && IsFileAt(old(fs.nodes), src) ==> err.None?
  {
    if !fs.opens {
      err := CopyWhole(fs, src, dst);
      return;
    }
    var source := fs.OpenFile(src);
    match source {
      case OpenFailed(error) => return Some(error);
      case NilFile => return Some(Other(500));
      case Opened(_, size) =>
        // There must be a file before there can be an open one.
        err := fs.WriteFile(dst, []);
        if err.Some? {
          return;
        }
        var target := fs.OpenFile(dst);
        match target {
          case OpenFailed(error) => return Some(error);
          case NilFile => return Some(Other(500));
          case Opened(writable, _) =>
            if !writable {
              err := CopyWhole(fs, src, dst);
              return;
            }
            err := CopyRanged(fs, src, dst, size);
        }
    }
  }

  method CopyWhole(fs: FileSystem, src: Path, dst: Path) returns (err: Option<Error>)
    requires fs.CanWrite(dst)
    modifies fs
    ensures err.None? ==> IsFileAt(old(fs.nodes), src) && fs.nodes == old(fs.nodes)[dst := old(fs.nodes)[src]]
    ensures err.Some? ==> fs.nodes == old(fs.nodes)
    ensures fs.steady && IsFileAt(old(fs.nodes), src) ==> err.None?
  {
    var data := fs.ReadFile(src);
    if data.Err? {
      return Some(data.error);
    }
    err := fs.WriteFile(dst, data.value);
  }

  method CopyRanged(fs: FileSystem, src: Path, dst: Path, size: nat) returns (err: Option<Error>)
    requires IsFileAt(fs.nodes, src) && IsFileAt(fs.nodes, dst) && src != dst
    requires |fs.nodes[src].data| <= size && (fs.steady ==> |fs.nodes[src].data| == size)
    modifies fs
    ensures IsFileAt(fs.nodes, dst) && fs.nodes == old(fs.nodes)[dst := fs.nodes[dst]]
    ensures err.None? ==> fs.nodes[dst] == old(fs.nodes)[src]
    ensures err.None? ==> dst !in fs.unsynced
    ensures fs.steady ==> err.None?
  {
    ghost var wanted := fs.nodes[src].data;
    err := fs.Truncate(dst, size);
    if err.None? {
      var n;
      n, err := fs.CopyRange(dst, src, size);
      if err.None? {
        if n != size {
          err := Some(Other(500));
        } else {
          assert fs.nodes[dst].data == fs.nodes[dst].data[..n] && wanted == wanted[..n];
        }
      }
    }
    if err.None? {
      err := fs.Sync(dst);
    }
    var closed := fs.Close();
    if err.None? {
      err := closed;
    }
  }

  /**
   `copyTree`, to a free name; what could not be copied is named in a row.  The caller looked the
   source up before it cleared the destination, so the source may be gone.
   */
  method CopyTree(fs: FileSystem, src: ResourceInfo, dst: Path, deep: bool, failures: seq<Row>)
    returns (failures': seq<Row>)
    requires CanPlace(fs.nodes, dst) && !(src.path <= dst)
    requires src.path in fs.nodes ==> src.isDir == fs.nodes[src.path].Dir?
    modifies fs
    ensures TreeOk(fs.nodes)
    ensures failures <= failures'
    ensures src.path in old(fs.nodes) ==>
              Copied(old(fs.nodes), fs.nodes, src.path, dst, deep, failures'[|failures|..])
    ensures src.path !in old(fs.nodes) && fs.nodes != old(fs.nodes) ==>
              src.isDir && fs.nodes == old(fs.nodes)[dst := Dir] && (failures' != failures ==> deep)
    ensures src.path !in old(fs.nodes) && failures' == failures ==>
              src.isDir && !deep && fs.nodes == old(fs.nodes)[dst := Dir]
    ensures fs.steady ==>
              (failures' == failures <==> src.path in old(fs.nodes) || (src.isDir && !deep))
    ensures fs.steady && src.path !in old(fs.nodes) && src.isDir ==> fs.nodes == old(fs.nodes)[dst := Dir]
    decreases Subtree(fs.nodes, src.path)
  {
    ghost var before, p := fs.nodes, src.path;
    hide Copied, CopiedSoFar, TreeOk;
    if !src.isDir {
      var err := CopyFile(fs, src.path, dst);
      failures' := if err.Some? then failures + [Row(dst, false, err.value)] else failures;
      assert failures'[|failures|..] == if err.Some? then [Row(dst, false, err.value)] else [];
      if fs.nodes != before {
        AddedNodeOk(before, dst, fs.nodes[dst]);
      }
      if p in before {
        FileCopied(before, fs.nodes, p, dst, deep, failures'[|failures|..]);
      }
      return;
    }
    PlacedDirOk(before, dst);
    var err := fs.MkDir(dst);
    if err.Some? {
      failures' := failures + [Row(dst, true, err.value)];
      assert failures'[|failures|..] == [Row(dst, true, err.value)];
      if p in before {
        SourceApart(before, p, dst);
        NothingCopied(before, p, dst, deep, Row(dst, true, err.value));
      }
      return;
    }
    if !deep {
      failures' := failures;
      assert failures'[|failures|..] == [];
      if p in before {
        NodeCopied(before, fs.nodes, p, dst, deep);
      }
      return;
    }
    var listed := fs.ListDir(src.path);
    if listed.Err? {
      failures' := failures + [Row(dst, true, listed.error)];
      assert failures'[|failures|..] == [Row(dst, true, listed.error)];
      if p in before {
        PartlyCopied(before, fs.nodes, p, dst, deep, Row(dst, true, listed.error));
      }
      return;
    }
    failures' := CopyMembers(fs, src.path, dst, listed.value, failures, before);
    MembersCopied(before, fs.nodes, p, dst, failures'[|failures|..]);
  }

  lemma PlacedDirOk(before: Tree, dst: Path)
    requires CanPlace(before, dst)
    ensures TreeOk(before[dst := Dir])
  {
    AddedNodeOk(before, dst, Dir);
  }

  lemma FileCopied(before: Tree, after: Tree, src: Path, dst: Path, deep: bool, rows: seq<Row>)
    requires CanCopy(before, src, dst) && before[src].File?
    requires rows == [] ==> after == before[dst := before[src]]
    requires rows != [] ==> |rows| == 1 && rows[0].path == dst
    requires after != before ==> IsFileAt(after, dst) && after == before[dst := after[dst]]
    ensures Copied(before, after, src, dst, deep, rows)
  {
    if rows == [] {
      FileIsLeaf(before, src);
      NodeCopied(before, after, src, dst, deep);
    } else {
      assert rows == [rows[0]];
      if after == before {
        SourceApart(before, src, dst);
        NothingCopied(before, src, dst, deep, rows[0]);
      } else {
        PartlyCopied(before, after, src, dst, deep, rows[0]);
      }
    }
  }

  /** The loop of copyTree over the entries the source collection listed. */
  method CopyMembers(fs: FileSystem, src: Path, dst: Path, entries: seq<string>, failures: seq<Row>,
                     ghost before: Tree)
    returns (failures': seq<Row>)
    requires CanCopy(before, src, dst) && IsDirAt(before, src)
    requires TreeOk(fs.nodes) && fs.nodes == before[dst := Dir] && Lists(fs.nodes, src, entries)
    modifies fs
    ensures TreeOk(fs.nodes)
    ensures failures <= failures'
    ensures CopiedSoFar(before, fs.nodes, src, dst, {}, failures'[|failures|..])
    ensures fs.steady ==> failures' == failures
    decreases Subtree(before, src), 1
  {
    hide TreeOk, CanCopy, Copied, CopiedSoFar, Lists, Remaining;
    failures' := failures;
    MembersListed(before, src, dst, entries);
    NothingCopiedYet(before, src, dst, Remaining(entries));
    assert entries[0..] == entries;
    ghost var rows: seq<Row> := [];
    for i := 0 to |entries|
      invariant TreeOk(fs.nodes)
      invariant failures' == failures + rows
      invariant CopiedSoFar(before, fs.nodes, src, dst, Remaining(entries[i..]), rows)
      invariant fs.steady ==> failures' == failures
    {
      var n := entries[i];
      Listed(before, src, entries, i);
      if n == "." || n == ".." {
        assert Remaining(entries[i + 1..]) == Remaining(entries[i..]) by {
          NoDotsRemain(entries[i..]);
        }
        continue;
      }
      ghost var sofar := |failures'|;
      failures' := CopyMember(fs, src, dst, n, failures', before, Remaining(entries[i..]), rows);
      rows := rows + failures'[sofar..];
    }
    NoneRemain(entries);
    assert failures'[|failures|..] == rows;
  }

  /** One turn of the loop. */
  method CopyMember(fs: FileSystem, src: Path, dst: Path, n: string, failures: seq<Row>,
                    ghost before: Tree, ghost left: set<string>, ghost rows: seq<Row>)
    returns (failures': seq<Row>)
    requires CanCopy(before, src, dst) && TreeOk(fs.nodes) && src + [n] in before && n in left
    requires CopiedSoFar(before, fs.nodes, src, dst, left, rows)
    modifies fs
    ensures TreeOk(fs.nodes)
    ensures failures <= failures'
    ensures CopiedSoFar(before, fs.nodes, src, dst, left - {n}, rows + failures'[|failures|..])
    ensures fs.steady ==> failures' == failures
    decreases Subtree(before, src), 0
  {
    hide TreeOk, Copied, CopiedSoFar, Free, Diverge;
    ghost var now := fs.nodes;
    SourceApart(before, src, dst);
    MemberCanCopy(before, now, src, dst, n, left, rows);
    var child := Lookup(fs, src + [n]);
    match child {
      case Err(error) =>
        var row := Row(dst + [n], false, error);
        NothingCopied(now, src + [n], dst + [n], true, row);
        failures' := failures + [row];
        assert failures'[|failures|..] == [row];
        CopiedMember(before, now, now, src, dst, n, left, rows, [row]);
      case Ok(found) =>
        failures' := CopyTree(fs, found, dst + [n], true, failures);
        CopiedMember(before, now, fs.nodes, src, dst, n, left, rows, failures'[|failures|..]);
    }
  }

  lemma MembersListed(before: Tree, src: Path, dst: Path, entries: seq<string>)
    requires CanCopy(before, src, dst) && Lists(before[dst := Dir], src, entries)
    ensures Lists(before, src, entries)
    ensures forall n | src + [n] in before :: n in Remaining(entries)
  {
    SourceApart(before, src, dst);
    forall n
      ensures src + [n] != dst
    {
      NothingUnderBoth(src, dst, src + [n]);
    }
    AllListed(before, src, entries);
  }
}
