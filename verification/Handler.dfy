/**
 The methods that change the export (`write.go`, `lock.go`), over the driver's tree and the
 lock table together.  Each request runs alone: nothing else touches the tree or the table
 between its first and its last step.  `now` is the clock as a request reads it.
 */
module Handler {
  import opened Wrappers
  import opened Paths
  import opened Headers
  import opened Driver
  import opened TreeOps
  import opened LockSpec
  import opened LockSystem
  import opened RangePut
  import ContentRange
  import IfHeader
  import LockBody
  import PropBodies
  import Reference
  import XmlTokens

  /** `destination`: where a MOVE or COPY is to go, or why nowhere. */
  function Destination(prefix: string, header: Reference.DestinationHeader): Result<string, int> {
    match header
    case NoDestination => Err(400)
    case BadUrl => Err(400)
    case Url(otherHost, path) =>
      if otherHost then Err(502)
      else
        var p := Resource(prefix, path);
        if p.None? then Err(502) else Ok(p.value)
  }

  /** The names a destination leads to, or the status of its refusal: 400 for none, 502 beyond the export. */
  lemma DestinationLeads(prefix: string, header: Reference.DestinationHeader)
    ensures Destination(prefix, header).Ok? <==> Reference.Whereto(prefix, header).Ok?
    ensures Destination(prefix, header).Ok? ==>
              Reference.Whereto(prefix, header) == Ok(Comps(Destination(prefix, header).value))
    ensures Destination(prefix, header).Err? ==>
              Destination(prefix, header).error == if header.Url? then 502 else 400
    ensures Destination(prefix, header).Ok? <==>
              header.Url? && !header.otherHost && Resource(prefix, header.path).Some?
  {
  }

  /** writeLockError */
  function LockReply(err: LockError): Reply {
    match err
    case ErrLocked => Status(423)
    case ErrNoSuchLock => Status(409)
    case _ => Status(500)
  }

  /** `conflictOr`: the answer when the parent of a new resource cannot be looked up. */
  function ConflictOr(error: Error): Reply {
    if error.NotFound? then Status(409) else Failed(error)
  }

  /** Every lock covering the path had its token in the If header. */
  predicate Permitted(m: Table, p: Path, ifHeader: string) {
    ConfirmedBy(m, p, IfHeader.Scan(ifHeader, false))
  }

  /** At most the node at `p` differs. */
  ghost predicate OnlyAt(before: Tree, after: Tree, p: Path) {
    forall q | q != p :: SameAt(before, after, q)
  }

  /** The node at `q`, or its absence, is as it was. */
  predicate SameAt(before: Tree, after: Tree, q: Path) {
    (q in after <==> q in before) && (q in before ==> after[q] == before[q])
  }

  predicate Succeeded(reply: Reply) {
    reply == Status(201) || reply == Status(204)
  }

  // -------------------------------------------------------------------------
  // Facts about whole trees
  // -------------------------------------------------------------------------

  lemma RemovedAll(before: Tree, after: Tree, p: Path)
    requires Removed(before, after, p, [])
    ensures after == Without(before, p)
  {
    assert forall q :: !Mentioned(q, []);
  }

  lemma WithoutOk(t: Tree, p: Path)
    requires TreeOk(t) && p != []
    ensures TreeOk(Without(t, p))
    ensures p !in t ==> Without(t, p) == t
    ensures IsDirAt(t, Parent(p)) ==> IsDirAt(Without(t, p), Parent(p))
  {
    forall q | q in t && q != [] && !(p <= q)
      ensures !(p <= Parent(q))
    {
      assert Parent(q) <= q;
    }
    if p !in t {
      NothingUnderAbsent(t, p);
    }
  }

  /** One path of the tree after a move. */
  lemma RenamedAt(t: Tree, from: Path, to: Path, q: Path)
    ensures to <= q ==> (q in Renamed(t, from, to) <==>
              Rebase(q, to, from) in t || (q in t && !(from <= q)))
    ensures to <= q && Rebase(q, to, from) in t ==> Renamed(t, from, to)[q] == t[Rebase(q, to, from)]
    ensures !(to <= q) ==> (q in Renamed(t, from, to) <==> q in t && !(from <= q))
    ensures !(to <= q) && q in Renamed(t, from, to) ==> Renamed(t, from, to)[q] == t[q]
  {
    TakenAt(t, from, to, q);
    hide Taken;
  }

  /** The tree after a move: the subtree at its new place, and nothing else changed. */
  lemma MoveKeepsEverything(t: Tree, from: Path, to: Path)
    requires TreeOk(t) && from in t && to !in t && !(from <= to)
    ensures forall tail: Path :: to + tail in Renamed(t, from, to) <==> from + tail in t
    ensures forall tail: Path | from + tail in t :: Renamed(t, from, to)[to + tail] == t[from + tail]
    ensures forall q | !(to <= q) :: q in Renamed(t, from, to) <==> q in t && !(from <= q)
    ensures forall q | !(to <= q) && q in Renamed(t, from, to) :: Renamed(t, from, to)[q] == t[q]
  {
    NothingUnderAbsent(t, to);
    hide Renamed, TreeOk;
    forall tail: Path
      ensures to + tail in Renamed(t, from, to) <==> from + tail in t
      ensures from + tail in t ==> Renamed(t, from, to)[to + tail] == t[from + tail]
    {
      RenamedAt(t, from, to, to + tail);
      assert Rebase(to + tail, to, from) == from + tail;
    }
    forall q | !(to <= q)
      ensures q in Renamed(t, from, to) <==> q in t && !(from <= q)
      ensures q in Renamed(t, from, to) ==> Renamed(t, from, to)[q] == t[q]
    {
      RenamedAt(t, from, to, q);
    }
  }

  lemma RenamedOk(t: Tree, from: Path, to: Path)
    requires TreeOk(t) && IsPath(to) && to != [] && from != []
    requires from in t && to !in t && !(from <= to) && IsDirAt(t, Parent(to))
    ensures TreeOk(Renamed(t, from, to))
  {
    var after := Renamed(t, from, to);
    NothingUnderAbsent(t, to);
    hide Renamed;
    RenamedAt(t, from, to, []);
    forall q | q in after
      ensures IsPath(q)
      ensures q != [] ==> Parent(q) in after && after[Parent(q)].Dir?
    {
      RenamedAt(t, from, to, q);
      RenamedAt(t, from, to, Parent(q));
      if to <= q {
        RenamedParentMoved(t, from, to, q);
      } else {
        assert Parent(q) <= q;
      }
    }
  }

  lemma RenamedParentMoved(t: Tree, from: Path, to: Path, q: Path)
    requires TreeOk(t) && IsPath(to) && to != [] && from != [] && IsDirAt(t, Parent(to)) && !(from <= to)
    requires to <= q && Rebase(q, to, from) in t
    ensures IsPath(q)
    ensures to <= Parent(q) ==>
              Rebase(Parent(q), to, from) in t && t[Rebase(Parent(q), to, from)].Dir?
    ensures !(to <= Parent(q)) ==> IsDirAt(t, Parent(q)) && !(from <= Parent(q))
  {
    var tail := q[|to|..];
    var k := from + tail;
    assert q == to + tail && k == Rebase(q, to, from) && IsPath(k);
    if tail == [] {
      assert q == to && Parent(q) <= to && !(to <= Parent(q));
    } else {
      assert Parent(q) == to + tail[..|tail| - 1] && Parent(k) == from + tail[..|tail| - 1];
      assert Rebase(Parent(q), to, from) == Parent(k);
      assert forall c | c in q :: c in to || c in k;
    }
  }

  /** What PrepareDestination refuses before it looks at the tree. */
  predicate Misplaced(s: Path, d: Path) {
    s == d || d == [] || s < d
  }

  /** The answer of a driver that fails only on violated preconditions. */
  function Prepared(t: Tree, s: Path, d: Path, overwrite: Option<bool>): Result<int, Reply> {
    if Misplaced(s, d) then Err(Status(403))
    else if overwrite.None? then Err(Status(400))
    else if !IsDirAt(t, Parent(d)) then Err(Status(409))
    else if d !in t then Ok(201)
    else if !overwrite.value then Err(Status(412))
    else Ok(204)
  }

  /** A source inside the destination goes with it: /a/b is lost when /a is cleared for it. */
  lemma SourceInsideDestinationIsLost()
    ensures var t: Tree := map[[] := Dir, ["a"] := Dir, ["a", "b"] := File([])];
            && TreeOk(t) && Prepared(t, ["a", "b"], ["a"], Some(true)) == Ok(204)
            && ["a", "b"] !in Without(t, ["a"])
  {
    var t: Tree := map[[] := Dir, ["a"] := Dir, ["a", "b"] := File([])];
    assert Parent(["a"]) == [] && Parent(["a", "b"]) == ["a"];
    assert ["a"] <= ["a", "b"];
    assert !(["a", "b"] <= ["a"]);
  }

  /** No lock names a resource that is not there. */
  predicate NamesResources(m: Table, t: Tree) {
    forall q | q in m :: q in t
  }

  predicate NoneBelow(m: Table, p: Path) {
    forall q | q in m :: !(p < q)
  }

  lemma SurvivorsKeepLocks(before: Tree, after: Tree, m: Table, p: Path, rows: seq<Row>)
    requires Removed(before, after, p, rows) && rows != []
    requires NamesResources(m, before) && NoneBelow(m, p)
    ensures NamesResources(m, after)
  {
    forall q | q in m
      ensures q in after
    {
      assert p <= q ==> q == p;
    }
  }

  /** A delete that stops at `p` itself may have taken anything below it. */
  lemma StrandedBelow(t: Tree, p: Path, q: Path)
    requires TreeOk(t) && p in t && p < q
    ensures TreeOk(Without(t, q))
    ensures Removed(t, Without(t, q), p, [Row(p, true, Other(403))])
    ensures q !in Without(t, q)
  {
    WithoutOk(t, q);
    var row := Row(p, true, Other(403));
    forall x | x in Without(t, q) && p <= x
      ensures Mentioned(x, [row])
    {
      assert row in [row] && Related(x, row.path);
    }
  }

  /**
   When clearing `p` stops short, every lock still names a resource in every outcome exactly
   when no lock lay strictly below `p` to begin with.
   */
  lemma StrandsExactly(t: Tree, m: Table, p: Path)
    requires TreeOk(t) && p in t && NamesResources(m, t)
    ensures NoneBelow(m, p) <==>
            forall after, rows | TreeOk(after) && Removed(t, after, p, rows) && rows != [] :: NamesResources(m, after)
  {
    hide TreeOk, Removed, Without;
    if NoneBelow(m, p) {
      forall after, rows | TreeOk(after) && Removed(t, after, p, rows) && rows != []
        ensures NamesResources(m, after)
      {
        SurvivorsKeepLocks(t, after, m, p, rows);
      }
    } else {
      var q :| q in m && p < q;
      StrandedBelow(t, p, q);
      assert !NamesResources(m, Without(t, q));
    }
  }

  /**
   The same over the steady drivers that make a DELETE of `p` stop short, each by the deletes it
   refuses: by what ServeDelete promises of them, the locks name resources afterwards on every
   such driver exactly when none lay strictly below `p`.
   */
  lemma RefusalsStrandExactly(t: Tree, m: Table, p: Path)
    requires p in t
    ensures NoneBelow(m, p) <==>
            forall refused | Pinned(t, p, refused) :: forall q | q in m && p <= q :: Pinned(t, q, refused)
  {
    if !NoneBelow(m, p) {
      var q :| q in m && p < q;
      assert p in {p} && Pinned(t, p, {p});
      assert !Pinned(t, q, {p});
    } else {
      assert forall q | q in m && p <= q :: q == p;
    }
  }

  /** On a driver that refuses certain deletes, the locks left name resources exactly if each was pinned. */
  lemma SparedLocks(before: Tree, after: Tree, m: Table, p: Path, refused: set<Path>)
    requires Shrunk(before, after) && Spared(before, after, p, refused) && NamesResources(m, before)
    ensures NamesResources(m, after) <==> forall q | q in m && p <= q :: Pinned(before, q, refused)
  {
  }

  /** The locks left once `d` has been cleared: those under it go with whatever was there. */
  function ClearedTable(m: Table, t: Tree, d: Path): Table {
    if d in t then WithoutTree(m, d) else m
  }

  /** Once its tree is gone and its locks released, a path has neither. */
  lemma ClearedLocks(m: Table, t: Tree, d: Path)
    requires TreeOk(t) && NamesResources(m, t)
    ensures var left := ClearedTable(m, t, d);
            NamesResources(left, Without(t, d)) && forall q | q in left :: !(d <= q)
  {
    if d !in t {
      NothingUnderAbsent(t, d);
    }
  }

  class Server {
    const fs: FileSystem
    const locks: LockTable
    const prefix: string
    const maxBody: nat

    constructor (fs: FileSystem, locks: LockTable, prefix: string, maxBody: nat)
      requires TreeOk(fs.nodes) && locks.Valid() && PrefixAccepted(prefix)
      ensures Valid() && this.fs == fs && this.locks == locks
      ensures this.prefix == prefix && this.maxBody == maxBody
    {
      this.fs, this.locks, this.prefix, this.maxBody := fs, locks, prefix, maxBody;
    }

    ghost predicate Valid()
      reads this, fs, locks, locks.records
    {
      TreeOk(fs.nodes) && locks.Valid()
    }

    ghost predicate Consistent()
      reads this, fs, locks
    {
      NamesResources(locks.locks, fs.nodes)
    }

    function Setup(): Reference.Setting {
      Reference.Setting(fs.opens, fs.writesInPlace, fs.refused, maxBody)
    }

    /** The same server over a driver that refuses no delete. */
    function Faultless(): Reference.Setting {
      Setup().(refused := {})
    }

    /** The server stands, and answers, as expected. */
    ghost predicate Is(e: Reference.Expected, reply: Reply)
      reads fs, locks
    {
      fs.nodes == e.nodes && locks.locks == e.locks && Gives(reply, e.answer)
    }

    /** A destination is prepared as expected. */
    ghost predicate Follows(way: Reference.Way, t: Tree, m: Table, r: Result<int, Reply>)
      reads fs, locks
    {
      match way
      case Refused(code) => r == Err(Status(code)) && fs.nodes == t && locks.locks == m
      case Stopped(nodes) => r.Err? && r.error.Multistatus? && fs.nodes == nodes && locks.locks == m
      case Clear(nodes, left, code) => r == Ok(code) && fs.nodes == nodes && locks.locks == left
    }

    /** checkLocks */
    method CheckLocks(name: string, ifHeader: string, now: int) returns (err: Option<LockError>)
      requires locks.Valid() && Canonical(name)
      modifies locks
      ensures locks.Valid() && locks.records == old(locks.records)
      ensures locks.locks == Sweep(old(locks.locks), now)
      ensures err == if Permitted(locks.locks, Comps(name), ifHeader) then None else Some(ErrLocked)
    {
      hide LockTable.Valid, Canonical, Comps, Sweep, ConfirmedBy, IfHeader.Scan;
      var tokens := IfHeader.SubmittedTokens(ifHeader);
      err := locks.ConfirmTokens(name, tokens, now);
    }

    /**
     `prepareDestination`.  When it succeeds, the name is free, a collection is above it, and all
     that is gone is what stood there, with its locks.
     */
    method PrepareDestination(src: string, dst: string, overwriteHeader: string) returns (r: Result<int, Reply>)
      requires Valid() && Canonical(src) && Canonical(dst)
      modifies fs, locks
      ensures Valid() && locks.records == old(locks.records)
      ensures r.Ok? ==>
                && IsDirAt(fs.nodes, Parent(Comps(dst))) && fs.nodes == Without(old(fs.nodes), Comps(dst))
                && locks.locks == ClearedTable(old(locks.locks), old(fs.nodes), Comps(dst))
      ensures r.Ok? ==> r == Prepared(old(fs.nodes), Comps(src), Comps(dst), ParseOverwrite(overwriteHeader))
      // The source is intact exactly when it was not inside the destination.
      ensures r.Ok? && Comps(src) in old(fs.nodes) ==> (Comps(src) in fs.nodes <==> !(Comps(dst) <= Comps(src)))
      ensures r.Err? ==> locks.locks == old(locks.locks)
      ensures r.Err? && r.error.Status? ==> r.error.code in {400, 403, 409, 412}
      ensures r.Err? && !r.error.Multistatus? ==> fs.nodes == old(fs.nodes)
      ensures r.Err? && r.error.Multistatus? ==>
                Comps(dst) != [] && r.error.rows != [] && Removed(old(fs.nodes), fs.nodes, Comps(dst), r.error.rows)
      ensures r.Err? && r.error.Multistatus? && fs.steady ==>
                Spared(old(fs.nodes), fs.nodes, Comps(dst), fs.refused)
      ensures old(Consistent()) && ((r.Err? && r.error.Multistatus?) ==> NoneBelow(old(locks.locks), Comps(dst))) ==>
                Consistent()
      ensures Misplaced(Comps(src), Comps(dst)) <==> r == Err(Status(403))
      ensures r == Err(Status(400)) ==> ParseOverwrite(overwriteHeader).None?
      ensures r == Err(Status(409)) ==> !IsDirAt(old(fs.nodes), Parent(Comps(dst)))
      ensures r == Err(Status(412)) ==> Comps(dst) in old(fs.nodes) && ParseOverwrite(overwriteHeader) == Some(false)
      ensures fs.reliable ==>
                r == Prepared(old(fs.nodes), Comps(src), Comps(dst), ParseOverwrite(overwriteHeader))
      ensures fs.steady ==>
                Follows(Reference.Clearing(Setup(), old(fs.nodes), old(locks.locks), Comps(src), Comps(dst),
                                           ParseOverwrite(overwriteHeader)),
                        old(fs.nodes), old(locks.locks), r)
      ensures r.Ok? ==>
                Follows(Reference.Clearing(Faultless(), old(fs.nodes), old(locks.locks), Comps(src), Comps(dst),
                                           ParseOverwrite(overwriteHeader)),
                        old(fs.nodes), old(locks.locks), r)
    {
      hide TreeOk, LockTable.Valid, Canonical, Comps, Render, Removed, Spared, ParseOverwrite, Without, WithoutTree,
           ParentOf, StrictlyUnder, NamesResources, NoneBelow, Pinned, Reference.SparedTree;
      ghost var t, s, d := fs.nodes, Comps(src), Comps(dst);
      PathFacts(src, dst);
      NothingPinned(t, d);
      SurvivesClearing(t, d, d);
      if NamesResources(locks.locks, t) {
        ClearedLocks(locks.locks, t, d);
      }
      if dst == src {
        return Err(Status(403));
      }
      if dst == "/" {
        return Err(Status(403));
      }
      if StrictlyUnder(src, dst) {
        return Err(Status(403));
      }
      var overwrite := ParseOverwrite(overwriteHeader);
      if overwrite.None? {
        return Err(Status(400));
      }
      WithoutOk(t, d);
      var parent := Lookup(fs, Comps(ParentOf(dst)));
      if parent.Err? {
        return Err(ConflictOr(parent.error));
      }
      if !parent.value.isDir {
        return Err(Status(409));
      }
      SurvivesClearing(t, s, d);
      var existing := Lookup(fs, Comps(dst));
      if existing.Err? {
        if !existing.error.NotFound? {
          return Err(Failed(existing.error));
        }
        return Ok(201);
      }
      if !overwrite.value {
        return Err(Status(412));
      }
      var failures := RemoveTree(fs, existing.value, []);
      assert failures[0..] == failures;
      RemovedOutcome(t, fs.nodes, locks.locks, d, failures, fs.refused);
      if |failures| > 0 {
        if NamesResources(locks.locks, t) && NoneBelow(locks.locks, d) {
          SurvivorsKeepLocks(t, fs.nodes, locks.locks, d, failures);
        }
        return Err(Multistatus(failures));
      }
      RemovedAll(t, fs.nodes, d);
      locks.ReleaseLocksUnder(dst);
      r := Ok(204);
    }

    lemma PathFacts(src: string, dst: string)
      requires Canonical(src) && Canonical(dst)
      ensures dst == src <==> Comps(src) == Comps(dst)
      ensures dst == "/" <==> Comps(dst) == []
      ensures StrictlyUnder(src, dst) <==> Comps(src) < Comps(dst)
      ensures Comps(ParentOf(dst)) == Parent(Comps(dst)) && IsPath(Comps(dst))
    {
      RootIsEmpty();
      CompsIsPath(dst);
      StringsAreComponents(src, dst, "n");
      StringsAreComponents(dst, dst, "n");
    }

    lemma SurvivesClearing(t: Tree, s: Path, d: Path)
      ensures s in Without(t, d) <==> s in t && !(d <= s)
      ensures s in Without(t, d) ==> Without(t, d)[s] == t[s]
    {
    }

    // -----------------------------------------------------------------------
    // DELETE
    // -----------------------------------------------------------------------

    method ServeDelete(name: string, ifHeader: string, now: int) returns (reply: Reply)
      requires Valid() && Canonical(name)
      modifies fs, locks
      ensures Valid() && locks.records == old(locks.records)
      ensures reply == Status(423) <==>
                Comps(name) != [] && !Permitted(Sweep(old(locks.locks), now), Comps(name), ifHeader)
      ensures reply == Status(403) <==> Comps(name) == []
      ensures reply == Status(204) ==>
                && Comps(name) in old(fs.nodes) && fs.nodes == Without(old(fs.nodes), Comps(name))
                && locks.locks == WithoutTree(Sweep(old(locks.locks), now), Comps(name))
      ensures reply.Multistatus? ==>
                && reply.rows != [] && Comps(name) != []
                && Removed(old(fs.nodes), fs.nodes, Comps(name), reply.rows)
                && locks.locks == Sweep(old(locks.locks), now)
      ensures reply != Status(204) && !reply.Multistatus? ==> fs.nodes == old(fs.nodes)
      ensures reply != Status(204) ==>
                locks.locks == if Comps(name) == [] then old(locks.locks) else Sweep(old(locks.locks), now)
      ensures reply.Status? ==> reply.code in {204, 403, 423}
      ensures SameOutside(old(fs.nodes), fs.nodes, Comps(name))
      ensures Tokens(locks.locks) <= Tokens(old(locks.locks))
      // Locks keep naming resources unless the delete stopped short above one of them.
      ensures old(Consistent()) && (reply.Multistatus? ==> NoneBelow(Sweep(old(locks.locks), now), Comps(name))) ==>
                Consistent()
      ensures fs.steady && old(Consistent()) && reply.Multistatus? ==>
                (Consistent() <==>
                   forall q | q in Sweep(old(locks.locks), now) && Comps(name) <= q ::
                     Pinned(old(fs.nodes), q, fs.refused))
      ensures fs.steady && (reply == Status(204) || reply.Multistatus?) ==>
                Spared(old(fs.nodes), fs.nodes, Comps(name), fs.refused)
      ensures fs.steady ==>
                (reply.Multistatus? <==>
                   && Comps(name) != [] && Comps(name) in old(fs.nodes)
                   && Permitted(Sweep(old(locks.locks), now), Comps(name), ifHeader)
                   && Pinned(old(fs.nodes), Comps(name), fs.refused))
      ensures fs.reliable && reply.Failed? ==> reply == Failed(NotFound)
      ensures fs.reliable ==>
                !reply.Multistatus? &&
                (reply == Status(204) <==>
                   && Comps(name) != [] && Comps(name) in old(fs.nodes)
                   && Permitted(Sweep(old(locks.locks), now), Comps(name), ifHeader))
      ensures fs.steady ==>
                Is(Reference.Delete(Setup(), old(fs.nodes), old(locks.locks), Comps(name),
                                    IfHeader.Scan(ifHeader, false), now), reply)
      ensures reply == Status(204) ==>
                Is(Reference.Delete(Faultless(), old(fs.nodes), old(locks.locks), Comps(name),
                                    IfHeader.Scan(ifHeader, false), now), reply)
    {
      hide TreeOk, LockTable.Valid, Canonical, Comps, Render, Removed, Spared, ConfirmedBy, NamesResources, NoneBelow,
           Pinned, Sweep, Tokens, Without, WithoutTree, SameOutside,
           IfHeader.Scan, Reference.SparedTree;
      NothingPinned(fs.nodes, Comps(name));
      NothingChanged(fs.nodes, Comps(name));
      PathFacts(name, name);
      if name == "/" {
        return Status(403);
      }
      var err := CheckLocks(name, ifHeader, now);
      ghost var t, p, live := fs.nodes, Comps(name), Sweep(old(locks.locks), now);
      SweptLocks(old(locks.locks), t, now);
      ReleasedLocks(live, p);
      if err.Some? {
        return LockReply(err.value);
      }
      var info := Lookup(fs, Comps(name));
      if info.Err? {
        return Failed(info.error);
      }
      var failures := RemoveTree(fs, info.value, []);
      assert failures[0..] == failures;
      RemovedInside(t, fs.nodes, p, failures);
      RemovedOutcome(t, fs.nodes, live, p, failures, fs.refused);
      if |failures| == 0 {
        RemovedAll(t, fs.nodes, p);
        locks.ReleaseLocksUnder(name);
        return Status(204);
      }
      reply := Multistatus(failures);
    }

    /** What a finished removeTree means for the locks `m`. */
    lemma RemovedOutcome(t: Tree, after: Tree, m: Table, p: Path, rows: seq<Row>, refused: set<Path>)
      requires TreeOk(t) && Removed(t, after, p, rows) && p in t
      ensures rows == [] && NamesResources(m, t) ==> NamesResources(WithoutTree(m, p), after)
      ensures rows != [] && NamesResources(m, t) && NoneBelow(m, p) ==> NamesResources(m, after)
      ensures Spared(t, after, p, refused) ==> (rows != [] <==> Pinned(t, p, refused))
      ensures Spared(t, after, p, refused) ==> after == Reference.SparedTree(t, p, refused)
      ensures Spared(t, after, p, refused) && NamesResources(m, t) ==>
                (NamesResources(m, after) <==> forall q | q in m && p <= q :: Pinned(t, q, refused))
    {
      if rows != [] && NamesResources(m, t) && NoneBelow(m, p) {
        SurvivorsKeepLocks(t, after, m, p, rows);
      }
      if Spared(t, after, p, refused) {
        Reference.SparedIsTree(t, after, p, refused);
      }
      if Spared(t, after, p, refused) && NamesResources(m, t) {
        SparedLocks(t, after, m, p, refused);
      }
    }

    lemma NothingPinned(t: Tree, p: Path)
      ensures !Pinned(t, p, {})
    {
    }

    // -----------------------------------------------------------------------
    // MOVE
    // -----------------------------------------------------------------------

    lemma DestinationContained(header: Reference.DestinationHeader)
      requires Destination(prefix, header).Ok?
      ensures Canonical(Destination(prefix, header).value)
    {
      ResourceContained(prefix, header.path);
    }

    lemma SweptLocks(m: Table, t: Tree, now: int)
      ensures Tokens(Sweep(m, now)) <= Tokens(m)
      ensures NamesResources(m, t) ==> NamesResources(Sweep(m, now), t)
    {
      assert forall q | q in m :: m[q].token in Tokens(m);
    }

    lemma ReleasedLocks(m: Table, d: Path)
      ensures Tokens(WithoutTree(m, d)) <= Tokens(m)
    {
      assert forall q | q in m :: m[q].token in Tokens(m);
    }

    lemma MovedConsistently(left: Table, t: Tree, s: Path, d: Path)
      requires NamesResources(left, t) && forall q | q in left :: !(d <= q)
      ensures NamesResources(WithoutTree(left, s), Renamed(t, s, d))
    {
      forall q | q in WithoutTree(left, s)
        ensures q in Renamed(t, s, d)
      {
        RenamedAt(t, s, d, q);
      }
    }

    /** A move the server is bound to carry out. */
    static predicate Movable(t: Tree, s: Path, d: Path, overwrite: Option<bool>) {
      s != [] && s in t && !(d <= s) && Prepared(t, s, d, overwrite).Ok?
    }

    method ServeMove(name: string, destination: Reference.DestinationHeader, overwriteHeader: string, ifHeader: string,
                     now: int, later: int)
      returns (reply: Reply, ghost dst: string)
      requires Valid() && Canonical(name) && now <= later
      modifies fs, locks
      ensures Valid() && locks.records == old(locks.records)
      ensures Destination(prefix, destination).Ok? ==> dst == Destination(prefix, destination).value && Canonical(dst)
      ensures Destination(prefix, destination).Err? ==>
                reply == Status(Destination(prefix, destination).error) && fs.nodes == old(fs.nodes)
      ensures reply == Status(423) <==>
                && Destination(prefix, destination).Ok? && Comps(name) != []
                && !(Permitted(Sweep(old(locks.locks), now), Comps(name), ifHeader)
                     && Permitted(Sweep(old(locks.locks), later), Comps(dst), ifHeader))
      // A move that is answered 201 or 204 moved everything, and left no lock at either end.
      ensures Succeeded(reply) ==>
                && Destination(prefix, destination).Ok?
                && Movable(old(fs.nodes), Comps(name), Comps(dst), ParseOverwrite(overwriteHeader))
                && Permitted(Sweep(old(locks.locks), now), Comps(name), ifHeader)
                && Permitted(Sweep(old(locks.locks), later), Comps(dst), ifHeader)
                && fs.nodes == Renamed(Without(old(fs.nodes), Comps(dst)), Comps(name), Comps(dst))
                && locks.locks == WithoutTree(ClearedTable(Sweep(old(locks.locks), later), old(fs.nodes), Comps(dst)),
                                              Comps(name))
                && (reply == Status(201) <==> Comps(dst) !in old(fs.nodes))
      ensures Succeeded(reply) && old(Consistent()) ==>
                forall q | q in locks.locks :: !(Comps(name) <= q) && !(Comps(dst) <= q)
      ensures Destination(prefix, destination).Ok? && Comps(name) == [] ==> reply == Status(403)
      ensures Destination(prefix, destination).Ok? && !Succeeded(reply) ==>
                SameOutside(old(fs.nodes), fs.nodes, Comps(dst))
      // Any other answer leaves the tree alone, except that the destination may be gone.
      ensures reply.Status? && !Succeeded(reply) ==> fs.nodes == old(fs.nodes)
      ensures reply.Failed? && fs.nodes != old(fs.nodes) ==> fs.nodes == Without(old(fs.nodes), Comps(dst))
      ensures !Succeeded(reply) ==>
                || locks.locks == old(locks.locks) || locks.locks == Sweep(old(locks.locks), now)
                || locks.locks == Sweep(old(locks.locks), later)
                || (reply.Failed? && fs.nodes != old(fs.nodes)
                    && locks.locks == WithoutTree(Sweep(old(locks.locks), later), Comps(dst)))
      ensures reply.Status? ==> reply.code in {201, 204, 400, 403, 409, 412, 423, 502}
      ensures reply.Multistatus? ==> reply.rows != [] && Removed(old(fs.nodes), fs.nodes, Comps(dst), reply.rows)
      ensures Tokens(locks.locks) <= Tokens(old(locks.locks))
      ensures old(Consistent()) && (reply.Multistatus? ==> NoneBelow(Sweep(old(locks.locks), later), Comps(dst))) ==>
                Consistent()
      ensures fs.reliable && Destination(prefix, destination).Ok? && Comps(name) != []
              && Permitted(Sweep(old(locks.locks), now), Comps(name), ifHeader)
              && Permitted(Sweep(old(locks.locks), later), Comps(dst), ifHeader) ==>
                var answer := Prepared(old(fs.nodes), Comps(name), Comps(dst), ParseOverwrite(overwriteHeader));
                if Comps(name) !in old(fs.nodes) then reply == Failed(NotFound)
                else answer.Err? ==> reply == answer.error
      ensures fs.reliable ==>
                !reply.Multistatus? &&
                (Succeeded(reply) <==>
                   && Destination(prefix, destination).Ok?
                   && Movable(old(fs.nodes), Comps(name), Comps(dst), ParseOverwrite(overwriteHeader))
                   && Permitted(Sweep(old(locks.locks), now), Comps(name), ifHeader)
                   && Permitted(Sweep(old(locks.locks), later), Comps(dst), ifHeader))
      // A source inside the destination is gone before it can be moved.
      ensures fs.reliable && Destination(prefix, destination).Ok? && Comps(name) in old(fs.nodes)
              && Permitted(Sweep(old(locks.locks), now), Comps(name), ifHeader)
              && Permitted(Sweep(old(locks.locks), later), Comps(dst), ifHeader) ==>
                (Comps(name) != [] && Comps(dst) <= Comps(name)
                 && Prepared(old(fs.nodes), Comps(name), Comps(dst), ParseOverwrite(overwriteHeader)).Ok? ==>
                   && reply.Failed? && fs.nodes == Without(old(fs.nodes), Comps(dst))
                   && locks.locks == WithoutTree(Sweep(old(locks.locks), later), Comps(dst)))
      ensures fs.steady ==>
                Is(Reference.Move(Setup(), old(fs.nodes), old(locks.locks), Comps(name),
                                  Reference.Whereto(prefix, destination), ParseOverwrite(overwriteHeader),
                                  IfHeader.Scan(ifHeader, false), now, later), reply)
      ensures Succeeded(reply) ==>
                Is(Reference.Move(Faultless(), old(fs.nodes), old(locks.locks), Comps(name),
                                  Reference.Whereto(prefix, destination), ParseOverwrite(overwriteHeader),
                                  IfHeader.Scan(ifHeader, false), now, later), reply)
    {
      hide TreeOk, LockTable.Valid, Canonical, Comps, Render, Removed, ConfirmedBy, IfHeader.Scan, Renamed,
           Without, WithoutTree,
           Sweep, Tokens, ParseOverwrite, Resource, NamesResources, NoneBelow,
           SameOutside, Reference.Clearing, Reference.Moved;
      dst := "/";
      var target := Destination(prefix, destination);
      if target.Err? {
        return Status(target.error), dst;
      }
      dst := target.value;
      DestinationContained(destination);
      PathFacts(name, target.value);
      PathFacts(target.value, name);
      NothingChanged(fs.nodes, Comps(target.value));
      if name == "/" {
        return Status(403), dst;
      }
      var err := CheckLocks(name, ifHeader, now);
      SweptLocks(old(locks.locks), fs.nodes, now);
      if err.Some? {
        return LockReply(err.value), dst;
      }
      err := CheckLocks(target.value, ifHeader, later);
      SweepTwice(old(locks.locks), now, later);
      SweptLocks(old(locks.locks), fs.nodes, later);
      if err.Some? {
        return LockReply(err.value), dst;
      }
      var info := Lookup(fs, Comps(name));
      if info.Err? {
        return Failed(info.error), dst;
      }
      reply := MovePrepared(name, target.value, overwriteHeader);
    }

    /** serveMove once its locks are confirmed and its source found. */
    method MovePrepared(name: string, dst: string, overwriteHeader: string) returns (reply: Reply)
      requires Valid() && Canonical(name) && Canonical(dst)
      requires Comps(name) != [] && Comps(name) in fs.nodes
      modifies fs, locks
      ensures Valid() && locks.records == old(locks.records)
      ensures Succeeded(reply) ==>
                && Movable(old(fs.nodes), Comps(name), Comps(dst), ParseOverwrite(overwriteHeader))
                && fs.nodes == Renamed(Without(old(fs.nodes), Comps(dst)), Comps(name), Comps(dst))
                && locks.locks == WithoutTree(ClearedTable(old(locks.locks), old(fs.nodes), Comps(dst)), Comps(name))
                && (reply == Status(201) <==> Comps(dst) !in old(fs.nodes))
      ensures Succeeded(reply) && old(Consistent()) ==>
                forall q | q in locks.locks :: !(Comps(name) <= q) && !(Comps(dst) <= q)
      ensures reply.Status? && !Succeeded(reply) ==> fs.nodes == old(fs.nodes)
      ensures !Succeeded(reply) ==> SameOutside(old(fs.nodes), fs.nodes, Comps(dst))
      ensures reply.Status? ==> reply.code in {201, 204, 400, 403, 409, 412}
      ensures reply.Failed? && fs.nodes != old(fs.nodes) ==> fs.nodes == Without(old(fs.nodes), Comps(dst))
      ensures !Succeeded(reply) && locks.locks != old(locks.locks) ==>
                reply.Failed? && fs.nodes != old(fs.nodes) && locks.locks == WithoutTree(old(locks.locks), Comps(dst))
      ensures reply.Multistatus? ==> reply.rows != [] && Removed(old(fs.nodes), fs.nodes, Comps(dst), reply.rows)
      ensures Tokens(locks.locks) <= Tokens(old(locks.locks))
      ensures old(Consistent()) && (reply.Multistatus? ==> NoneBelow(old(locks.locks), Comps(dst))) ==> Consistent()
      ensures fs.reliable ==>
                var answer := Prepared(old(fs.nodes), Comps(name), Comps(dst), ParseOverwrite(overwriteHeader));
                answer.Err? ==> reply == answer.error
      ensures fs.reliable ==>
                !reply.Multistatus? &&
                (Succeeded(reply) <==>
                   Movable(old(fs.nodes), Comps(name), Comps(dst), ParseOverwrite(overwriteHeader)))
      ensures fs.reliable && Comps(dst) <= Comps(name) ==>
                (Prepared(old(fs.nodes), Comps(name), Comps(dst), ParseOverwrite(overwriteHeader)).Ok? ==>
                   && reply.Failed? && fs.nodes == Without(old(fs.nodes), Comps(dst))
                   && locks.locks == WithoutTree(old(locks.locks), Comps(dst)))
      ensures fs.steady ==>
                var way := Reference.Clearing(Setup(), old(fs.nodes), old(locks.locks), Comps(name), Comps(dst),
                                              ParseOverwrite(overwriteHeader));
                Is(Reference.Moved(way, old(fs.nodes), old(locks.locks), Comps(name), Comps(dst)), reply)
      ensures Succeeded(reply) ==>
                var way := Reference.Clearing(Faultless(), old(fs.nodes), old(locks.locks), Comps(name), Comps(dst),
                                              ParseOverwrite(overwriteHeader));
                Is(Reference.Moved(way, old(fs.nodes), old(locks.locks), Comps(name), Comps(dst)), reply)
    {
      hide TreeOk, LockTable.Valid, Canonical, Comps, Render, Removed, Renamed, Without, WithoutTree,
           Tokens, ParseOverwrite, NamesResources, NoneBelow, SameOutside, Reference.Clearing;
      ghost var t, s, d, m := fs.nodes, Comps(name), Comps(dst), locks.locks;
      PathFacts(name, dst);
      PathFacts(dst, name);
      var code := PrepareDestination(name, dst, overwriteHeader);
      if code.Err? {
        if code.error.Multistatus? {
          RemovedInside(t, fs.nodes, d, code.error.rows);
        } else {
          NothingChanged(t, d);
        }
        return code.error;
      }
      OutsideCleared(t, d);
      if d <= s && d != s {
        AncestorsAreDirs(t, s, d);
      }
      ghost var cleared, left := fs.nodes, locks.locks;
      SurvivesClearing(t, s, d);
      SurvivesClearing(t, d, d);
      ReleasedLocks(m, d);
      ReleasedLocks(left, s);
      if NamesResources(m, t) {
        ClearedLocks(m, t, d);
      }
      var err := fs.Rename(Comps(name), Comps(dst));
      if err.Some? {
        return Failed(err.value);
      }
      RenamedOk(cleared, s, d);
      locks.ReleaseLocksUnder(name);
      StillNoneUnder(left, s, d);
      if NamesResources(m, t) {
        MovedConsistently(left, cleared, s, d);
      }
      reply := Status(code.value);
    }

    lemma OutsideCleared(t: Tree, d: Path)
      ensures SameOutside(t, Without(t, d), d)
    {
    }

    lemma StillNoneUnder(left: Table, s: Path, d: Path)
      ensures forall q | q in WithoutTree(left, s) :: q in left && !(s <= q)
    {
    }

    // -----------------------------------------------------------------------
    // COPY
    // -----------------------------------------------------------------------

    /** The tree a clean copy leaves: the copy at the destination, and all else as it was. */
    static predicate CopyDone(t: Tree, after: Tree, s: Path, d: Path, deep: bool) {
      if d <= s
      then IsDirAt(t, s) && !deep && after == Without(t, d)[d := Dir]
      else Copied(Without(t, d), after, s, d, deep, [])
    }

    /** A 207 from clearing the destination: no lock was released yet. */
    static predicate ClearingStopped(t: Tree, after: Tree, m: Table, left: Table, d: Path, rows: seq<Row>) {
      left == m && Removed(t, after, d, rows)
    }

    /** A 207 from the copying itself: the destination and its locks had been cleared. */
    static predicate CopyStopped(t: Tree, after: Tree, m: Table, left: Table, s: Path, d: Path, deep: bool,
                                 rows: seq<Row>) {
      && left == ClearedTable(m, t, d)
      && if d <= s
         then after == Without(t, d) || (IsDirAt(t, s) && deep && after == Without(t, d)[d := Dir])
         else Copied(Without(t, d), after, s, d, deep, rows)
    }

    /** What a copy still needs once its destination is cleared: a source, or nothing to read from it. */
    static predicate Copyable(t: Tree, s: Path, d: Path, deep: bool) {
      d <= s ==> IsDirAt(t, s) && !deep
    }

    method ServeCopy(name: string, destination: Reference.DestinationHeader, depthHeader: string,
                     overwriteHeader: string, ifHeader: string, now: int)
      returns (reply: Reply, ghost dst: string)
      requires Valid() && Canonical(name)
      modifies fs, locks
      ensures Valid() && locks.records == old(locks.records)
      ensures Destination(prefix, destination).Ok? ==> dst == Destination(prefix, destination).value && Canonical(dst)
      ensures Destination(prefix, destination).Err? ==>
                reply == Status(Destination(prefix, destination).error) && fs.nodes == old(fs.nodes)
      ensures reply == Status(423) <==>
                && Destination(prefix, destination).Ok?
                && (ParseDepth(depthHeader) == Some(Zero) || ParseDepth(depthHeader) == Some(Infinity))
                && !Permitted(Sweep(old(locks.locks), now), Comps(dst), ifHeader)
      ensures Destination(prefix, destination).Ok? ==>
                (ParseDepth(depthHeader) != Some(Zero) && ParseDepth(depthHeader) != Some(Infinity) ==>
                   reply == Status(400))
      ensures Succeeded(reply) ==>
                && Destination(prefix, destination).Ok? && Comps(name) in old(fs.nodes)
                && (ParseDepth(depthHeader) == Some(Zero) || ParseDepth(depthHeader) == Some(Infinity))
                && Permitted(Sweep(old(locks.locks), now), Comps(dst), ifHeader)
                && Prepared(old(fs.nodes), Comps(name), Comps(dst), ParseOverwrite(overwriteHeader)) ==
                     Ok(reply.code)
                && CopyDone(old(fs.nodes), fs.nodes, Comps(name), Comps(dst), ParseDepth(depthHeader) == Some(Infinity))
      ensures reply.Status? && !Succeeded(reply) ==> fs.nodes == old(fs.nodes)
      ensures reply.Status? ==> reply.code in {201, 204, 400, 403, 409, 412, 423, 502}
      ensures reply.Failed? ==> fs.nodes == old(fs.nodes)
      ensures Succeeded(reply) ==>
                locks.locks == ClearedTable(Sweep(old(locks.locks), now), old(fs.nodes), Comps(dst))
      ensures !Succeeded(reply) ==>
                || locks.locks == old(locks.locks) || locks.locks == Sweep(old(locks.locks), now)
                || (reply.Multistatus?
                    && locks.locks == ClearedTable(Sweep(old(locks.locks), now), old(fs.nodes), Comps(dst)))
      ensures reply.Multistatus? ==>
                && Destination(prefix, destination).Ok? && reply.rows != []
                && (|| (!fs.reliable
                        && ClearingStopped(old(fs.nodes), fs.nodes, Sweep(old(locks.locks), now), locks.locks,
                                           Comps(dst), reply.rows))
                    || CopyStopped(old(fs.nodes), fs.nodes, Sweep(old(locks.locks), now), locks.locks, Comps(name),
                                   Comps(dst), ParseDepth(depthHeader) == Some(Infinity), reply.rows))
      // Whatever happens, nothing outside the destination changes.
      ensures Destination(prefix, destination).Ok? ==> SameOutside(old(fs.nodes), fs.nodes, Comps(dst))
      ensures Tokens(locks.locks) <= Tokens(old(locks.locks))
      // Only clearing that stops short can leave a lock without its resource.
      ensures old(Consistent())
              && (reply.Multistatus?
                  && ClearingStopped(old(fs.nodes), fs.nodes, Sweep(old(locks.locks), now), locks.locks, Comps(dst),
                                     reply.rows) ==>
                    NoneBelow(Sweep(old(locks.locks), now), Comps(dst))) ==>
                Consistent()
      ensures fs.reliable && old(Consistent()) ==> Consistent()
      // A reliable driver starts copying exactly here, and finishes exactly when there is a source to read.
      ensures fs.reliable ==>
                (Succeeded(reply) || reply.Multistatus? <==>
                   && Destination(prefix, destination).Ok? && Comps(name) in old(fs.nodes)
                   && (ParseDepth(depthHeader) == Some(Zero) || ParseDepth(depthHeader) == Some(Infinity))
                   && Permitted(Sweep(old(locks.locks), now), Comps(dst), ifHeader)
                   && Prepared(old(fs.nodes), Comps(name), Comps(dst), ParseOverwrite(overwriteHeader)).Ok?)
      ensures fs.reliable && (Succeeded(reply) || reply.Multistatus?) ==>
                (Succeeded(reply) <==>
                   Copyable(old(fs.nodes), Comps(name), Comps(dst), ParseDepth(depthHeader) == Some(Infinity)))
      ensures fs.steady ==>
                Is(Reference.Copy(Setup(), old(fs.nodes), old(locks.locks), Comps(name),
                                  Reference.Whereto(prefix, destination), ParseDepth(depthHeader),
                                  ParseOverwrite(overwriteHeader), IfHeader.Scan(ifHeader, false), now), reply)
      ensures Succeeded(reply) ==>
                Is(Reference.Copy(Faultless(), old(fs.nodes), old(locks.locks), Comps(name),
                                  Reference.Whereto(prefix, destination), ParseDepth(depthHeader),
                                  ParseOverwrite(overwriteHeader), IfHeader.Scan(ifHeader, false), now), reply)
    {
      hide TreeOk, LockTable.Valid, Canonical, Comps, Render, Removed, Copied, ConfirmedBy, IfHeader.Scan,
           Without, WithoutTree,
           Sweep, Tokens, ParseOverwrite, ParseDepth, Resource, SameOutside, NamesResources,
           NoneBelow, ClearingStopped, CopyStopped, Reference.Clearing, Reference.Copies;
      dst := "/";
      var target := Destination(prefix, destination);
      if target.Err? {
        return Status(target.error), dst;
      }
      dst := target.value;
      DestinationContained(destination);
      NothingChanged(fs.nodes, Comps(dst));
      var depth := ParseDepth(depthHeader);
      if depth.None? || depth.value.One? {
        return Status(400), dst;
      }
      var err := CheckLocks(target.value, ifHeader, now);
      SweptLocks(old(locks.locks), fs.nodes, now);
      if err.Some? {
        return LockReply(err.value), dst;
      }
      var src := Lookup(fs, Comps(name));
      if src.Err? {
        return Failed(src.error), dst;
      }
      reply := CopyPrepared(name, src.value, target.value, overwriteHeader, depth.value.Infinity?);
    }

    lemma NothingChanged(t: Tree, d: Path)
      ensures SameOutside(t, t, d)
    {
    }

    /** serveCopy once its locks are confirmed and its source found. */
    method CopyPrepared(name: string, src: ResourceInfo, dst: string, overwriteHeader: string, deep: bool)
      returns (reply: Reply)
      requires Valid() && Canonical(name) && Canonical(dst)
      requires Comps(name) in fs.nodes && src == ResourceInfo(Comps(name), fs.nodes[Comps(name)].Dir?)
      modifies fs, locks
      ensures Valid() && locks.records == old(locks.records)
      ensures Succeeded(reply) ==>
                && Prepared(old(fs.nodes), Comps(name), Comps(dst), ParseOverwrite(overwriteHeader)) == Ok(reply.code)
                && CopyDone(old(fs.nodes), fs.nodes, Comps(name), Comps(dst), deep)
      ensures reply.Status? && !Succeeded(reply) ==> fs.nodes == old(fs.nodes)
      ensures reply.Status? ==> reply.code in {201, 204, 400, 403, 409, 412}
      ensures reply.Failed? ==> fs.nodes == old(fs.nodes)
      ensures Succeeded(reply) ==> locks.locks == ClearedTable(old(locks.locks), old(fs.nodes), Comps(dst))
      ensures !Succeeded(reply) && locks.locks != old(locks.locks) ==>
                reply.Multistatus? && locks.locks == ClearedTable(old(locks.locks), old(fs.nodes), Comps(dst))
      ensures reply.Multistatus? ==>
                && reply.rows != []
                && (|| (!fs.reliable
                        && ClearingStopped(old(fs.nodes), fs.nodes, old(locks.locks), locks.locks, Comps(dst),
                                           reply.rows))
                    || CopyStopped(old(fs.nodes), fs.nodes, old(locks.locks), locks.locks, Comps(name), Comps(dst),
                                   deep, reply.rows))
      ensures SameOutside(old(fs.nodes), fs.nodes, Comps(dst))
      ensures Tokens(locks.locks) <= Tokens(old(locks.locks))
      ensures old(Consistent())
              && (reply.Multistatus?
                  && ClearingStopped(old(fs.nodes), fs.nodes, old(locks.locks), locks.locks, Comps(dst), reply.rows) ==>
                    NoneBelow(old(locks.locks), Comps(dst))) ==>
                Consistent()
      ensures fs.reliable ==>
                var answer := Prepared(old(fs.nodes), Comps(name), Comps(dst), ParseOverwrite(overwriteHeader));
                answer.Err? ==> reply == answer.error
      ensures fs.reliable && old(Consistent()) ==> Consistent()
      ensures fs.reliable ==>
                (Succeeded(reply) || reply.Multistatus? <==>
                   Prepared(old(fs.nodes), Comps(name), Comps(dst), ParseOverwrite(overwriteHeader)).Ok?)
      ensures fs.reliable && (Succeeded(reply) || reply.Multistatus?) ==>
                (Succeeded(reply) <==> Copyable(old(fs.nodes), Comps(name), Comps(dst), deep))
      ensures fs.steady ==>
                var way := Reference.Clearing(Setup(), old(fs.nodes), old(locks.locks), Comps(name), Comps(dst),
                                              ParseOverwrite(overwriteHeader));
                Is(Reference.Copies(way, old(fs.nodes), old(locks.locks), Comps(name), Comps(dst), deep), reply)
      ensures Succeeded(reply) ==>
                var way := Reference.Clearing(Faultless(), old(fs.nodes), old(locks.locks), Comps(name), Comps(dst),
                                              ParseOverwrite(overwriteHeader));
                Is(Reference.Copies(way, old(fs.nodes), old(locks.locks), Comps(name), Comps(dst), deep), reply)
    {
      hide TreeOk, LockTable.Valid, Canonical, Comps, Render, Removed, Copied, Without, WithoutTree,
           Tokens, ParseOverwrite, SameOutside, NamesResources, NoneBelow, Reference.Clearing, Reference.WithCopy, Free;
      ghost var t, s, d, m := fs.nodes, Comps(name), Comps(dst), locks.locks;
      PathFacts(name, dst);
      var code := PrepareDestination(name, dst, overwriteHeader);
      if code.Err? {
        if code.error.Multistatus? {
          RemovedInside(t, fs.nodes, d, code.error.rows);
        } else {
          NothingChanged(t, d);
        }
        return code.error;
      }
      ghost var cleared, left := fs.nodes, locks.locks;
      SurvivesClearing(t, s, d);
      SurvivesClearing(t, d, d);
      ReleasedLocks(m, d);
      if NamesResources(m, t) {
        ClearedLocks(m, t, d);
      }
      var failures := CopyTree(fs, src, Comps(dst), deep, []);
      assert failures[0..] == failures;
      CopiedInside(t, fs.nodes, s, d, deep, failures);
      if s in cleared && failures == [] {
        NothingUnderAbsent(cleared, d);
        FreeOfAll(cleared, d);
        Reference.CleanCopyIsTree(cleared, fs.nodes, s, d, deep);
      }
      if NamesResources(m, t) {
        KeptOutside(left, cleared, fs.nodes, d);
      }
      if |failures| > 0 {
        return Multistatus(failures);
      }
      reply := Status(code.value);
    }

    lemma RemovedInside(t: Tree, after: Tree, d: Path, rows: seq<Row>)
      requires Removed(t, after, d, rows)
      ensures SameOutside(t, after, d)
    {
    }

    lemma CopiedInside(t: Tree, after: Tree, s: Path, d: Path, deep: bool, rows: seq<Row>)
      requires Copied(Without(t, d), after, s, d, deep, rows)
            || after == Without(t, d) || after == Without(t, d)[d := Dir]
      ensures SameOutside(t, after, d) && SameOutside(Without(t, d), after, d)
    {
    }

    lemma KeptOutside(left: Table, before: Tree, after: Tree, d: Path)
      requires NamesResources(left, before) && SameOutside(before, after, d)
      requires forall q | q in left :: !(d <= q)
      ensures NamesResources(left, after)
    {
    }

    lemma FreeOfAll(t: Tree, d: Path)
      requires forall q | q in t :: !(d <= q)
      ensures Free(t, d)
    {
    }

    // -----------------------------------------------------------------------
    // PUT and MKCOL
    // -----------------------------------------------------------------------

    lemma FileRewritten(t: Tree, p: Path, node: Node)
      requires TreeOk(t) && IsFileAt(t, p) && node.File?
      ensures TreeOk(t[p := node])
    {
    }

    lemma NodeAdded(m: Table, t: Tree, p: Path, node: Node)
      ensures NamesResources(m, t) ==> NamesResources(m, t[p := node])
    {
    }

    /** Why a range PUT that was let in by the locks is refused. */
    predicate RangeCauses(t: Tree, p: Path, cr: ContentRange.ContentRange, body: Body, size: nat, reply: Reply) {
      && (reply.Status? ==> reply.code in {204, 400, 405, 409, 413, 416, 423, 501})
      && (reply == Status(416) ==> IsFileAt(t, p) && !Fits(size, cr))
      && (reply == Status(405) ==> IsDirAt(t, p))
      && (reply == Status(409) ==> p !in t)
      && (reply == Status(501) ==> !fs.opens || !fs.writesInPlace)
      && (reply == Status(413) ==> maxBody < |body.bytes| && maxBody < cr.end - cr.start + 1)
      && (reply == Status(400) ==>
            |body.bytes| < cr.end - cr.start + 1 || cr == ContentRange.ContentRange(0, ContentRange.MAX_INT64))
    }

    /** Why a plain PUT that was let in by the locks is refused. */
    predicate PutCauses(t: Tree, p: Path, body: Body, reply: Reply) {
      && (reply.Status? ==> reply.code in {201, 204, 400, 405, 409, 413, 423})
      && (reply == Status(405) ==> p == [])
      && (reply == Status(409) ==> !IsDirAt(t, Parent(p)))
      && (reply == Status(413) ==> |body.bytes| > maxBody)
      && (reply == Status(400) ==> body.broken && |body.bytes| <= maxBody)
    }

    /** `size` and `stuck` are those of a range PUT; see ServePutRange. */
    method ServePut(name: string, ifHeader: string, contentRange: string, body: Body, now: int)
      returns (reply: Reply, ghost stuck: bool, ghost size: nat)
      requires Valid() && Canonical(name)
      modifies fs, locks
      ensures Valid() && locks.records == old(locks.records)
      ensures locks.locks == if Comps(name) == [] then old(locks.locks) else Sweep(old(locks.locks), now)
      ensures reply == Status(423) <==>
                Comps(name) != [] && !Permitted(Sweep(old(locks.locks), now), Comps(name), ifHeader)
      ensures Comps(name) == [] ==> reply == Status(405)
      ensures Succeeded(reply) && contentRange == "" ==>
                fs.nodes == old(fs.nodes)[Comps(name) := File(body.bytes)] && |body.bytes| <= maxBody && !body.broken
      ensures var cr := ContentRange.ParseContentRange(contentRange);
              contentRange != "" && cr.Some? ==>
                && RangeEffect(old(fs.nodes), fs.nodes, Comps(name), cr.value, body.bytes, size, reply, stuck)
                && (stuck <==> fs.uncut == old(fs.uncut) + [(Comps(name), size)])
                && RangeCauses(old(fs.nodes), Comps(name), cr.value, body, size, reply)
                && (fs.nodes != old(fs.nodes) ==>
                      WriteEffect(old(fs.nodes)[Comps(name)].data, size, cr.value.start,
                                  body.bytes[..cr.value.end - cr.value.start + 1], fs.nodes[Comps(name)].data,
                                  fs.unwritten == old(fs.unwritten), stuck))
      ensures IsFileAt(old(fs.nodes), Comps(name)) ==> |old(fs.nodes)[Comps(name)].data| <= size
      ensures IsFileAt(old(fs.nodes), Comps(name)) && (fs.exactSizes || fs.steady) ==>
                size == |old(fs.nodes)[Comps(name)].data|
      ensures contentRange == "" || ContentRange.ParseContentRange(contentRange).None? || fs.steady ==> !stuck
      ensures reply == Status(201) ==> contentRange == ""
      ensures reply.Status? && !Succeeded(reply) ==> fs.nodes == old(fs.nodes)
      ensures contentRange == "" && !Succeeded(reply) ==> fs.nodes == old(fs.nodes)
      ensures !reply.Multistatus?
      ensures OnlyAt(old(fs.nodes), fs.nodes, Comps(name))
      ensures old(Consistent()) ==> Consistent()
      ensures contentRange != "" && ContentRange.ParseContentRange(contentRange).None? ==>
                reply.Status? && reply.code in {400, 405, 423}
      ensures fs.steady && contentRange != "" ==>
                var cr := ContentRange.ParseContentRange(contentRange);
                (reply == Status(204) <==>
                   && Comps(name) != [] && cr.Some? && fs.opens && fs.writesInPlace
                   && Satisfiable(old(fs.nodes), Comps(name), cr.value, body, maxBody)
                   && Permitted(Sweep(old(locks.locks), now), Comps(name), ifHeader))
      ensures contentRange == "" ==> PutCauses(old(fs.nodes), Comps(name), body, reply)
      ensures contentRange == "" && reply == Status(204) ==> Comps(name) in old(fs.nodes)
      // Over a file that is there, 201 is a Stat that failed for a reason of the driver's own.
      ensures contentRange == "" && Succeeded(reply) && Comps(name) in old(fs.nodes) ==>
                (reply == Status(201) <==> fs.unread == old(fs.unread) + [Comps(name)])
      ensures fs.steady && contentRange == "" && Comps(name) != [] && reply != Status(423) && !Succeeded(reply) ==>
                if !IsDirAt(old(fs.nodes), Parent(Comps(name))) then reply == Status(409)
                else if |body.bytes| > maxBody then reply == Status(413)
                else if body.broken then reply == Status(400)
                else reply.Failed?
      ensures fs.steady && contentRange == "" ==>
                && (reply == Status(201) ==> Comps(name) !in old(fs.nodes))
                && (Succeeded(reply) <==>
                      && old(fs.CanWrite(Comps(name))) && |body.bytes| <= maxBody && !body.broken
                      && Permitted(Sweep(old(locks.locks), now), Comps(name), ifHeader))
      ensures fs.steady ==>
                Is(Reference.Put(Setup(), old(fs.nodes), old(locks.locks), Comps(name), contentRange, body,
                                 IfHeader.Scan(ifHeader, false), now), reply)
      // A success on any driver is that of one that fails at nothing, save that 201 may stand for 204.
      ensures Succeeded(reply) && (contentRange == "" || fs.exactSizes) ==>
                var e := Reference.Put(Faultless(), old(fs.nodes), old(locks.locks), Comps(name), contentRange, body,
                                       IfHeader.Scan(ifHeader, false), now);
                && fs.nodes == e.nodes && locks.locks == e.locks
                && (Gives(reply, e.answer) || (reply == Status(201) && e.answer == Exactly(204)))
    {
      hide TreeOk, LockTable.Valid, Canonical, Comps, Render, ConfirmedBy, IfHeader.Scan, NamesResources,
           ContentRange.ParseContentRange, ParentOf, Sweep, RangeEffect, WriteEffect, RangeCauses, PutCauses,
           Satisfiable, OnlyAt, Reference.PutAll, Reference.PutPart;
      ghost var t, p := fs.nodes, Comps(name);
      stuck, size := false, if IsFileAt(t, p) then |t[p].data| else 0;
      PathFacts(name, name);
      AddedNowhere(t, p);
      PutRefused(t, p, contentRange, body, size);
      if name == "/" {
        return Status(405), false, size;
      }
      var err := CheckLocks(name, ifHeader, now);
      SweptLocks(old(locks.locks), t, now);
      if err.Some? {
        return LockReply(err.value), false, size;
      }
      if contentRange != "" {
        reply, stuck, size := PutRange(name, contentRange, body);
        return;
      }
      reply := PutWhole(name, body);
    }

    lemma AddedNowhere(t: Tree, p: Path)
      ensures OnlyAt(t, t, p)
    {
      forall q
        ensures SameAt(t, t, q)
      {
      }
    }

    /** A PUT refused before it is looked into changes nothing, by either name. */
    lemma PutRefused(t: Tree, p: Path, contentRange: string, body: Body, size: nat)
      requires TreeOk(t)
      ensures var cr := ContentRange.ParseContentRange(contentRange);
              cr.Some? ==>
                && RangeEffect(t, t, p, cr.value, body.bytes, size, Status(405), false)
                && RangeEffect(t, t, p, cr.value, body.bytes, size, Status(423), false)
                && RangeCauses(t, p, cr.value, body, size, Status(423))
                && (p == [] ==> RangeCauses(t, p, cr.value, body, size, Status(405)))
      ensures PutCauses(t, p, body, Status(423)) && (p == [] ==> PutCauses(t, p, body, Status(405)))
    {
    }

    lemma FileStored(data: seq<Byte>, size: nat, start: nat, bytes: seq<Byte>, after: seq<Byte>,
                     stuck: bool)
      requires FileEffect(data, size, start, bytes, after, true, stuck) && size == |data|
      ensures after == InPlace(data, start, bytes)
    {
      PatchedIsInPlace(data, start, bytes);
    }

    /** servePut with a Content-Range, once its lock is confirmed. */
    method PutRange(name: string, contentRange: string, body: Body)
      returns (reply: Reply, ghost stuck: bool, ghost size: nat)
      requires TreeOk(fs.nodes)
      modifies fs
      ensures TreeOk(fs.nodes) && OnlyAt(old(fs.nodes), fs.nodes, Comps(name))
      ensures NamesResources(locks.locks, old(fs.nodes)) ==> NamesResources(locks.locks, fs.nodes)
      ensures ContentRange.ParseContentRange(contentRange).None? ==>
                reply == Status(400) && !stuck && fs.nodes == old(fs.nodes)
      ensures var cr := ContentRange.ParseContentRange(contentRange);
              cr.Some? ==>
                && RangeEffect(old(fs.nodes), fs.nodes, Comps(name), cr.value, body.bytes, size, reply, stuck)
                && (stuck <==> fs.uncut == old(fs.uncut) + [(Comps(name), size)])
                && RangeCauses(old(fs.nodes), Comps(name), cr.value, body, size, reply)
                && (fs.nodes != old(fs.nodes) ==>
                      WriteEffect(old(fs.nodes)[Comps(name)].data, size, cr.value.start,
                                  body.bytes[..cr.value.end - cr.value.start + 1], fs.nodes[Comps(name)].data,
                                  fs.unwritten == old(fs.unwritten), stuck))
      ensures IsFileAt(old(fs.nodes), Comps(name)) ==> |old(fs.nodes)[Comps(name)].data| <= size
      ensures IsFileAt(old(fs.nodes), Comps(name)) && (fs.exactSizes || fs.steady) ==>
                size == |old(fs.nodes)[Comps(name)].data|
      ensures fs.steady ==> !stuck && (reply != Status(204) ==> fs.nodes == old(fs.nodes))
      ensures reply.Status? && reply.code != 204 ==> fs.nodes == old(fs.nodes)
      ensures reply.Status? ==> reply.code in {204, 400, 405, 409, 413, 416, 501}
      ensures !reply.Multistatus?
      ensures fs.steady ==>
                var cr := ContentRange.ParseContentRange(contentRange);
                (reply == Status(204) <==>
                   && cr.Some? && fs.opens && fs.writesInPlace
                   && Satisfiable(old(fs.nodes), Comps(name), cr.value, body, maxBody))
      ensures var cr := ContentRange.ParseContentRange(contentRange);
              cr.Some? ==> 0 <= cr.value.start <= cr.value.end
      ensures var cr := ContentRange.ParseContentRange(contentRange);
              fs.steady && cr.Some? ==>
                Is(Reference.PutPart(Setup(), old(fs.nodes), locks.locks, Comps(name), cr.value, body), reply)
      ensures var cr := ContentRange.ParseContentRange(contentRange);
              reply == Status(204) && fs.exactSizes && cr.Some? ==>
                Is(Reference.PutPart(Faultless(), old(fs.nodes), locks.locks, Comps(name), cr.value, body), reply)
    {
      hide TreeOk, Comps, NamesResources, ContentRange.ParseContentRange, WriteEffect, Satisfiable, FileEffect,
           RangeAnswer, InPlace;
      ghost var t, p := fs.nodes, Comps(name);
      AddedNowhere(t, p);
      var cr := ContentRange.ParseContentRange(contentRange);
      if cr.None? {
        return Status(400), false, if IsFileAt(t, p) then |t[p].data| else 0;
      }
      RangeBounds(contentRange);
      reply, stuck, size := ServePutRange(fs, Comps(name), cr.value, body, maxBody);
      RangeKeepsTree(locks.locks, t, fs.nodes, p);
      if reply == Status(204) && (fs.exactSizes || fs.steady) {
        FileStored(t[p].data, size, cr.value.start, body.bytes[..cr.value.end - cr.value.start + 1],
                   fs.nodes[p].data, stuck);
      }
    }

    lemma RangeBounds(v: string)
      requires ContentRange.ParseContentRange(v).Some?
      ensures var cr := ContentRange.ParseContentRange(v).value; 0 <= cr.start <= cr.end <= ContentRange.MAX_INT64
    {
      ContentRange.AcceptedExactly(v, ContentRange.ParseContentRange(v).value);
    }

    lemma RangeKeepsTree(m: Table, t: Tree, after: Tree, p: Path)
      requires TreeOk(t)
      requires after != t ==> IsFileAt(t, p) && IsFileAt(after, p) && after == t[p := after[p]]
      ensures TreeOk(after)
      ensures NamesResources(m, t) ==> NamesResources(m, after)
    {
      if after != t {
        FileRewritten(t, p, after[p]);
      }
    }

    /** servePut without a Content-Range, once its lock is confirmed. */
    method PutWhole(name: string, body: Body) returns (reply: Reply)
      requires TreeOk(fs.nodes) && Canonical(name) && Comps(name) != []
      modifies fs
      ensures TreeOk(fs.nodes) && OnlyAt(old(fs.nodes), fs.nodes, Comps(name))
      ensures Succeeded(reply) ==>
                && fs.nodes == old(fs.nodes)[Comps(name) := File(body.bytes)]
                && |body.bytes| <= maxBody && !body.broken
      ensures !Succeeded(reply) ==> fs.nodes == old(fs.nodes)
      ensures reply.Status? ==> reply.code in {201, 204, 400, 409, 413}
      ensures PutCauses(old(fs.nodes), Comps(name), body, reply)
      ensures reply == Status(204) ==> Comps(name) in old(fs.nodes)
      ensures Succeeded(reply) && Comps(name) in old(fs.nodes) ==>
                (reply == Status(201) <==> fs.unread == old(fs.unread) + [Comps(name)])
      ensures !reply.Multistatus?
      ensures NamesResources(locks.locks, old(fs.nodes)) ==> NamesResources(locks.locks, fs.nodes)
      ensures fs.steady && !Succeeded(reply) ==>
                if !IsDirAt(old(fs.nodes), Parent(Comps(name))) then reply == Status(409)
                else if |body.bytes| > maxBody then reply == Status(413)
                else if body.broken then reply == Status(400)
                else reply.Failed?
      ensures fs.steady ==>
                && (reply == Status(201) ==> Comps(name) !in old(fs.nodes))
                && (Succeeded(reply) <==>
                      old(fs.CanWrite(Comps(name))) && |body.bytes| <= maxBody && !body.broken)
      ensures fs.steady ==>
                Is(Reference.PutAll(Setup(), old(fs.nodes), locks.locks, Comps(name), body), reply)
      ensures Succeeded(reply) ==>
                var e := Reference.PutAll(Faultless(), old(fs.nodes), locks.locks, Comps(name), body);
                && fs.nodes == e.nodes && locks.locks == e.locks
                && (Gives(reply, e.answer) || (reply == Status(201) && e.answer == Exactly(204)))
    {
      hide TreeOk, Canonical, Comps, Render, NamesResources, ParentOf;
      ghost var t, p := fs.nodes, Comps(name);
      PathFacts(name, name);
      var parent := Lookup(fs, Comps(ParentOf(name)));
      if parent.Err? {
        return ConflictOr(parent.error);
      }
      if !parent.value.isDir {
        return Status(409);
      }
      var stat := fs.Stat(Comps(name));
      var existed := stat.Info?;
      if |body.bytes| > maxBody {
        return Status(413);
      }
      if body.broken {
        return Status(400);
      }
      var err := fs.WriteFile(Comps(name), body.bytes);
      if err.Some? {
        return Failed(err.value);
      }
      AddedNodeOk(t, p, File(body.bytes));
      NodeAdded(locks.locks, t, p, File(body.bytes));
      reply := if existed then Status(204) else Status(201);
    }

    method ServeMkcol(name: string, ifHeader: string, hasBody: bool, now: int) returns (reply: Reply)
      requires Valid() && Canonical(name)
      modifies fs, locks
      ensures Valid() && locks.records == old(locks.records)
      ensures locks.locks == Sweep(old(locks.locks), now)
      ensures reply == Status(423) <==> !Permitted(Sweep(old(locks.locks), now), Comps(name), ifHeader)
      ensures reply == Status(201) ==>
                && !hasBody && Comps(name) !in old(fs.nodes) && IsDirAt(old(fs.nodes), Parent(Comps(name)))
                && fs.nodes == old(fs.nodes)[Comps(name) := Dir]
      ensures reply != Status(201) ==> fs.nodes == old(fs.nodes)
      ensures reply.Status? ==> reply.code in {201, 405, 409, 415, 423}
      ensures reply == Status(405) ==> Comps(name) in old(fs.nodes)
      ensures reply == Status(409) ==> !IsDirAt(old(fs.nodes), Parent(Comps(name)))
      ensures reply == Status(415) <==> hasBody && Permitted(Sweep(old(locks.locks), now), Comps(name), ifHeader)
      ensures fs.steady && reply != Status(423) && reply != Status(415) ==>
                reply == if Comps(name) in old(fs.nodes) then Status(405)
                         else if IsDirAt(old(fs.nodes), Parent(Comps(name))) then Status(201) else Status(409)
      ensures !reply.Multistatus?
      ensures old(Consistent()) ==> Consistent()
      ensures fs.steady || reply == Status(201) ==>
                Is(Reference.Mkcol(old(fs.nodes), old(locks.locks), Comps(name), hasBody,
                                   IfHeader.Scan(ifHeader, false), now), reply)
    {
      hide LockTable.Valid, Canonical, Comps, Render, ConfirmedBy, IfHeader.Scan, NamesResources, ParentOf, Sweep;
      ghost var t, p := fs.nodes, Comps(name);
      PathFacts(name, name);
      assert [] in t;
      hide TreeOk;
      var err := CheckLocks(name, ifHeader, now);
      SweptLocks(old(locks.locks), t, now);
      if err.Some? {
        return LockReply(err.value);
      }
      if hasBody {
        return Status(415);
      }
      var stat := fs.Stat(Comps(name));
      if stat.Info? {
        return Status(405);
      }
      var parent := Lookup(fs, Comps(ParentOf(name)));
      if parent.Err? {
        return ConflictOr(parent.error);
      }
      if !parent.value.isDir {
        return Status(409);
      }
      var failed := fs.MkDir(Comps(name));
      if failed.Some? {
        return Failed(failed.value);
      }
      AddedNodeOk(t, p, Dir);
      NodeAdded(locks.locks, t, p, Dir);
      reply := Status(201);
    }

    // -----------------------------------------------------------------------
    // LOCK and UNLOCK
    // -----------------------------------------------------------------------

    /** What the body of a LOCK asks for. */
    static function Asked(body: XmlTokens.Input): Result<LockBody.LockRequest, PropBodies.BodyError> {
      LockBody.LockResult(LockBody.LockRun(body.tokens, body.clean, LockBody.LockState([], false)))
    }

    static predicate HoldsToken(m: Table, p: Path, tokens: seq<string>) {
      p in m && m[p].token in tokens
    }

    /** The table after a refresh: the lock on `p` with new times if its token came, else as it was. */
    static predicate Refreshed(m: Table, after: Table, p: Path, tokens: seq<string>, timeout: int, later: int) {
      after == if HoldsToken(m, p, tokens)
               then m[p := m[p].(timeout := timeout, expiry := later + timeout)] else m
    }

    method ServeLock(name: string, depthHeader: string, timeoutHeader: string, ifHeader: string,
                     body: XmlTokens.Input, minted: Option<string>, now: int, later: int)
      returns (reply: Reply, l: LockInfo?)
      requires Valid() && Canonical(name)
      requires minted.Some? ==> minted.value !in Tokens(Sweep(locks.locks, now))
      modifies fs, locks, locks.records
      ensures Valid() && fresh(locks.records - old(locks.records))
      // The tree gains at most one empty file, even when the lock is then refused.
      ensures fs.nodes == old(fs.nodes) || fs.nodes == Reference.WithResource(old(fs.nodes), Comps(name))
      ensures reply == Status(400) <==>
                ParseDepth(depthHeader) != Some(Zero) && ParseDepth(depthHeader) != Some(Infinity)
      ensures reply == Status(422) <==> reply != Status(400) && Asked(body).Err?
      ensures reply == Status(400) || reply == Status(422) ==>
                l == null && locks.locks == old(locks.locks) && fs.nodes == old(fs.nodes)
      ensures reply != Status(400) && Asked(body).Ok? && Asked(body).value.refresh ==>
                && Refreshed(Sweep(old(locks.locks), now), locks.locks, Comps(name), IfHeader.Scan(ifHeader, false),
                             FirstTimeout(Split(timeoutHeader, ',')), later)
                && reply == (if l == null then Status(412) else Status(200)) && fs.nodes == old(fs.nodes)
                && (l != null <==>
                      HoldsToken(Sweep(old(locks.locks), now), Comps(name), IfHeader.Scan(ifHeader, false)))
      ensures l != null ==> Comps(name) in locks.locks && locks.locks[Comps(name)] == l.Value()
      ensures reply != Status(400) && Asked(body).Ok? && !Asked(body).value.refresh && l != null ==>
                var timeout := FirstTimeout(Split(timeoutHeader, ','));
                && minted.Some? && !Blocked(Sweep(old(locks.locks), now), Comps(name), ParseDepth(depthHeader).value)
                && l.Value() == Lock(minted.value, ParseDepth(depthHeader).value, Asked(body).value.owner,
                                     later + timeout, timeout)
                && locks.locks == Sweep(old(locks.locks), now)[Comps(name) := l.Value()]
                && Comps(name) in fs.nodes
                && (reply == Status(200) || reply == Status(201))
      ensures reply != Status(400) && Asked(body).Ok? && !Asked(body).value.refresh ==>
                && (reply == Status(201) <==> l != null && Comps(name) !in old(fs.nodes))
                && (!reply.Failed? ==> fs.nodes == Reference.WithResource(old(fs.nodes), Comps(name)))
                && (!reply.Failed? ==>
                      (l != null <==>
                         && !Blocked(Sweep(old(locks.locks), now), Comps(name), ParseDepth(depthHeader).value)
                         && |Sweep(old(locks.locks), now)| < MAX_LOCKS && minted.Some?))
                && (fs.steady && (Comps(name) in old(fs.nodes) || old(fs.CanWrite(Comps(name)))) ==> !reply.Failed?)
      ensures l == null ==> locks.locks == old(locks.locks) || locks.locks == Sweep(old(locks.locks), now)
      ensures reply != Status(400) && Asked(body).Ok? && !Asked(body).value.refresh && !reply.Failed? ==>
                var blocked := Blocked(Sweep(old(locks.locks), now), Comps(name), ParseDepth(depthHeader).value);
                && (reply == Status(423) <==> blocked)
                && (reply == Status(500) <==>
                      !blocked && (|Sweep(old(locks.locks), now)| >= MAX_LOCKS || minted.None?))
      ensures reply == Status(423) ==> Asked(body).Ok? && !Asked(body).value.refresh
      // A refused lock changes the tree exactly when there was nothing to lock.
      ensures reply == Status(423) ==> (fs.nodes != old(fs.nodes) <==> Comps(name) !in old(fs.nodes))
      ensures reply.Failed? ==> l == null && fs.nodes == old(fs.nodes) && locks.locks == old(locks.locks)
      ensures reply.Status? ==> reply.code in {200, 201, 400, 412, 422, 423, 500}
      ensures !reply.Multistatus?
      ensures Tokens(locks.locks) <= Tokens(old(locks.locks)) + (if minted.Some? then {minted.value} else {})
      ensures old(Consistent()) ==> Consistent()
      ensures fs.steady || reply == Status(200) || reply == Status(201) ==>
                Is(Reference.Lock(old(fs.nodes), old(locks.locks), Comps(name), ParseDepth(depthHeader), Asked(body),
                                  FirstTimeout(Split(timeoutHeader, ',')), IfHeader.Scan(ifHeader, false), minted,
                                  now, later), reply)
    {
      hide TreeOk, LockTable.Valid, Canonical, Comps, Render, NamesResources, Tokens, Sweep, Blocked, Split,
           ParseDepth, FirstTimeout, IfHeader.Scan, LockBody.LockRun, Refreshed, HoldsToken, Reference.WithResource,
           Reference.Relock, Reference.NewLock, LockBody.LockResult, LockInfo.Value;
      l := null;
      var depth := ParseDepth(depthHeader);
      if depth.None? || depth.value.One? {
        return Status(400), null;
      }
      var request := LockBody.ParseLock(body);
      if request.Err? {
        return Status(422), null;
      }
      var timeout := ParseTimeout(timeoutHeader);
      SweptLocks(locks.locks, fs.nodes, now);
      if request.value.refresh {
        reply, l := LockAgain(name, ifHeader, timeout, now, later);
        return;
      }
      reply, l := LockNew(name, depth.value, request.value.owner, timeout, minted, now, later);
    }

    /** serveLock, the refresh of a lock the If header names. */
    method LockAgain(name: string, ifHeader: string, timeout: int, now: int, later: int)
      returns (reply: Reply, l: LockInfo?)
      requires Valid() && Canonical(name)
      modifies locks, locks.records
      ensures Valid() && locks.records == old(locks.records)
      ensures reply == if l == null then Status(412) else Status(200)
      ensures l != null <==> HoldsToken(Sweep(old(locks.locks), now), Comps(name), IfHeader.Scan(ifHeader, false))
      ensures l != null ==> Comps(name) in locks.locks && locks.locks[Comps(name)] == l.Value()
      ensures l == null ==> locks.locks == Sweep(old(locks.locks), now)
      ensures Refreshed(Sweep(old(locks.locks), now), locks.locks, Comps(name), IfHeader.Scan(ifHeader, false),
                        timeout, later)
      ensures Tokens(locks.locks) <= Tokens(old(locks.locks))
      ensures NamesResources(old(locks.locks), fs.nodes) ==> NamesResources(locks.locks, fs.nodes)
      ensures Is(Reference.Relock(fs.nodes, Sweep(old(locks.locks), now), Comps(name), timeout,
                                  IfHeader.Scan(ifHeader, false), later), reply)
    {
      hide TreeOk, LockTable.Valid, Canonical, Comps, Render, NamesResources, Tokens, Sweep, IfHeader.Scan;
      ghost var m := locks.locks;
      SweptLocks(m, fs.nodes, now);
      var tokens := IfHeader.SubmittedTokens(ifHeader);
      var r := locks.RefreshLock(name, tokens, timeout, now, later);
      if r.Err? {
        return Status(412), null;
      }
      LockValues(name, r.value);
      SameTokens(Sweep(m, now), Comps(name), r.value.Value(), fs.nodes);
      return Status(200), r.value;
    }

    lemma LockValues(name: string, l: LockInfo)
      requires locks.Valid() && name in locks.byPath && locks.byPath[name] == l
      ensures l.path == name && Comps(name) in locks.locks && locks.locks[Comps(name)] == l.Value()
    {
    }

    lemma SameTokens(m: Table, p: Path, lock: Lock, t: Tree)
      requires p in m && lock.token == m[p].token
      ensures Tokens(m[p := lock]) <= Tokens(m)
      ensures NamesResources(m, t) ==> NamesResources(m[p := lock], t)
    {
      assert forall q | q in m :: m[q].token in Tokens(m);
    }

    lemma OneMoreToken(m: Table, p: Path, lock: Lock, t: Tree)
      ensures Tokens(m[p := lock]) <= Tokens(m) + {lock.token}
      ensures NamesResources(m, t) && p in t ==> NamesResources(m[p := lock], t)
    {
      assert forall q | q in m :: m[q].token in Tokens(m);
    }

    /** Makes sure there is a resource to lock: an empty file where there was none. */
    method EnsureResource(name: string) returns (created: Result<bool, Error>)
      requires TreeOk(fs.nodes) && Canonical(name)
      modifies fs
      ensures TreeOk(fs.nodes)
      ensures created.Ok? ==>
                && fs.nodes == Reference.WithResource(old(fs.nodes), Comps(name)) && Comps(name) in fs.nodes
                && (fs.nodes != old(fs.nodes) <==> Comps(name) !in old(fs.nodes))
                && created.value == (Comps(name) !in old(fs.nodes))
      ensures created.Err? ==> fs.nodes == old(fs.nodes)
      ensures created.Ok? && Comps(name) !in old(fs.nodes) ==> old(fs.CanWrite(Comps(name)))
      ensures fs.steady && Comps(name) !in old(fs.nodes) && !old(fs.CanWrite(Comps(name))) ==> created.Err?
      ensures fs.steady && (Comps(name) in old(fs.nodes) || old(fs.CanWrite(Comps(name)))) ==> created.Ok?
      ensures NamesResources(locks.locks, old(fs.nodes)) ==> NamesResources(locks.locks, fs.nodes)
    {
      hide TreeOk, Canonical, Comps, Render, NamesResources;
      ghost var t, p := fs.nodes, Comps(name);
      PathFacts(name, name);
      created := Ok(false);
      var stat := fs.Stat(Comps(name));
      if stat.StatFailed? {
        if !stat.error.NotFound? {
          return Err(stat.error);
        }
        var err := fs.WriteFile(Comps(name), []);
        if err.Some? {
          return Err(err.value);
        }
        created := Ok(true);
        AddedNodeOk(t, p, File([]));
      }
      NodeAdded(locks.locks, t, p, File([]));
    }

    /** The lock table's part in a new lock. */
    method TakeLock(name: string, depth: Depth, owner: Owner, timeout: int, minted: Option<string>,
                    now: int, later: int)
      returns (r: Result<LockInfo, LockError>)
      requires locks.Valid() && Canonical(name)
      requires minted.Some? ==> minted.value !in Tokens(Sweep(locks.locks, now))
      modifies locks
      ensures locks.Valid() && fresh(locks.records - old(locks.records))
      ensures r.Ok? <==>
                && !Blocked(Sweep(old(locks.locks), now), Comps(name), depth)
                && |Sweep(old(locks.locks), now)| < MAX_LOCKS && minted.Some?
      ensures r.Ok? ==>
                && r.value.Value() == Lock(minted.value, depth, owner, later + timeout, timeout)
                && locks.locks == Sweep(old(locks.locks), now)[Comps(name) := r.value.Value()]
      ensures r.Err? ==>
                && locks.locks == Sweep(old(locks.locks), now)
                && r.error != ErrNoSuchLock
                && (r.error == ErrLocked <==> Blocked(Sweep(old(locks.locks), now), Comps(name), depth))
    {
      hide LockTable.Valid, Canonical, Comps, Tokens, Sweep, Blocked;
      r := locks.CreateLock(name, depth, owner, timeout, minted, now, later);
    }

    /** serveLock, a new lock: the resource is created first when there is none. */
    method LockNew(name: string, depth: Depth, owner: Owner, timeout: int, minted: Option<string>, now: int, later: int)
      returns (reply: Reply, l: LockInfo?)
      requires Valid() && Canonical(name)
      requires minted.Some? ==> minted.value !in Tokens(Sweep(locks.locks, now))
      modifies fs, locks
      ensures Valid() && fresh(locks.records - old(locks.records))
      ensures fs.nodes == old(fs.nodes) || fs.nodes == Reference.WithResource(old(fs.nodes), Comps(name))
      ensures l != null <==> reply == Status(200) || reply == Status(201)
      ensures l != null ==>
                && minted.Some? && !Blocked(Sweep(old(locks.locks), now), Comps(name), depth)
                && l.Value() == Lock(minted.value, depth, owner, later + timeout, timeout)
                && locks.locks == Sweep(old(locks.locks), now)[Comps(name) := l.Value()]
                && Comps(name) in fs.nodes
      ensures l == null ==> locks.locks == old(locks.locks) || locks.locks == Sweep(old(locks.locks), now)
      ensures reply == Status(201) <==> l != null && Comps(name) !in old(fs.nodes)
      ensures !reply.Failed? ==> fs.nodes == Reference.WithResource(old(fs.nodes), Comps(name))
      ensures fs.steady && (Comps(name) in old(fs.nodes) || old(fs.CanWrite(Comps(name)))) ==> !reply.Failed?
      ensures !reply.Failed? ==>
                (l != null <==>
                   && !Blocked(Sweep(old(locks.locks), now), Comps(name), depth)
                   && |Sweep(old(locks.locks), now)| < MAX_LOCKS && minted.Some?)
      ensures reply.Status? ==> reply.code in {200, 201, 423, 500}
      ensures !reply.Failed? ==> (reply == Status(423) <==> Blocked(Sweep(old(locks.locks), now), Comps(name), depth))
      ensures reply == Status(500) <==>
                !reply.Failed? && !Blocked(Sweep(old(locks.locks), now), Comps(name), depth)
                && (|Sweep(old(locks.locks), now)| >= MAX_LOCKS || minted.None?)
      ensures reply == Status(423) ==> (fs.nodes != old(fs.nodes) <==> Comps(name) !in old(fs.nodes))
      ensures reply.Failed? ==> fs.nodes == old(fs.nodes) && locks.locks == old(locks.locks)
      ensures !reply.Multistatus?
      ensures Tokens(locks.locks) <= Tokens(old(locks.locks)) + (if minted.Some? then {minted.value} else {})
      ensures NamesResources(old(locks.locks), old(fs.nodes)) ==> NamesResources(locks.locks, fs.nodes)
      ensures !reply.Failed? ==>
                Is(Reference.NewLock(Reference.WithResource(old(fs.nodes), Comps(name)), Sweep(old(locks.locks), now),
                                     Comps(name), depth, owner, timeout, minted, later,
                                     if Comps(name) in old(fs.nodes) then 200 else 201), reply)
      ensures !reply.Failed? ==> Comps(name) in old(fs.nodes) || old(fs.CanWrite(Comps(name)))
      ensures reply.Failed? && fs.steady ==> Comps(name) !in old(fs.nodes) && !old(fs.CanWrite(Comps(name)))
    {
      hide TreeOk, LockTable.Valid, Canonical, Comps, Render, NamesResources, Tokens, Sweep, Blocked,
           Reference.WithResource, FileSystem.CanWrite, LockInfo.Value;
      ghost var m, p := locks.locks, Comps(name);
      var created := EnsureResource(name);
      if created.Err? {
        return Failed(created.error), null;
      }
      SweptLocks(m, fs.nodes, now);
      var r := TakeLock(name, depth, owner, timeout, minted, now, later);
      if r.Err? {
        return LockReply(r.error), null;
      }
      OneMoreToken(Sweep(m, now), p, r.value.Value(), fs.nodes);
      return if created.value then Status(201) else Status(200), r.value;
    }

    /** The token between the brackets of a Lock-Token header. */
    static function LockToken(header: string): Option<string> {
      var raw := Trim(header);
      if |raw| >= 2 && raw[0] == '<' && raw[|raw| - 1] == '>' then Some(raw[1..|raw| - 1]) else None
    }

    /** A Lock-Token header holds a token exactly when it is the token in brackets, between blanks. */
    static lemma LockTokenExactly(header: string, token: string)
      ensures LockToken(header) == Some(token) <==>
              exists left, right :: Framed(header, left, "<" + token + ">", right)
    {
      var l, r := TrimSplits(header);
      if LockToken(header) == Some(token) {
        assert Trim(header) == "<" + token + ">";
      }
      if left, right :| Framed(header, left, "<" + token + ">", right) {
        TrimAround(header, left, "<" + token + ">", right);
      }
    }

    method ServeUnlock(name: string, lockToken: string, now: int) returns (reply: Reply)
      requires Valid() && Canonical(name)
      modifies locks
      ensures Valid() && locks.records == old(locks.records)
      ensures LockToken(lockToken).None? <==> reply == Status(400)
      ensures reply == Status(400) ==> locks.locks == old(locks.locks)
      ensures LockToken(lockToken).Some? ==>
                var live := Sweep(old(locks.locks), now);
                var held := Comps(name) in live && live[Comps(name)].token == LockToken(lockToken).value;
                && reply == (if held then Status(204) else Status(409))
                && locks.locks == if held then live - {Comps(name)} else live
      ensures Tokens(locks.locks) <= Tokens(old(locks.locks))
      ensures old(Consistent()) ==> Consistent()
      ensures Is(Reference.Unlock(fs.nodes, old(locks.locks), Comps(name), LockToken(lockToken), now), reply)
    {
      hide TreeOk, LockTable.Valid, Canonical, Comps, Render, NamesResources, Tokens, Sweep;
      var token := LockToken(lockToken);
      if token.None? {
        return Status(400);
      }
      ghost var m := locks.locks;
      SweptLocks(m, fs.nodes, now);
      var err := locks.UnlockPath(name, token.value, now);
      FewerLocks(Sweep(m, now), Comps(name), fs.nodes);
      reply := if err.Some? then LockReply(err.value) else Status(204);
    }

    lemma FewerLocks(m: Table, p: Path, t: Tree)
      ensures Tokens(m - {p}) <= Tokens(m)
      ensures NamesResources(m, t) ==> NamesResources(m - {p}, t)
    {
      assert forall q | q in m :: m[q].token in Tokens(m);
    }
  }
}
