/** Whole runs: of the lock table as the server keeps it, and of the server itself. */
module Runs {
  import opened Wrappers
  import opened Paths
  import opened Driver
  import opened TreeOps
  import opened LockSpec
  import opened LockSystem
  import opened RangePut
  import opened Handler
  import opened Requests
  import opened Headers
  import IfHeader
  import Reference

  // -------------------------------------------------------------------------
  // The lock table
  // -------------------------------------------------------------------------

  predicate OnPaths(ops: seq<Op>) {
    forall op | op in ops && !op.Tick? :: IsPath(op.path)
  }

  /** One operation on the table, by the string the path is written as. */
  method Perform(table: LockTable, op: Op) returns (outcome: Outcome)
    requires table.Valid() && (op.Tick? || IsPath(op.path)) && FreshFor(table.locks, op)
    modifies table, table.records
    ensures table.Valid() && fresh(table.records - old(table.records))
    ensures (table.locks, outcome) == LazyStep(old(table.locks), op)
  {
    hide LockTable.Valid, Canonical, Comps, Render, LazyStep;
    if !op.Tick? {
      CompsRender(op.path);
      CleanOfRendered(op.path);
    }
    match op {
      case Create(path, depth, owner, timeout, minted, swept, granted) =>
        var r := table.CreateLock(Render(path), depth, owner, timeout, minted, swept, granted);
        outcome := if r.Ok? then Granted(r.value.Value()) else Refusal(r.error);
      case Refresh(path, tokens, timeout, swept, granted) =>
        var r := table.RefreshLock(Render(path), tokens, timeout, swept, granted);
        outcome := if r.Ok? then Granted(r.value.Value()) else Refusal(r.error);
      case Unlock(path, token, swept) =>
        var err := table.UnlockPath(Render(path), token, swept);
        outcome := Verdict(err);
      case ReleaseTree(path) =>
        table.ReleaseLocksUnder(Render(path));
        outcome := Done;
      case Confirm(path, tokens, swept) =>
        var err := table.ConfirmTokens(Render(path), tokens, swept);
        outcome := Verdict(err);
      case Find(path, swept) =>
        var l := table.FindLock(Render(path), swept);
        outcome := Found(if l == null then Option.None else Some(l.Value()));
      case Tick(now) =>
        TickDoesNothing(table.locks, now);
        outcome := Done;
    }
  }

  lemma CleanOfRendered(p: Path)
    requires Comps(Render(p)) == p
    ensures Canonical(Render(p))
  {
  }

  lemma TickDoesNothing(m: Table, now: int)
    ensures LazyStep(m, Tick(now)) == (m, Done)
  {
  }

  /**
   The table of the server, run from empty over any operations with a clock that never goes
   backwards, answers as the table that drops each lock the moment its expiry passes, and ends
   with no two overlapping locks.
   */
  method RunTable(ops: seq<Op>, clock: int) returns (table: LockTable, outcomes: seq<Outcome>)
    requires OnPaths(ops) && InOrder(clock, ops) && FreshRun(map[], ops)
    ensures table.Valid() && fresh(table) && fresh(table.records)
    ensures outcomes == EagerRun(Eager(map[], clock), ops).1
    ensures Sweep(table.locks, EndClock(clock, ops)) == EagerRun(Eager(map[], clock), ops).0.locks
  {
    hide LockTable.Valid, LazyStep, IsPath;
    table := new LockTable();
    outcomes := [];
    assert ops[0..] == ops && outcomes + LazyRun(map[], ops).1 == LazyRun(map[], ops).1;
    for i := 0 to |ops|
      invariant table.Valid() && fresh(table) && fresh(table.records)
      invariant FreshRun(table.locks, ops[i..])
      invariant LazyRun(map[], ops) ==
                (LazyRun(table.locks, ops[i..]).0, outcomes + LazyRun(table.locks, ops[i..]).1)
    {
      assert ops[i..][0] == ops[i] && ops[i..][1..] == ops[i + 1..];
      assert ops[i] in ops;
      ghost var before := table.locks;
      var outcome := Perform(table, ops[i]);
      RunStep(before, ops[i..], outcomes);
      outcomes := outcomes + [outcome];
    }
    assert ops[|ops|..] == [];
    assert outcomes + [] == outcomes;
    EagerMatches(ops, clock);
  }

  lemma RunStep(m: Table, ops: seq<Op>, sofar: seq<Outcome>)
    requires ops != []
    ensures var (next, outcome) := LazyStep(m, ops[0]);
            (LazyRun(m, ops).0, sofar + LazyRun(m, ops).1) ==
            (LazyRun(next, ops[1..]).0, sofar + [outcome] + LazyRun(next, ops[1..]).1)
  {
    var (next, outcome) := LazyStep(m, ops[0]);
    assert sofar + ([outcome] + LazyRun(next, ops[1..]).1) == sofar + [outcome] + LazyRun(next, ops[1..]).1;
  }

  lemma EagerMatches(ops: seq<Op>, clock: int)
    requires InOrder(clock, ops)
    ensures LazyRun(map[], ops).1 == EagerRun(Eager(map[], clock), ops).1
    ensures Sweep(LazyRun(map[], ops).0, EndClock(clock, ops)) == EagerRun(Eager(map[], clock), ops).0.locks
  {
    assert Sweep(map[], clock) == map[];
    LazyRefinesEager(map[], clock, ops);
    EagerRunClock(Eager(map[], clock), ops);
  }

  // -------------------------------------------------------------------------
  // The server
  // -------------------------------------------------------------------------

  lemma SweepKeepsFresh(m: Table, now: int)
    ensures Tokens(Sweep(m, now)) <= Tokens(m)
  {
    assert forall q | q in m :: m[q].token in Tokens(m);
  }

  lemma StillThere(m: Table, now: int)
    ensures Sweep(m, now).Keys <= m.Keys
  {
  }

  lemma NoneBelowLater(m: Table, now: int, later: int, d: Path)
    requires now <= later
    ensures NoneBelow(Sweep(m, now), d) ==> NoneBelow(Sweep(m, later), d)
  {
    assert forall q | q in Sweep(m, later) :: q in Sweep(m, now);
  }

  lemma AddedAt(t: Tree, p: Path, node: Node)
    ensures OnlyAt(t, t[p := node], p) && OnlyAt(t, t, p)
  {
    forall q | q != p
      ensures SameAt(t, t[p := node], q) && SameAt(t, t, q)
    {
    }
  }

  method ServePutCall(server: Server, r: Request, name: string) returns (reply: Reply)
    requires server.Valid() && r.now <= r.later && r.call.Put? && Canonical(name)
    requires Resource(server.prefix, r.path) == Some(name)
    modifies server.fs, server.locks
    ensures server.Valid() && server.locks.records == old(server.locks.records)
    ensures Tokens(server.locks.locks) <= Tokens(old(server.locks.locks))
    // Locks keep naming resources, whatever is answered but 207, and on a reliable driver always.
    ensures KeepsNames(server.prefix, r, old(server.fs.nodes), old(server.locks.locks), server.fs.nodes,
                       server.locks.locks, reply)
    ensures old(server.Consistent()) && server.fs.reliable ==> server.Consistent()
    ensures Confined(server.prefix, r, old(server.locks.locks), old(server.fs.nodes), server.fs.nodes,
                     server.locks.locks, reply)
    ensures Served(server.prefix, server.Setup(), server.fs.steady, server.fs.exactSizes, r, old(server.fs.nodes),
                   old(server.locks.locks), server.fs.nodes, server.locks.locks, reply)
  {
    hide Server.Valid, Canonical, Comps, Resource, Tokens, Sweep, Confined, NoneBelow, NamesResources,
         SameOutside, ParseDepth, Permitted, OnlyAt, RangeEffect, Satisfiable, Server.Movable,
         Server.CopyDone, Server.CopyStopped, Prepared, Removed, Spared, Renamed, Without, WithoutTree,
         Reference.Put, Reference.Mkcol, Reference.Delete, Reference.Move, Reference.Copy,
         ParseOverwrite, IfHeader.Scan;
    ghost var m, t := server.locks.locks, server.fs.nodes;
    ghost var stuck, size;
    SweepKeepsFresh(server.locks.locks, r.now);
    reply, stuck, size := server.ServePut(name, r.call.ifHeader, r.call.contentRange, r.call.body, r.now);
    PutConfined(server.prefix, r, m, t, server.fs.nodes, server.locks.locks, reply);
  }

  method ServeMkcolCall(server: Server, r: Request, name: string) returns (reply: Reply)
    requires server.Valid() && r.now <= r.later && r.call.Mkcol? && Canonical(name)
    requires Resource(server.prefix, r.path) == Some(name)
    modifies server.fs, server.locks
    ensures server.Valid() && server.locks.records == old(server.locks.records)
    ensures Tokens(server.locks.locks) <= Tokens(old(server.locks.locks))
    // Locks keep naming resources, whatever is answered but 207, and on a reliable driver always.
    ensures KeepsNames(server.prefix, r, old(server.fs.nodes), old(server.locks.locks), server.fs.nodes,
                       server.locks.locks, reply)
    ensures old(server.Consistent()) && server.fs.reliable ==> server.Consistent()
    ensures Confined(server.prefix, r, old(server.locks.locks), old(server.fs.nodes), server.fs.nodes,
                     server.locks.locks, reply)
    ensures Served(server.prefix, server.Setup(), server.fs.steady, server.fs.exactSizes, r, old(server.fs.nodes),
                   old(server.locks.locks), server.fs.nodes, server.locks.locks, reply)
  {
    hide Server.Valid, Canonical, Comps, Resource, Tokens, Sweep, Confined, NoneBelow, NamesResources,
         SameOutside, ParseDepth, Permitted, OnlyAt, RangeEffect, Satisfiable, Server.Movable,
         Server.CopyDone, Server.CopyStopped, Prepared, Removed, Spared, Renamed, Without, WithoutTree,
         Reference.Put, Reference.Mkcol, Reference.Delete, Reference.Move, Reference.Copy,
         ParseOverwrite, IfHeader.Scan;
    ghost var m, t := server.locks.locks, server.fs.nodes;
    SweepKeepsFresh(server.locks.locks, r.now);
    reply := server.ServeMkcol(name, r.call.ifHeader, r.call.hasBody, r.now);
    AddedAt(t, Comps(name), Dir);
    PutConfined(server.prefix, r, m, t, server.fs.nodes, server.locks.locks, reply);
  }

  method ServeDeleteCall(server: Server, r: Request, name: string) returns (reply: Reply)
    requires server.Valid() && r.now <= r.later && r.call.Delete? && Canonical(name)
    requires Resource(server.prefix, r.path) == Some(name)
    modifies server.fs, server.locks
    ensures server.Valid() && server.locks.records == old(server.locks.records)
    ensures Tokens(server.locks.locks) <= Tokens(old(server.locks.locks))
    // Locks keep naming resources, whatever is answered but 207, and on a reliable driver always.
    ensures KeepsNames(server.prefix, r, old(server.fs.nodes), old(server.locks.locks), server.fs.nodes,
                       server.locks.locks, reply)
    ensures old(server.Consistent()) && server.fs.reliable ==> server.Consistent()
    ensures Confined(server.prefix, r, old(server.locks.locks), old(server.fs.nodes), server.fs.nodes,
                     server.locks.locks, reply)
    ensures Served(server.prefix, server.Setup(), server.fs.steady, server.fs.exactSizes, r, old(server.fs.nodes),
                   old(server.locks.locks), server.fs.nodes, server.locks.locks, reply)
  {
    hide Server.Valid, Canonical, Comps, Resource, Tokens, Sweep, Confined, NoneBelow, NamesResources,
         SameOutside, ParseDepth, Permitted, OnlyAt, RangeEffect, Satisfiable, Server.Movable,
         Server.CopyDone, Server.CopyStopped, Prepared, Removed, Spared, Renamed, Without, WithoutTree,
         Reference.Put, Reference.Mkcol, Reference.Delete, Reference.Move, Reference.Copy,
         ParseOverwrite, IfHeader.Scan;
    ghost var m, t := server.locks.locks, server.fs.nodes;
    reply := server.ServeDelete(name, r.call.ifHeader, r.now);
    DeleteConfined(server.prefix, r, m, t, server.fs.nodes, server.locks.locks, reply);
  }

  method ServeMoveCall(server: Server, r: Request, name: string) returns (reply: Reply)
    requires server.Valid() && r.now <= r.later && r.call.Move? && Canonical(name)
    requires Resource(server.prefix, r.path) == Some(name)
    modifies server.fs, server.locks
    ensures server.Valid() && server.locks.records == old(server.locks.records)
    ensures Tokens(server.locks.locks) <= Tokens(old(server.locks.locks))
    // Locks keep naming resources, whatever is answered but 207, and on a reliable driver always.
    ensures KeepsNames(server.prefix, r, old(server.fs.nodes), old(server.locks.locks), server.fs.nodes,
                       server.locks.locks, reply)
    ensures old(server.Consistent()) && server.fs.reliable ==> server.Consistent()
    ensures Confined(server.prefix, r, old(server.locks.locks), old(server.fs.nodes), server.fs.nodes,
                     server.locks.locks, reply)
    ensures Served(server.prefix, server.Setup(), server.fs.steady, server.fs.exactSizes, r, old(server.fs.nodes),
                   old(server.locks.locks), server.fs.nodes, server.locks.locks, reply)
  {
    hide Server.Valid, Canonical, Comps, Resource, Tokens, Sweep, Confined, NoneBelow, NamesResources,
         SameOutside, ParseDepth, Permitted, OnlyAt, RangeEffect, Satisfiable, Server.Movable,
         Server.CopyDone, Server.CopyStopped, Prepared, Removed, Spared, Renamed, Without, WithoutTree,
         Reference.Put, Reference.Mkcol, Reference.Delete, Reference.Move, Reference.Copy,
         ParseOverwrite, IfHeader.Scan;
    ghost var m, t := server.locks.locks, server.fs.nodes;
    ghost var dst;
    reply, dst := server.ServeMove(name, r.call.destination, r.call.overwrite, r.call.ifHeader, r.now, r.later);
    NoneBelowLater(m, r.now, r.later, Comps(dst));
    MoveConfined(server.prefix, r, m, t, server.fs.nodes, server.locks.locks, reply);
  }

  method ServeCopyCall(server: Server, r: Request, name: string) returns (reply: Reply)
    requires server.Valid() && r.now <= r.later && r.call.Copy? && Canonical(name)
    requires Resource(server.prefix, r.path) == Some(name)
    modifies server.fs, server.locks
    ensures server.Valid() && server.locks.records == old(server.locks.records)
    ensures Tokens(server.locks.locks) <= Tokens(old(server.locks.locks))
    // Locks keep naming resources, whatever is answered but 207, and on a reliable driver always.
    ensures KeepsNames(server.prefix, r, old(server.fs.nodes), old(server.locks.locks), server.fs.nodes,
                       server.locks.locks, reply)
    ensures old(server.Consistent()) && server.fs.reliable ==> server.Consistent()
    ensures Confined(server.prefix, r, old(server.locks.locks), old(server.fs.nodes), server.fs.nodes,
                     server.locks.locks, reply)
    ensures Served(server.prefix, server.Setup(), server.fs.steady, server.fs.exactSizes, r, old(server.fs.nodes),
                   old(server.locks.locks), server.fs.nodes, server.locks.locks, reply)
  {
    hide Server.Valid, Canonical, Comps, Resource, Tokens, Sweep, Confined, NoneBelow, NamesResources,
         SameOutside, ParseDepth, Permitted, OnlyAt, RangeEffect, Satisfiable, Server.Movable,
         Server.CopyDone, Server.CopyStopped, Prepared, Removed, Spared, Renamed, Without, WithoutTree,
         Reference.Put, Reference.Mkcol, Reference.Delete, Reference.Move, Reference.Copy,
         ParseOverwrite, IfHeader.Scan;
    ghost var m, t := server.locks.locks, server.fs.nodes;
    ghost var dst;
    reply, dst := server.ServeCopy(name, r.call.destination, r.call.depth, r.call.overwrite, r.call.ifHeader, r.now);
    CopyConfined(server.prefix, r, m, t, server.fs.nodes, server.locks.locks, reply);
  }

  method ServeLockCall(server: Server, r: Request, name: string) returns (reply: Reply)
    requires server.Valid() && r.now <= r.later && r.call.Lock? && Canonical(name)
    requires Resource(server.prefix, r.path) == Some(name)
    requires Mints(r) !! Tokens(server.locks.locks)
    modifies server.fs, server.locks, server.locks.records
    ensures server.Valid() && fresh(server.locks.records - old(server.locks.records))
    ensures Tokens(server.locks.locks) <= Tokens(old(server.locks.locks)) + Mints(r)
    ensures KeepsNames(server.prefix, r, old(server.fs.nodes), old(server.locks.locks), server.fs.nodes,
                       server.locks.locks, reply)
    ensures old(server.Consistent()) && server.fs.reliable ==> server.Consistent()
    ensures forall p | p in Sweep(old(server.locks.locks), r.later) ::
              Honoured(server.prefix, r, p, old(server.locks.locks)[p], old(server.fs.nodes), server.fs.nodes,
                       server.locks.locks, reply)
    ensures Served(server.prefix, server.Setup(), server.fs.steady, server.fs.exactSizes, r, old(server.fs.nodes),
                   old(server.locks.locks), server.fs.nodes, server.locks.locks, reply)
  {
    hide Server.Valid, NamesResources, Canonical, Comps, Resource, Tokens, Honoured, ParseDepth, Server.Asked,
         Reference.WithResource, Server.Refreshed, IfHeader.Scan, FirstTimeout, Split, Reference.Lock,
         LockSystem.LockInfo.Value, FileSystem.CanWrite, Blocked, Server.HoldsToken;
    ghost var m, t, prefix, n := server.locks.locks, server.fs.nodes, server.prefix, Comps(name);
    SweepKeepsFresh(m, r.now);
    var l;
    reply, l := server.ServeLock(name, r.call.depth, r.call.timeout, r.call.ifHeader, r.call.input, r.call.minted,
                                 r.now, r.later);
    ghost var left := server.locks.locks;
    assert Named(prefix, r) == Some(n);
    RivalsBlocked(prefix, r, m, n);
    if l != null && !Restamps(prefix, r, n) {
      NewcomerElsewhere(Sweep(m, r.now), n, ParseDepth(r.call.depth).value);
    }
    forall p | p in Sweep(m, r.later)
      ensures Honoured(prefix, r, p, m[p], t, server.fs.nodes, left, reply)
    {
      LockHonours(prefix, r, m, t, server.fs.nodes, left, reply, p);
    }
  }

  lemma RivalsBlocked(prefix: string, r: Request, m: Table, n: Path)
    requires r.call.Lock? && Named(prefix, r) == Some(n)
    ensures forall q | q in Sweep(m, r.now) && Rivals(prefix, r, q, m[q].depth) ::
              Blocked(Sweep(m, r.now), n, ParseDepth(r.call.depth).value)
  {
    hide ParseDepth, Server.Asked, Overlap;
    forall q | q in Sweep(m, r.now) && Rivals(prefix, r, q, m[q].depth)
      ensures Blocked(Sweep(m, r.now), n, ParseDepth(r.call.depth).value)
    {
      assert Sweep(m, r.now)[q] == m[q];
      assert Overlap(q, Sweep(m, r.now)[q].depth, n, ParseDepth(r.call.depth).value);
    }
  }

  lemma NewcomerElsewhere(m: Table, p: Path, depth: Depth)
    ensures !Blocked(m, p, depth) ==> p !in m
  {
    if p in m {
      assert Overlap(p, m[p].depth, p, depth);
    }
  }

  method ServeUnlockCall(server: Server, r: Request, name: string) returns (reply: Reply)
    requires server.Valid() && r.now <= r.later && r.call.Unlock? && Canonical(name)
    requires Resource(server.prefix, r.path) == Some(name)
    modifies server.locks
    ensures server.Valid() && server.locks.records == old(server.locks.records)
    ensures Tokens(server.locks.locks) <= Tokens(old(server.locks.locks))
    ensures KeepsNames(server.prefix, r, old(server.fs.nodes), old(server.locks.locks), server.fs.nodes,
                       server.locks.locks, reply)
    ensures old(server.Consistent()) && server.fs.reliable ==> server.Consistent()
    ensures forall p | p in Sweep(old(server.locks.locks), r.later) ::
              Honoured(server.prefix, r, p, old(server.locks.locks)[p], old(server.fs.nodes), server.fs.nodes,
                       server.locks.locks, reply)
    ensures Served(server.prefix, server.Setup(), server.fs.steady, server.fs.exactSizes, r, old(server.fs.nodes),
                   old(server.locks.locks), server.fs.nodes, server.locks.locks, reply)
  {
    hide Server.Valid, NamesResources, Canonical, Comps, Resource, Tokens, Honoured, Server.LockToken,
         Reference.Unlock, IfHeader.Scan;
    ghost var m, t, prefix := server.locks.locks, server.fs.nodes, server.prefix;
    reply := server.ServeUnlock(name, r.call.lockToken, r.now);
    forall p | p in Sweep(m, r.later)
      ensures Honoured(prefix, r, p, m[p], t, t, server.locks.locks, reply)
    {
      UnlockHonours(prefix, r, m, t, server.locks.locks, reply, p);
    }
  }

  /** ServeHTTP on a writable export: resolve the path, then dispatch on the method. */
  method Serve(server: Server, r: Request) returns (reply: Reply)
    requires server.Valid() && r.now <= r.later
    requires Mints(r) !! Tokens(server.locks.locks)
    modifies server.fs, server.locks, server.locks.records
    ensures server.Valid() && fresh(server.locks.records - old(server.locks.records))
    ensures Tokens(server.locks.locks) <= Tokens(old(server.locks.locks)) + Mints(r)
    // What the request does to the tree and the table, and what it is answered.
    ensures Served(server.prefix, server.Setup(), server.fs.steady, server.fs.exactSizes, r, old(server.fs.nodes),
                   old(server.locks.locks), server.fs.nodes, server.locks.locks, reply)
    // Locks keep naming resources, unless clearing a path stopped short above one of them.
    ensures KeepsNames(server.prefix, r, old(server.fs.nodes), old(server.locks.locks), server.fs.nodes,
                       server.locks.locks, reply)
    ensures old(server.Consistent()) && server.fs.reliable ==> server.Consistent()
    // Every live lock is worth what it should be.
    ensures forall p | p in Sweep(old(server.locks.locks), r.later) ::
              Honoured(server.prefix, r, p, old(server.locks.locks)[p], old(server.fs.nodes), server.fs.nodes,
                       server.locks.locks, reply)
    ensures Resource(server.prefix, r.path).None? ==>
              reply == Status(400) && server.fs.nodes == old(server.fs.nodes)
              && server.locks.locks == old(server.locks.locks)
  {
    hide Server.Valid, Server.Consistent, Canonical, Comps, Resource, Tokens, Sweep, Honoured, Confined, Served,
         KeepsNames;
    ghost var m, t, prefix := server.locks.locks, server.fs.nodes, server.prefix;
    StillThere(m, r.later);
    var name := Resource(server.prefix, r.path);
    if name.None? {
      forall p | p in Sweep(m, r.later)
        ensures Honoured(prefix, r, p, m[p], t, t, m, Status(400))
      {
        RefusalHonours(prefix, r, m, t, p);
      }
      RefusalServed(prefix, server.Setup(), server.fs.steady, server.fs.exactSizes, r, t, m);
      return Status(400);
    }
    ResourceContained(server.prefix, r.path);
    match r.call {
      case Put(_, _, _) => reply := ServePutCall(server, r, name.value);
      case Mkcol(_, _) => reply := ServeMkcolCall(server, r, name.value);
      case Delete(_) => reply := ServeDeleteCall(server, r, name.value);
      case Move(_, _, _) => reply := ServeMoveCall(server, r, name.value);
      case Copy(_, _, _, _) => reply := ServeCopyCall(server, r, name.value);
      case Lock(_, _, _, _, _) =>
        reply := ServeLockCall(server, r, name.value);
        return;
      case Unlock(_) =>
        reply := ServeUnlockCall(server, r, name.value);
        return;
    }
    forall p | p in Sweep(m, r.later)
      ensures Honoured(prefix, r, p, m[p], t, server.fs.nodes, server.locks.locks, reply)
    {
      ConfinedHonours(prefix, r, m, t, server.fs.nodes, server.locks.locks, reply, p);
    }
  }

  lemma RefusalServed(prefix: string, s: Reference.Setting, steady: bool, exact: bool, r: Request, t: Tree, m: Table)
    requires Named(prefix, r).None?
    ensures Served(prefix, s, steady, exact, r, t, m, t, m, Status(400))
    ensures KeepsNames(prefix, r, t, m, t, m, Status(400))
  {
  }

  /**
   Over every run of requests on a driver that fails only on violated preconditions, every
   lock in the table names a resource that exists.
   */
  method ServeAll(server: Server, requests: seq<Request>)
    requires server.Valid() && server.Consistent() && server.fs.reliable
    requires forall r | r in requests :: r.now <= r.later
    requires FreshTokens(Tokens(server.locks.locks), requests)
    modifies server.fs, server.locks, server.locks.records
    ensures server.Valid() && server.Consistent()
  {
    hide Server.Valid, Server.Consistent, Tokens, Mints;
    ghost var used := Tokens(server.locks.locks);
    assert requests[0..] == requests;
    for i := 0 to |requests|
      invariant server.Valid() && server.Consistent()
      invariant fresh(server.locks.records - old(server.locks.records))
      invariant Tokens(server.locks.locks) <= used
      invariant FreshTokens(used, requests[i..])
    {
      assert requests[i..][0] == requests[i] && requests[i..][1..] == requests[i + 1..];
      assert requests[i] in requests;
      var _ := Serve(server, requests[i]);
      used := used + Mints(requests[i]);
    }
  }

  /**
   On a driver that fails only where it must, or refuses to delete, the whole server, over every run
   of requests, is the function that tells what each comes to.
   */
  method ServeSteady(server: Server, requests: seq<Request>) returns (replies: seq<Reply>)
    requires server.Valid() && server.fs.steady
    requires forall r | r in requests :: r.now <= r.later
    requires FreshTokens(Tokens(server.locks.locks), requests)
    modifies server.fs, server.locks, server.locks.records
    ensures server.Valid() && |replies| == |requests|
    ensures var (nodes, locks, answers) :=
              ExpectedRun(server.prefix, server.Setup(), requests, old(server.fs.nodes), old(server.locks.locks));
            && server.fs.nodes == nodes && server.locks.locks == locks && |answers| == |requests|
            && forall i | 0 <= i < |requests| :: Gives(replies[i], answers[i])
  {
    hide Server.Valid, Server.Consistent, Tokens, Mints, Expected, ExpectedRun, Gives;
    ghost var t, m, used := server.fs.nodes, server.locks.locks, Tokens(server.locks.locks);
    ghost var answers: seq<Answer> := [];
    replies := [];
    NothingExpected(server.prefix, server.Setup(), t, m);
    assert requests[0..] == requests && requests[..0] == [];
    for i := 0 to |requests|
      invariant server.Valid() && fresh(server.locks.records - old(server.locks.records))
      invariant Tokens(server.locks.locks) <= used
      invariant FreshTokens(used, requests[i..])
      invariant ExpectedRun(server.prefix, server.Setup(), requests[..i], t, m) ==
                (server.fs.nodes, server.locks.locks, answers)
      invariant |replies| == |answers| == i && forall j | 0 <= j < i :: Gives(replies[j], answers[j])
    {
      assert requests[i..][0] == requests[i] && requests[i..][1..] == requests[i + 1..];
      assert requests[i] in requests;
      ExpectedMore(server.prefix, server.Setup(), requests[..i], requests[i], t, m);
      ghost var e := Expected(server.prefix, server.Setup(), requests[i], server.fs.nodes, server.locks.locks);
      var reply := Serve(server, requests[i]);
      used := used + Mints(requests[i]);
      replies, answers := replies + [reply], answers + [e.answer];
      assert requests[..i + 1] == requests[..i] + [requests[i]];
    }
    assert requests[..|requests|] == requests;
  }

  lemma NothingExpected(prefix: string, s: Reference.Setting, t: Tree, m: Table)
    ensures ExpectedRun(prefix, s, [], t, m) == (t, m, [])
  {
  }

  /** An answered request as a lock on `p` sees it. */
  ghost predicate HonouredTurn(prefix: string, p: Path, token: string, depth: Depth, e: Exchange) {
    && (!Bears(e.request.call, token) ==> Sheltered(prefix, e.request, p, depth, e.before, e.after, e.reply))
    && (Rivals(prefix, e.request, p, depth) ==> e.reply == Status(423) || e.reply.Failed?)
  }

  /** Every turn of a run through which the lock lasts. */
  ghost predicate HonouredRun(prefix: string, p: Path, lock: LockSpec.Lock, run: seq<Exchange>) {
    forall i | 0 <= i < |run| && FateOver(prefix, p, lock, run[..i + 1]).Some? ::
      HonouredTurn(prefix, p, lock.token, lock.depth, run[i])
  }

  /** The tree a run has reached after its first `n` turns. */
  function TreeAfter(run: seq<Exchange>, n: nat, first: Tree): Tree
    requires n <= |run|
  {
    if n == 0 then first else run[n - 1].after
  }

  /** The run answers these requests, each starting from the tree the one before it left. */
  predicate Answers(run: seq<Exchange>, requests: seq<Request>, first: Tree, last: Tree) {
    && |run| == |requests|
    && (forall i | 0 <= i < |run| :: run[i].request == requests[i])
    && (forall i | 0 <= i < |run| :: run[i].before == TreeAfter(run, i, first))
    && last == TreeAfter(run, |run|, first)
  }

  /**
   Exclusivity over every run of requests, on any driver: while the fate of a lock lasts it stays
   in the table with its path, token and depth; every request that does not bear its token leaves
   all it covers alone, and is answered 423 without effect when it aims there; and no overlapping
   lock is granted to anyone.
   */
  method ServeHeld(server: Server, requests: seq<Request>, ghost p: Path) returns (run: seq<Exchange>)
    requires server.Valid() && p in server.locks.locks
    requires forall r | r in requests :: r.now <= r.later
    requires FreshTokens(Tokens(server.locks.locks), requests)
    modifies server.fs, server.locks, server.locks.records
    ensures server.Valid() && Answers(run, requests, old(server.fs.nodes), server.fs.nodes)
    ensures HonouredRun(server.prefix, p, old(server.locks.locks)[p], run)
    ensures var lock := old(server.locks.locks)[p];
            var fate := FateOver(server.prefix, p, lock, run);
            fate.Some? ==>
              && p in server.locks.locks && server.locks.locks[p] == fate.value
              && fate.value.token == lock.token && fate.value.depth == lock.depth
  {
    hide Server.Valid, Server.Consistent, Tokens, Mints, Kept, Sheltered, HonouredTurn, HonouredRun, FateOver,
         Honoured, Answers;
    ghost var lock, prefix := server.locks.locks[p], server.prefix;
    ghost var used := Tokens(server.locks.locks);
    run := [];
    NoTurns(prefix, p, lock, server.fs.nodes);
    assert requests[0..] == requests && requests[..0] == [];
    for i := 0 to |requests|
      invariant server.Valid() && fresh(server.locks.records - old(server.locks.records))
      invariant Tokens(server.locks.locks) <= used
      invariant FreshTokens(used, requests[i..])
      invariant Answers(run, requests[..i], old(server.fs.nodes), server.fs.nodes)
      invariant HonouredRun(prefix, p, lock, run)
      invariant var fate := FateOver(prefix, p, lock, run);
                fate.Some? ==> p in server.locks.locks && server.locks.locks[p] == fate.value
    {
      assert requests[i..][0] == requests[i] && requests[i..][1..] == requests[i + 1..];
      assert requests[i] in requests;
      ghost var m := server.locks.locks;
      var t := server.fs.nodes;
      var reply := Serve(server, requests[i]);
      var e := Exchange(requests[i], t, server.fs.nodes, reply);
      OneMore(prefix, p, lock, run, e, m, server.locks.locks);
      AnswersMore(run, requests[..i], old(server.fs.nodes), e);
      used := used + Mints(requests[i]);
      run := run + [e];
      assert requests[..i + 1] == requests[..i] + [requests[i]];
    }
    assert requests[..|requests|] == requests;
    FateKeepsIdentity(prefix, p, lock, run);
  }

  lemma NoTurns(prefix: string, p: Path, lock: LockSpec.Lock, t: Tree)
    ensures HonouredRun(prefix, p, lock, []) && FateOver(prefix, p, lock, []) == Some(lock)
    ensures Answers([], [], t, t)
  {
  }

  lemma AnswersMore(run: seq<Exchange>, requests: seq<Request>, first: Tree, e: Exchange)
    requires Answers(run, requests, first, e.before)
    ensures Answers(run + [e], requests + [e.request], first, e.after)
  {
    var longer := run + [e];
    forall i | 0 <= i < |longer|
      ensures longer[i].before == TreeAfter(longer, i, first)
    {
      assert TreeAfter(longer, i, first) == TreeAfter(run, i, first);
      assert i < |run| ==> longer[i] == run[i];
    }
  }

  /** One more turn of a run, from what the server owes each live lock in it. */
  lemma OneMore(prefix: string, p: Path, lock: LockSpec.Lock, run: seq<Exchange>, e: Exchange, m: Table, left: Table)
    requires HonouredRun(prefix, p, lock, run)
    requires var sofar := FateOver(prefix, p, lock, run); sofar.Some? ==> p in m && m[p] == sofar.value
    requires forall q | q in Sweep(m, e.request.later) ::
               Honoured(prefix, e.request, q, m[q], e.before, e.after, left, e.reply)
    ensures HonouredRun(prefix, p, lock, run + [e])
    ensures var fate := FateOver(prefix, p, lock, run + [e]); fate.Some? ==> p in left && left[p] == fate.value
  {
    hide Kept, Sheltered, Rivals, Bears, FateOver, Cleared;
    var longer := run + [e];
    FateMore(prefix, p, lock, run, e);
    FateKeepsIdentity(prefix, p, lock, run);
    if FateOver(prefix, p, lock, longer).Some? {
      assert p in Sweep(m, e.request.later);
      assert Honoured(prefix, e.request, p, m[p], e.before, e.after, left, e.reply);
    }
    forall i | 0 <= i < |longer| && FateOver(prefix, p, lock, longer[..i + 1]).Some?
      ensures HonouredTurn(prefix, p, lock.token, lock.depth, longer[i])
    {
      if i < |run| {
        assert longer[..i + 1] == run[..i + 1];
      } else {
        assert longer[..i + 1] == longer;
      }
    }
  }
}
