/**
 What the lock table of `lock.go` is for, on values.

 A table maps the locked path to its lock.  Two step functions are given: `LazyStep` keeps
 expired locks until an operation sweeps them, as the server does; `EagerStep` carries a clock
 and drops every lock the moment the clock passes its expiry.  The lemmas show that no run can
 tell them apart, that locks never overlap, and what a granted lock excludes.
 */
module LockSpec {
  import opened Wrappers
  import opened Headers
  import opened Paths
  import XmlTokens

  /** The re-encoded content of the client's owner element. */
  type Owner = seq<XmlTokens.Token>

  const MAX_LOCKS := 65536

  /** A held lock; instants and durations are nanoseconds. */
  datatype Lock = Lock(token: string, depth: Depth, owner: Owner, expiry: int, timeout: int)

  type Table = map<Path, Lock>

  // -------------------------------------------------------------------------
  // Which locks exclude one another
  // -------------------------------------------------------------------------

  /** A lock on `at` with depth `depth` covers `p`: the path itself, or everything beneath. */
  predicate Covers(at: Path, depth: Depth, p: Path) {
    at == p || (depth.Infinity? && at <= p)
  }

  predicate Overlap(a: Path, da: Depth, b: Path, db: Depth) {
    Covers(a, da, b) || Covers(b, db, a)
  }

  predicate Blocked(m: Table, p: Path, depth: Depth) {
    exists q | q in m :: Overlap(q, m[q].depth, p, depth)
  }

  ghost predicate Disjoint(m: Table) {
    forall p, q | p in m && q in m && p != q :: !Overlap(p, m[p].depth, q, m[q].depth)
  }

  ghost predicate UniqueTokens(m: Table) {
    forall p, q | p in m && q in m && m[p].token == m[q].token :: p == q
  }

  ghost predicate TableOk(m: Table) {
    Disjoint(m) && UniqueTokens(m) && |m| <= MAX_LOCKS
  }

  ghost function Tokens(m: Table): set<string> {
    set p | p in m :: m[p].token
  }

  // -------------------------------------------------------------------------
  // Operations
  // -------------------------------------------------------------------------

  /**
   `swept` is the clock as the opening sweep reads it, `granted` as it is read again to stamp
   an expiry.  `minted` is what the random source yields, None when it fails.
   */
  datatype Op =
    | Create(path: Path, depth: Depth, owner: Owner, timeout: int,
             minted: Option<string>, swept: int, granted: int)
    | Refresh(path: Path, tokens: seq<string>, timeout: int, swept: int, granted: int)
    | Unlock(path: Path, token: string, swept: int)
    | ReleaseTree(path: Path)
    | Confirm(path: Path, tokens: seq<string>, swept: int)
    | Find(path: Path, swept: int)
    | Tick(now: int)

  datatype Outcome =
    | Granted(lock: Lock)
    | Found(held: Option<Lock>)
    | Done
    | Locked
    | NoSuchLock
    | TableFull
    | MintFailed

  function Sweep(m: Table, now: int): Table {
    map p | p in m && now <= m[p].expiry :: m[p]
  }

  function WithoutTree(m: Table, root: Path): Table {
    map p | p in m && !(root <= p) :: m[p]
  }

  predicate ConfirmedBy(m: Table, p: Path, tokens: seq<string>) {
    forall q | q in m && Covers(q, m[q].depth, p) :: m[q].token in tokens
  }

  /** The effect of an operation on a table whose expired locks are already gone. */
  function Act(m: Table, op: Op): (Table, Outcome) {
    match op
    case Create(p, depth, owner, timeout, minted, _, granted) =>
      if Blocked(m, p, depth) then (m, Locked)
      else if |m| >= MAX_LOCKS then (m, TableFull)
      else if minted.None? then (m, MintFailed)
      else
        var lock := Lock(minted.value, depth, owner, granted + timeout, timeout);
        (m[p := lock], Granted(lock))
    case Refresh(p, tokens, timeout, _, granted) =>
      if p in m && m[p].token in tokens then
        var lock := m[p].(expiry := granted + timeout, timeout := timeout);
        (m[p := lock], Granted(lock))
      else (m, NoSuchLock)
    case Unlock(p, token, _) =>
      if p in m && m[p].token == token then (m - {p}, Done) else (m, NoSuchLock)
    case ReleaseTree(root) => (WithoutTree(m, root), Done)
    case Confirm(p, tokens, _) => (m, if ConfirmedBy(m, p, tokens) then Done else Locked)
    case Find(p, _) => (m, Found(if p in m then Some(m[p]) else None))
    case Tick(_) => (m, Done)
  }

  // -------------------------------------------------------------------------
  // Lazy and eager expiry
  // -------------------------------------------------------------------------

  /** releaseTree does not sweep, and the passing of time does nothing by itself. */
  function LazyStep(m: Table, op: Op): (Table, Outcome) {
    if op.ReleaseTree? || op.Tick? then Act(m, op) else Act(Sweep(m, op.swept), op)
  }

  function Begins(clock: int, op: Op): int {
    match op
    case ReleaseTree(_) => clock
    case Tick(now) => now
    case _ => op.swept
  }

  function Ends(clock: int, op: Op): int {
    if op.Create? || op.Refresh? then op.granted else Begins(clock, op)
  }

  datatype Eager = Eager(locks: Table, clock: int)

  function EagerStep(e: Eager, op: Op): (Eager, Outcome) {
    var (acted, outcome) := Act(Sweep(e.locks, Begins(e.clock, op)), op);
    var now := Ends(e.clock, op);
    (Eager(Sweep(acted, now), now), outcome)
  }

  function LazyRun(m: Table, ops: seq<Op>): (Table, seq<Outcome>)
    decreases |ops|
  {
    if ops == [] then (m, [])
    else
      var (next, outcome) := LazyStep(m, ops[0]);
      var (last, outcomes) := LazyRun(next, ops[1..]);
      (last, [outcome] + outcomes)
  }

  function EagerRun(e: Eager, ops: seq<Op>): (Eager, seq<Outcome>)
    decreases |ops|
  {
    if ops == [] then (e, [])
    else
      var (next, outcome) := EagerStep(e, ops[0]);
      var (last, outcomes) := EagerRun(next, ops[1..]);
      (last, [outcome] + outcomes)
  }

  /** The clock never goes backwards, within an operation or between two. */
  predicate InOrder(clock: int, ops: seq<Op>)
    decreases |ops|
  {
    ops == [] ||
    (clock <= Begins(clock, ops[0]) <= Ends(clock, ops[0]) && InOrder(Ends(clock, ops[0]), ops[1..]))
  }

  lemma SweepTwice(m: Table, t: int, u: int)
    requires t <= u
    ensures Sweep(Sweep(m, t), u) == Sweep(m, u)
  {
  }

  lemma LazyStepSimulates(m: Table, clock: int, op: Op)
    requires clock <= Begins(clock, op) <= Ends(clock, op)
    ensures var (next, outcome) := LazyStep(m, op);
            EagerStep(Eager(Sweep(m, clock), clock), op) ==
            (Eager(Sweep(next, Ends(clock, op)), Ends(clock, op)), outcome)
  {
    var begins := Begins(clock, op);
    SweepTwice(m, clock, begins);
    assert Sweep(Sweep(m, clock), clock) == Sweep(m, clock);
    match op {
      case ReleaseTree(root) =>
        assert Sweep(WithoutTree(Sweep(m, clock), root), clock) == Sweep(WithoutTree(m, root), clock);
      case Tick(now) =>
        SweepTwice(m, now, now);
      case _ =>
    }
  }

  /** Over every run, the server's lazy table answers as the eager one does. */
  lemma {:induction false} LazyRefinesEager(m: Table, clock: int, ops: seq<Op>)
    requires InOrder(clock, ops)
    ensures var (lazy, lazyOutcomes) := LazyRun(m, ops);
            var (eager, eagerOutcomes) := EagerRun(Eager(Sweep(m, clock), clock), ops);
            lazyOutcomes == eagerOutcomes && eager.locks == Sweep(lazy, eager.clock)
    decreases |ops|
  {
    if ops != [] {
      LazyStepSimulates(m, clock, ops[0]);
      LazyRefinesEager(LazyStep(m, ops[0]).0, Ends(clock, ops[0]), ops[1..]);
    }
  }

  // -------------------------------------------------------------------------
  // The invariant of the table
  // -------------------------------------------------------------------------

  /** A minted token is new to the table it joins. */
  ghost predicate FreshFor(m: Table, op: Op) {
    op.Create? && op.minted.Some? ==> op.minted.value !in Tokens(Sweep(m, op.swept))
  }

  lemma SubsetOk(m: Table, n: Table)
    requires TableOk(m)
    requires n.Keys <= m.Keys && forall p | p in n :: n[p] == m[p]
    ensures TableOk(n)
  {
    CardinalityMonotone(n.Keys, m.Keys);
    assert |n| == |n.Keys| && |m| == |m.Keys|;
  }

  lemma {:induction false} CardinalityMonotone<T>(a: set<T>, b: set<T>)
    requires a <= b
    ensures |a| <= |b|
  {
    if a != {} {
      var x :| x in a;
      CardinalityMonotone(a - {x}, b - {x});
    }
  }

  lemma GrantKeepsOk(live: Table, p: Path, lock: Lock)
    requires TableOk(live) && |live| < MAX_LOCKS
    requires !Blocked(live, p, lock.depth) && lock.token !in Tokens(live)
    ensures p !in live && TableOk(live[p := lock])
  {
    var next := live[p := lock];
    assert p !in live by {
      if p in live {
        assert Overlap(p, live[p].depth, p, lock.depth);
      }
    }
    assert |next| == |live| + 1;
    AddedKeepsDisjoint(live, p, lock);
    forall q | q in live
      ensures live[q].token != lock.token
    {
      assert live[q].token in Tokens(live);
    }
  }

  lemma SameShapeOk(live: Table, p: Path, lock: Lock)
    requires TableOk(live) && p in live && lock.token == live[p].token && lock.depth == live[p].depth
    ensures TableOk(live[p := lock])
  {
    assert live[p := lock].Keys == live.Keys;
    assert |live[p := lock]| == |live|;
  }

  lemma LazyStepKeepsOk(m: Table, op: Op)
    requires TableOk(m) && FreshFor(m, op)
    ensures TableOk(LazyStep(m, op).0)
  {
    hide TableOk, Tokens, Blocked;
    if op.ReleaseTree? {
      SubsetOk(m, WithoutTree(m, op.path));
    } else if !op.Tick? {
      var live := Sweep(m, op.swept);
      SubsetOk(m, live);
      match op {
        case Create(p, depth, owner, timeout, minted, _, granted) =>
          if !Blocked(live, p, depth) && |live| < MAX_LOCKS && minted.Some? {
            GrantKeepsOk(live, p, Lock(minted.value, depth, owner, granted + timeout, timeout));
          }
        case Refresh(p, tokens, timeout, _, granted) =>
          if p in live {
            SameShapeOk(live, p, live[p].(expiry := granted + timeout, timeout := timeout));
          }
        case Unlock(p, _, _) =>
          SubsetOk(live, live - {p});
        case _ =>
      }
    }
  }

  /** Every token minted along the run is new to the table at that moment. */
  ghost predicate FreshRun(m: Table, ops: seq<Op>)
    decreases |ops|
  {
    ops == [] || (FreshFor(m, ops[0]) && FreshRun(LazyStep(m, ops[0]).0, ops[1..]))
  }

  /** From the empty table, every reachable table is bounded and holds no two overlapping locks. */
  lemma {:induction false} RunKeepsOk(m: Table, ops: seq<Op>)
    requires TableOk(m) && FreshRun(m, ops)
    ensures TableOk(LazyRun(m, ops).0)
    decreases |ops|
  {
    if ops != [] {
      LazyStepKeepsOk(m, ops[0]);
      RunKeepsOk(LazyStep(m, ops[0]).0, ops[1..]);
    }
  }

  /** Two locks of one table never cover the same path, so asking about one lock is enough. */
  lemma AtMostOneCovers(m: Table, a: Path, b: Path, p: Path)
    requires Disjoint(m) && a in m && b in m
    requires Covers(a, m[a].depth, p) && Covers(b, m[b].depth, p)
    ensures a == b
  {
    if a != b {
      assert !Overlap(a, m[a].depth, b, m[b].depth);
      if |a| <= |b| {
        PrefixesNest(a, b, p);
      } else {
        PrefixesNest(b, a, p);
      }
    }
  }

  lemma ConfirmByOneLock(m: Table, at: Path, p: Path, tokens: seq<string>)
    requires Disjoint(m) && at in m && Covers(at, m[at].depth, p)
    ensures ConfirmedBy(m, p, tokens) <==> m[at].token in tokens
  {
    forall q | q in m && Covers(q, m[q].depth, p)
      ensures q == at
    {
      AtMostOneCovers(m, q, at, p);
    }
  }

  // -------------------------------------------------------------------------
  // Exclusivity over whole runs
  // -------------------------------------------------------------------------

  /** The lock on `p` is gone once the clock passes the expiry it last had. */
  function Age(lock: Lock, now: int): Option<Lock> {
    if now <= lock.expiry then Some(lock) else None
  }

  function Touch(p: Path, lock: Lock, op: Op): Option<Lock> {
    match op
    case Refresh(q, tokens, timeout, _, granted) =>
      if q == p && lock.token in tokens
      then Some(lock.(expiry := granted + timeout, timeout := timeout)) else Some(lock)
    case Unlock(q, token, _) => if q == p && token == lock.token then None else Some(lock)
    case ReleaseTree(root) => if root <= p then None else Some(lock)
    case _ => Some(lock)
  }

  function FateOfOne(p: Path, lock: Lock, clock: int, op: Op): Option<Lock> {
    if Age(lock, Begins(clock, op)).None? then None
    else
      var touched := Touch(p, lock, op);
      if touched.None? then None else Age(touched.value, Ends(clock, op))
  }

  /**
   What becomes of one lock, told from the operations alone: it ends when it is unlocked with
   its own path and token, released with a tree, or older than its last expiry; only a refresh
   with its own path and token changes it, and then only its times.
   */
  function Fate(p: Path, lock: Lock, clock: int, ops: seq<Op>): Option<Lock>
    decreases |ops|
  {
    if ops == [] then Some(lock)
    else
      var next := FateOfOne(p, lock, clock, ops[0]);
      if next.None? then None else Fate(p, next.value, Ends(clock, ops[0]), ops[1..])
  }

  /** What a held lock refuses: an overlapping lock, and a write it covers that lacks its token. */
  predicate Excluded(p: Path, lock: Lock, op: Op) {
    || (op.Create? && Overlap(p, lock.depth, op.path, op.depth))
    || (op.Confirm? && Covers(p, lock.depth, op.path) && lock.token !in op.tokens)
  }

  lemma HeldStep(e: Eager, op: Op, p: Path)
    requires p in e.locks && Age(e.locks[p], Begins(e.clock, op)).Some?
    ensures var (next, outcome) := EagerStep(e, op);
            var one := FateOfOne(p, e.locks[p], e.clock, op);
            && (one.Some? ==> p in next.locks && next.locks[p] == one.value)
            && (Excluded(p, e.locks[p], op) ==> outcome == Locked)
  {
    var live := Sweep(e.locks, Begins(e.clock, op));
    assert p in live && live[p] == e.locks[p];
    if op.Create? {
      assert op.path == p ==> Overlap(p, live[p].depth, op.path, op.depth);
      hide Overlap;
      assert Overlap(p, live[p].depth, op.path, op.depth) ==> Blocked(live, op.path, op.depth);
    }
  }

  /**
   From the grant of a lock until its fate ends it, it stays in the table with the same path,
   depth and token, and everything it excludes is refused.
   */
  lemma {:induction false} Exclusivity(e: Eager, ops: seq<Op>, p: Path)
    requires Disjoint(e.locks) && p in e.locks
    requires Fate(p, e.locks[p], e.clock, ops).Some?
    ensures var (last, outcomes) := EagerRun(e, ops);
            && p in last.locks
            && Some(last.locks[p]) == Fate(p, e.locks[p], e.clock, ops)
            && last.locks[p].token == e.locks[p].token
            && last.locks[p].depth == e.locks[p].depth
            && |outcomes| == |ops|
            && forall i | 0 <= i < |ops| && Excluded(p, e.locks[p], ops[i]) :: outcomes[i] == Locked
    decreases |ops|
  {
    if ops != [] {
      HeldStep(e, ops[0], p);
      var next := EagerStep(e, ops[0]).0;
      EagerStepKeepsDisjoint(e, ops[0]);
      Exclusivity(next, ops[1..], p);
      var outcomes, rest := EagerRun(e, ops).1, EagerRun(next, ops[1..]).1;
      assert outcomes == [EagerStep(e, ops[0]).1] + rest;
      forall i | 0 <= i < |ops| && Excluded(p, e.locks[p], ops[i])
        ensures outcomes[i] == Locked
      {
        if i > 0 {
          assert ops[i] == ops[1..][i - 1] && outcomes[i] == rest[i - 1];
        }
      }
    }
  }

  lemma EagerStepKeepsDisjoint(e: Eager, op: Op)
    requires Disjoint(e.locks)
    ensures Disjoint(EagerStep(e, op).0.locks)
  {
    var live := Sweep(e.locks, Begins(e.clock, op));
    var acted := Act(live, op).0;
    assert Disjoint(acted) by {
      if op.Create? && acted != live {
        AddedKeepsDisjoint(live, op.path, acted[op.path]);
      }
    }
  }

  lemma AddedKeepsDisjoint(live: Table, p: Path, lock: Lock)
    requires Disjoint(live) && !Blocked(live, p, lock.depth)
    ensures Disjoint(live[p := lock])
  {
    forall q | q in live
      ensures !Overlap(q, live[q].depth, p, lock.depth) && !Overlap(p, lock.depth, q, live[q].depth)
    {
    }
  }

  /** The operations never mint this token. */
  predicate NeverMinted(token: string, ops: seq<Op>) {
    forall i | 0 <= i < |ops| && ops[i].Create? :: ops[i].minted != Some(token)
  }

  lemma GoneStep(e: Eager, op: Op, token: string)
    requires token !in Tokens(e.locks)
    requires op.Create? ==> op.minted != Some(token)
    ensures token !in Tokens(EagerStep(e, op).0.locks)
  {
    var live := Sweep(e.locks, Begins(e.clock, op));
    var next := EagerStep(e, op).0.locks;
    forall q | q in next
      ensures next[q].token != token
    {
      if q in live {
        assert e.locks[q].token in Tokens(e.locks);
      }
    }
  }

  lemma {:induction false} GoneForGood(e: Eager, ops: seq<Op>, token: string)
    requires token !in Tokens(e.locks) && NeverMinted(token, ops)
    ensures token !in Tokens(EagerRun(e, ops).0.locks)
    decreases |ops|
  {
    if ops != [] {
      GoneStep(e, ops[0], token);
      NeverMintedTail(token, ops);
      GoneForGood(EagerStep(e, ops[0]).0, ops[1..], token);
    }
  }

  lemma NeverMintedTail(token: string, ops: seq<Op>)
    requires ops != [] && NeverMinted(token, ops)
    ensures NeverMinted(token, ops[1..])
  {
    forall i | 0 <= i < |ops[1..]| && ops[1..][i].Create?
      ensures ops[1..][i].minted != Some(token)
    {
      assert ops[1..][i] == ops[i + 1];
    }
  }

  /** The token of the lock on `p` names no other lock. */
  ghost predicate TokenOnlyAt(m: Table, p: Path)
    requires p in m
  {
    forall q | q in m && m[q].token == m[p].token :: q == p
  }

  lemma TokenStaysPut(e: Eager, op: Op, p: Path)
    requires Disjoint(e.locks) && p in e.locks && TokenOnlyAt(e.locks, p)
    requires op.Create? ==> op.minted != Some(e.locks[p].token)
    ensures forall q | q in EagerStep(e, op).0.locks && q != p ::
              EagerStep(e, op).0.locks[q].token != e.locks[p].token
  {
  }

  lemma EndedStep(e: Eager, op: Op, p: Path)
    requires Disjoint(e.locks) && p in e.locks && TokenOnlyAt(e.locks, p)
    requires op.Create? ==> op.minted != Some(e.locks[p].token)
    requires FateOfOne(p, e.locks[p], e.clock, op).None?
    ensures e.locks[p].token !in Tokens(EagerStep(e, op).0.locks)
  {
    TokenStaysPut(e, op, p);
    var live := Sweep(e.locks, Begins(e.clock, op));
    var next := EagerStep(e, op).0.locks;
    if p in live {
      if op.Create? {
        assert Overlap(p, live[p].depth, p, op.depth);
      }
      assert p !in next;
    } else {
      assert p in next ==> op.Create? && next[p].token != e.locks[p].token;
    }
  }

  /** Once its fate has ended a lock, its token names nothing again. */
  lemma {:induction false} Released(e: Eager, ops: seq<Op>, p: Path)
    requires Disjoint(e.locks) && p in e.locks && TokenOnlyAt(e.locks, p)
    requires NeverMinted(e.locks[p].token, ops)
    requires Fate(p, e.locks[p], e.clock, ops).None?
    ensures e.locks[p].token !in Tokens(EagerRun(e, ops).0.locks)
    decreases |ops|
  {
    var op, next := ops[0], EagerStep(e, ops[0]).0;
    NeverMintedTail(e.locks[p].token, ops);
    TokenStaysPut(e, op, p);
    if FateOfOne(p, e.locks[p], e.clock, op).None? {
      EndedStep(e, op, p);
      GoneForGood(next, ops[1..], e.locks[p].token);
    } else {
      HeldStep(e, op, p);
      EagerStepKeepsDisjoint(e, op);
      Released(next, ops[1..], p);
    }
  }

  function EndClock(clock: int, ops: seq<Op>): int
    decreases |ops|
  {
    if ops == [] then clock else EndClock(Ends(clock, ops[0]), ops[1..])
  }

  lemma {:induction false} EagerRunClock(e: Eager, ops: seq<Op>)
    ensures EagerRun(e, ops).0.clock == EndClock(e.clock, ops)
    decreases |ops|
  {
    if ops != [] {
      EagerRunClock(EagerStep(e, ops[0]).0, ops[1..]);
    }
  }

  /**
   The promise of an exclusive lock, for the server's own lazy table: whatever runs after the
   grant, the lock is exactly what its fate says (already ended, when the time granted is one
   that has passed), nothing overlapping is granted and nothing it
   covers is confirmed without its token while it lasts, and when it has ended no live lock
   carries its token.
   */
  lemma GrantIsExclusive(m: Table, clock: int, create: Op, ops: seq<Op>)
    requires TableOk(m) && create.Create? && FreshFor(m, create)
    requires InOrder(clock, [create] + ops)
    requires LazyStep(m, create).1.Granted?
    requires NeverMinted(create.minted.value, ops)
    ensures
      var p, after := create.path, LazyStep(m, create).0;
      var lock := LazyStep(m, create).1.lock;
      var (last, outcomes) := LazyRun(after, ops);
      var fate := if Age(lock, create.granted).None? then None else Fate(p, lock, create.granted, ops);
      && (fate.Some? ==>
            && p in last && last[p] == fate.value
            && last[p].token == lock.token && last[p].depth == create.depth
            && |outcomes| == |ops|
            && forall i | 0 <= i < |ops| && Excluded(p, lock, ops[i]) :: outcomes[i] == Locked)
      && (fate.None? ==> lock.token !in Tokens(Sweep(last, EndClock(create.granted, ops))))
  {
    var p, after := create.path, LazyStep(m, create).0;
    var e := Eager(Sweep(after, create.granted), create.granted);
    LazyStepKeepsOk(m, create);
    SubsetOk(after, e.locks);
    assert ([create] + ops)[1..] == ops;
    LazyRefinesEager(after, create.granted, ops);
    EagerRunClock(e, ops);
    var lock := LazyStep(m, create).1.lock;
    assert p in after && after[p] == lock;
    if Age(lock, create.granted).None? {
      forall q | q in e.locks
        ensures e.locks[q].token != lock.token
      {
        assert q in after && after[q].token == after[p].token ==> q == p;
      }
      GoneForGood(e, ops, lock.token);
    } else if Fate(p, e.locks[p], e.clock, ops).Some? {
      Exclusivity(e, ops, p);
    } else {
      Released(e, ops, p);
    }
  }

  /** `find` tells exactly of the live lock on the very path. */
  lemma FindIsExact(m: Table, p: Path, now: int, lock: Lock)
    ensures LazyStep(m, Find(p, now)).1 == Found(Some(lock)) <==> p in m && m[p] == lock && now <= lock.expiry
    ensures LazyStep(m, Find(p, now)).1 == Found(None) <==> p !in m || m[p].expiry < now
  {
  }

  /**
   `create` grants exactly when no live lock covers the path or is covered by the new one, there
   are fewer than 65536 live locks, and the random source works.
   */
  lemma CreateIsExact(m: Table, op: Op)
    requires op.Create?
    ensures LazyStep(m, op).1.Granted? <==>
            && (forall q | q in m && op.swept <= m[q].expiry ::
                  q != op.path && !(m[q].depth.Infinity? && q <= op.path) && !(op.depth.Infinity? && op.path <= q))
            && |Sweep(m, op.swept)| < 65536 && op.minted.Some?
    ensures LazyStep(m, op).1.Granted? ==>
            && LazyStep(m, op).1.lock == Lock(op.minted.value, op.depth, op.owner, op.granted + op.timeout, op.timeout)
            && LazyStep(m, op).0 == Sweep(m, op.swept)[op.path := LazyStep(m, op).1.lock]
  {
    var live := Sweep(m, op.swept);
    forall q | q in live
      ensures Overlap(q, live[q].depth, op.path, op.depth) <==>
              q == op.path || (m[q].depth.Infinity? && q <= op.path) || (op.depth.Infinity? && op.path <= q)
    {
    }
    if Blocked(live, op.path, op.depth) {
      var q :| q in live && Overlap(q, live[q].depth, op.path, op.depth);
      assert q in m && op.swept <= m[q].expiry;
    }
  }
}
