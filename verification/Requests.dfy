/**
 Requests as the dispatcher sees them, and what a held lock is worth against them: which
 requests may end it, and what every other request has to leave alone.
 */
module Requests {
  import opened Wrappers
  import opened Paths
  import opened Headers
  import opened Driver
  import opened TreeOps
  import opened LockSpec
  import opened RangePut
  import opened Handler
  import IfHeader
  import Reference
  import XmlTokens

  /** A request that may change the export, after net/http and net/url. */
  datatype Call =
    | Put(ifHeader: string, contentRange: string, body: Body)
    | Mkcol(ifHeader: string, hasBody: bool)
    | Delete(ifHeader: string)
    | Move(destination: Reference.DestinationHeader, overwrite: string, ifHeader: string)
    | Copy(destination: Reference.DestinationHeader, depth: string, overwrite: string, ifHeader: string)
    | Lock(depth: string, timeout: string, ifHeader: string, input: XmlTokens.Input, minted: Option<string>)
    | Unlock(lockToken: string)

  /** `now` and `later` are the readings of the clock the request makes. */
  datatype Request = Request(path: string, call: Call, now: int, later: int)

  function Mints(r: Request): set<string> {
    if r.call.Lock? && r.call.minted.Some? then {r.call.minted.value} else {}
  }

  /** Every minted token is new: to the table and to the requests before it. */
  predicate FreshTokens(used: set<string>, requests: seq<Request>)
    decreases |requests|
  {
    requests == [] ||
    (Mints(requests[0]) !! used && FreshTokens(used + Mints(requests[0]), requests[1..]))
  }

  // -------------------------------------------------------------------------
  // What a request aims at
  // -------------------------------------------------------------------------

  function Named(prefix: string, r: Request): Option<Path> {
    var name := Resource(prefix, r.path);
    if name.None? then None else Some(Comps(name.value))
  }

  function DestinationOf(prefix: string, call: Call): Option<Path> {
    if !call.Move? && !call.Copy? then None
    else
      var target := Destination(prefix, call.destination);
      if target.Err? then None else Some(Comps(target.value))
  }

  /** The paths a request writes, or clears with everything under them. */
  function Targets(prefix: string, r: Request): set<Path> {
    var name, dst := Named(prefix, r), DestinationOf(prefix, r.call);
    if name.None? || r.call.Unlock? then {}
    else if r.call.Move? then (if dst.None? then {} else {name.value, dst.value})
    else if r.call.Copy? then (if dst.None? then {} else {dst.value})
    else {name.value}
  }

  /** The path whose tree a request clears. */
  function ClearedPath(prefix: string, r: Request): Option<Path> {
    if r.call.Delete? then Named(prefix, r) else DestinationOf(prefix, r.call)
  }

  predicate Clears(call: Call) {
    call.Delete? || call.Move? || call.Copy?
  }

  predicate Writes(call: Call) {
    Clears(call) || call.Put? || call.Mkcol?
  }

  predicate Reaches(prefix: string, r: Request, x: Path) {
    exists d | d in Targets(prefix, r) :: if Clears(r.call) then d <= x else d == x
  }

  /** A write the server gets as far as checking against the locks. */
  predicate WellFormed(prefix: string, r: Request) {
    var name := Named(prefix, r);
    && name.Some?
    && match r.call
       case Put(_, _, _) => name.value != []
       case Mkcol(_, _) => true
       case Delete(_) => name.value != []
       case Move(_, _, _) => name.value != [] && DestinationOf(prefix, r.call).Some?
       case Copy(_, depth, _, _) =>
         DestinationOf(prefix, r.call).Some? && (ParseDepth(depth) == Some(Zero) || ParseDepth(depth) == Some(Infinity))
       case _ => false
  }

  function IfHeaderOf(call: Call): string {
    if call.Unlock? then "" else call.ifHeader
  }

  /** The request shows the token. */
  predicate Bears(call: Call, token: string) {
    token in IfHeader.Scan(IfHeaderOf(call), false)
    || (call.Unlock? && Server.LockToken(call.lockToken) == Some(token))
  }

  // -------------------------------------------------------------------------
  // What a request comes to
  // -------------------------------------------------------------------------

  /** The tree, the table and the answer a request comes to when nothing fails but refused deletes. */
  function Expected(prefix: string, s: Reference.Setting, r: Request, t: Tree, m: Table): Reference.Expected {
    var name := Named(prefix, r);
    if name.None? then Reference.Expected(t, m, Exactly(400))
    else
      var p, tokens := name.value, IfHeader.Scan(IfHeaderOf(r.call), false);
      match r.call
      case Put(_, contentRange, body) => Reference.Put(s, t, m, p, contentRange, body, tokens, r.now)
      case Mkcol(_, hasBody) => Reference.Mkcol(t, m, p, hasBody, tokens, r.now)
      case Delete(_) => Reference.Delete(s, t, m, p, tokens, r.now)
      case Move(destination, overwrite, _) =>
        Reference.Move(s, t, m, p, Reference.Whereto(prefix, destination), ParseOverwrite(overwrite), tokens,
                       r.now, r.later)
      case Copy(destination, depth, overwrite, _) =>
        Reference.Copy(s, t, m, p, Reference.Whereto(prefix, destination), ParseDepth(depth),
                       ParseOverwrite(overwrite), tokens, r.now)
      case Lock(depth, timeout, _, input, minted) =>
        Reference.Lock(t, m, p, ParseDepth(depth), Server.Asked(input), FirstTimeout(Split(timeout, ',')), tokens,
                       minted, r.now, r.later)
      case Unlock(lockToken) => Reference.Unlock(t, m, p, Server.LockToken(lockToken), r.now)
  }

  /** The request was carried out. */
  predicate Accepted(reply: Reply) {
    reply == Status(200) || reply == Status(201) || reply == Status(204)
  }

  /**
   A request that was carried out did all that is expected of it, and was answered so, except that
   a plain PUT may take a file that is there for a new one.
   */
  predicate CarriedOut(e: Reference.Expected, call: Call, after: Tree, left: Table, reply: Reply) {
    && after == e.nodes && left == e.locks
    && (Gives(reply, e.answer)
        || (call.Put? && call.contentRange == "" && reply == Status(201) && e.answer == Exactly(204)))
  }

  /**
   The request did what it should: on a steady driver exactly what is expected; on any driver, if
   it was carried out, what is expected of one that refuses nothing, a range PUT provided the size
   of its file was reported truly.
   */
  ghost predicate Served(prefix: string, s: Reference.Setting, steady: bool, exact: bool, r: Request,
                         t: Tree, m: Table, after: Tree, left: Table, reply: Reply) {
    && (steady ==>
          var e := Expected(prefix, s, r, t, m);
          after == e.nodes && left == e.locks && Gives(reply, e.answer))
    && (Accepted(reply) && (r.call.Put? && r.call.contentRange != "" ==> exact) ==>
          CarriedOut(Expected(prefix, s.(refused := {}), r, t, m), r.call, after, left, reply))
  }

  /** Only clearing a path that stops short above a lock leaves one without its resource. */
  ghost predicate KeepsNames(prefix: string, r: Request, t: Tree, m: Table, after: Tree, left: Table, reply: Reply) {
    NamesResources(m, t)
    && (reply.Multistatus? ==>
          var cleared := ClearedPath(prefix, r);
          && cleared.Some?
          && (Removed(t, after, cleared.value, reply.rows) ==> NoneBelow(Sweep(m, r.now), cleared.value))) ==>
      NamesResources(left, after)
  }

  // -------------------------------------------------------------------------
  // What a held lock is worth
  // -------------------------------------------------------------------------

  /** A LOCK with no body, for the lock on `p`. */
  predicate Restamps(prefix: string, r: Request, p: Path) {
    && r.call.Lock? && Named(prefix, r) == Some(p)
    && (ParseDepth(r.call.depth) == Some(Zero) || ParseDepth(r.call.depth) == Some(Infinity))
    && Server.Asked(r.call.input).Ok? && Server.Asked(r.call.input).value.refresh
  }

  /** A LOCK that asks for a new lock where the one on `p` forbids it. */
  predicate Rivals(prefix: string, r: Request, p: Path, depth: Depth) {
    && r.call.Lock? && Named(prefix, r).Some?
    && (ParseDepth(r.call.depth) == Some(Zero) || ParseDepth(r.call.depth) == Some(Infinity))
    && Server.Asked(r.call.input).Ok? && !Server.Asked(r.call.input).value.refresh
    && Overlap(p, depth, Named(prefix, r).value, ParseDepth(r.call.depth).value)
  }

  /** The request aims to clear something strictly above `p`. */
  predicate FromAbove(prefix: string, r: Request, p: Path) {
    Clears(r.call) && exists d | d in Targets(prefix, r) :: d < p
  }

  /**
   The request cleared something, or may have: it succeeded, it changed the tree, or it is a COPY
   that stopped.  A request that is refused, or fails before it comes to that, has not.
   */
  predicate Cleared(call: Call, reply: Reply, t: Tree, after: Tree) {
    Clears(call) && (Succeeded(reply) || after != t || (call.Copy? && reply.Multistatus?))
  }

  /**
   What becomes of the lock on `p`, told from the request and whether it cleared anything: it may
   end with a tree cleared above it, or, by a request that bears its token, with its own path or
   its own unlocking; a refresh that bears its token changes its times.
   */
  function Kept(prefix: string, r: Request, p: Path, lock: LockSpec.Lock, cleared: bool): Option<LockSpec.Lock> {
    if cleared && FromAbove(prefix, r, p) then None
    else if !Bears(r.call, lock.token) then Some(lock)
    else if cleared && p in Targets(prefix, r) then None
    else if r.call.Unlock? && Named(prefix, r) == Some(p) then None
    else if Restamps(prefix, r, p) then
      var timeout := FirstTimeout(Split(r.call.timeout, ','));
      Some(lock.(timeout := timeout, expiry := r.later + timeout))
    else Some(lock)
  }

  /** Unchanged, unless a LOCK put an empty file where there was nothing. */
  predicate Untouched(t: Tree, after: Tree, call: Call, x: Path) {
    SameAt(t, after, x) || (call.Lock? && x !in t && x in after && after[x] == File([]))
  }

  /**
   A request that does not bear the token leaves everything the lock covers alone, and when it
   aims at any of it, it changes nothing at all and is answered 423.
   */
  ghost predicate Sheltered(prefix: string, r: Request, p: Path, depth: Depth, t: Tree, after: Tree, reply: Reply) {
    && (forall x | Covers(p, depth, x) :: Untouched(t, after, r.call, x))
    && (Writes(r.call) && (exists d | d in Targets(prefix, r) :: Covers(p, depth, d)) ==>
          after == t && (WellFormed(prefix, r) ==> reply == Status(423)))
  }

  /** What the server owes a live lock in one request. */
  ghost predicate Honoured(prefix: string, r: Request, p: Path, lock: LockSpec.Lock, t: Tree, after: Tree,
                           left: Table, reply: Reply) {
    var kept := Kept(prefix, r, p, lock, Cleared(r.call, reply, t, after));
    && (kept.Some? ==> p in left && left[p] == kept.value)
    && (kept.Some? && !Bears(r.call, lock.token) ==> Sheltered(prefix, r, p, lock.depth, t, after, reply))
    && (Rivals(prefix, r, p, lock.depth) ==> reply == Status(423) || reply.Failed?)
  }

  // -------------------------------------------------------------------------
  // Writes
  // -------------------------------------------------------------------------

  predicate AllPermitted(prefix: string, r: Request, m: Table) {
    forall d | d in Targets(prefix, r) :: Permitted(Sweep(m, r.later), d, IfHeaderOf(r.call))
  }

  predicate LockStays(m: Table, left: Table, p: Path) {
    p in m && p in left && left[p] == m[p]
  }

  /** Nothing but sweeping, or changes confined to permitted targets. */
  ghost predicate Confined(prefix: string, r: Request, m: Table, t: Tree, after: Tree, left: Table, reply: Reply) {
    && (WellFormed(prefix, r) && !AllPermitted(prefix, r, m) ==> reply == Status(423))
    && (!AllPermitted(prefix, r, m) ==> after == t && forall p | p in Sweep(m, r.later) :: LockStays(m, left, p))
    && (!Cleared(r.call, reply, t, after) ==> forall p | p in Sweep(m, r.later) :: LockStays(m, left, p))
    && (forall x | !Reaches(prefix, r, x) :: SameAt(t, after, x))
    && (forall p | p in Sweep(m, r.later) && !(Clears(r.call) && Reaches(prefix, r, p)) :: LockStays(m, left, p))
  }

  /** With every target permitted, a request without the token reaches nothing the lock covers. */
  lemma NotReached(prefix: string, r: Request, m: Table, p: Path, x: Path)
    requires AllPermitted(prefix, r, m) && p in Sweep(m, r.later) && Covers(p, m[p].depth, x)
    requires !FromAbove(prefix, r, p) && !Bears(r.call, m[p].token)
    ensures !Reaches(prefix, r, x)
  {
    if d :| d in Targets(prefix, r) && if Clears(r.call) then d <= x else d == x {
      assert Permitted(Sweep(m, r.later), d, IfHeaderOf(r.call));
      assert !Covers(p, m[p].depth, d);
      if |d| <= |p| {
        PrefixesNest(d, p, x);
      } else {
        PrefixesNest(p, d, x);
      }
    }
  }

  /** A permitted clearing of the lock's own path bears its token, and so ends it. */
  lemma KeptNotReached(prefix: string, r: Request, m: Table, p: Path)
    requires AllPermitted(prefix, r, m) && p in Sweep(m, r.later) && Clears(r.call)
    requires Kept(prefix, r, p, m[p], true).Some?
    ensures !Reaches(prefix, r, p)
  {
    hide Bears, Targets, Permitted;
    if !Bears(r.call, m[p].token) {
      NotReached(prefix, r, m, p, p);
    } else {
      forall d | d in Targets(prefix, r)
        ensures !(d <= p)
      {
        assert d <= p ==> d == p || d < p;
      }
    }
  }

  lemma ConfinedHonours(prefix: string, r: Request, m: Table, t: Tree, after: Tree, left: Table, reply: Reply, p: Path)
    requires Writes(r.call) && Confined(prefix, r, m, t, after, left, reply) && p in Sweep(m, r.later)
    ensures Honoured(prefix, r, p, m[p], t, after, left, reply)
  {
    hide Bears, Targets, AllPermitted, Reaches, Sheltered, WellFormed, Cleared, FromAbove;
    var cleared := Cleared(r.call, reply, t, after);
    var kept := Kept(prefix, r, p, m[p], cleared);
    if kept.Some? {
      assert kept == Some(m[p]);
      if cleared && AllPermitted(prefix, r, m) && Clears(r.call) {
        KeptNotReached(prefix, r, m, p);
      }
      assert LockStays(m, left, p);
      if !Bears(r.call, m[p].token) {
        WriteShelters(prefix, r, m, t, after, left, reply, p);
      }
    }
  }

  lemma WriteShelters(prefix: string, r: Request, m: Table, t: Tree, after: Tree, left: Table, reply: Reply, p: Path)
    requires Writes(r.call) && Confined(prefix, r, m, t, after, left, reply) && p in Sweep(m, r.later)
    requires Cleared(r.call, reply, t, after) ==> !FromAbove(prefix, r, p)
    requires !Bears(r.call, m[p].token)
    ensures Sheltered(prefix, r, p, m[p].depth, t, after, reply)
  {
    forall x | Covers(p, m[p].depth, x)
      ensures Untouched(t, after, r.call, x)
    {
      if AllPermitted(prefix, r, m) && after != t {
        NotReached(prefix, r, m, p, x);
      }
    }
    if d :| d in Targets(prefix, r) && Covers(p, m[p].depth, d) {
      assert !Permitted(Sweep(m, r.later), d, IfHeaderOf(r.call));
    }
  }

  /** Fewer locks forbid less. */
  lemma PermittedLater(m: Table, now: int, later: int, d: Path, header: string)
    requires now <= later
    ensures Permitted(Sweep(m, now), d, header) ==> Permitted(Sweep(m, later), d, header)
  {
    if Permitted(Sweep(m, now), d, header) {
      forall q | q in Sweep(m, later) && Covers(q, m[q].depth, d)
        ensures m[q].token in IfHeader.Scan(header, false)
      {
        assert q in Sweep(m, now) && Sweep(m, now)[q] == m[q];
      }
    }
  }

  predicate OnlySwept(m: Table, left: Table, r: Request) {
    left == m || left == Sweep(m, r.now) || left == Sweep(m, r.later)
  }

  lemma ConfinedByCases(prefix: string, r: Request, m: Table, t: Tree, after: Tree, left: Table, reply: Reply)
    requires r.now <= r.later
    requires WellFormed(prefix, r) && !AllPermitted(prefix, r, m) ==> reply == Status(423)
    requires reply == Status(423) || !WellFormed(prefix, r) ==> after == t && OnlySwept(m, left, r)
    requires forall x | !Reaches(prefix, r, x) :: SameAt(t, after, x)
    requires !Cleared(r.call, reply, t, after) ==> OnlySwept(m, left, r)
    requires OnlySwept(m, left, r) ||
             (Clears(r.call) && forall p | p in Sweep(m, r.later) && !Reaches(prefix, r, p) :: LockStays(m, left, p))
    ensures Confined(prefix, r, m, t, after, left, reply)
  {
    hide Reaches, WellFormed, AllPermitted, Cleared;
    if OnlySwept(m, left, r) {
      assert forall p | p in Sweep(m, r.later) :: LockStays(m, left, p);
    }
  }

  lemma PutConfined(prefix: string, r: Request, m: Table, t: Tree, after: Tree, left: Table, reply: Reply)
    requires (r.call.Put? || r.call.Mkcol?) && r.now <= r.later && Named(prefix, r).Some?
    requires var n := Named(prefix, r).value;
             && (reply == Status(423) <==>
                   WellFormed(prefix, r) && !Permitted(Sweep(m, r.now), n, r.call.ifHeader))
             && OnlyAt(t, after, n) && OnlySwept(m, left, r)
             && (reply == Status(423) || !WellFormed(prefix, r) ==> after == t)
    ensures Confined(prefix, r, m, t, after, left, reply)
  {
    var n := Named(prefix, r).value;
    hide OnlySwept, Permitted, WellFormed, Named, Sweep;
    PermittedLater(m, r.now, r.later, n, r.call.ifHeader);
    assert n in Targets(prefix, r);
    forall x | !Reaches(prefix, r, x)
      ensures SameAt(t, after, x)
    {
    }
    ConfinedByCases(prefix, r, m, t, after, left, reply);
  }

  lemma ClearingConfined(prefix: string, r: Request, m: Table, t: Tree, after: Tree, left: Table, reply: Reply)
    requires Clears(r.call) && r.now <= r.later && Named(prefix, r).Some?
    requires WellFormed(prefix, r) && !AllPermitted(prefix, r, m) ==> reply == Status(423)
    requires reply == Status(423) || !WellFormed(prefix, r) ==> after == t && OnlySwept(m, left, r)
    requires forall x | (forall d | d in Targets(prefix, r) :: !(d <= x)) :: SameAt(t, after, x)
    requires !Cleared(r.call, reply, t, after) ==> OnlySwept(m, left, r)
    requires OnlySwept(m, left, r) ||
             forall p | p in Sweep(m, r.later) && (forall d | d in Targets(prefix, r) :: !(d <= p)) ::
               LockStays(m, left, p)
    ensures Confined(prefix, r, m, t, after, left, reply)
  {
    hide OnlySwept, WellFormed, AllPermitted, Targets, Cleared;
    ConfinedByCases(prefix, r, m, t, after, left, reply);
  }

  lemma DeleteConfined(prefix: string, r: Request, m: Table, t: Tree, after: Tree, left: Table, reply: Reply)
    requires r.call.Delete? && r.now <= r.later && Named(prefix, r).Some?
    requires var n := Named(prefix, r).value;
             && (reply == Status(423) <==> n != [] && !Permitted(Sweep(m, r.now), n, r.call.ifHeader))
             && (n == [] ==> reply == Status(403))
             && SameOutside(t, after, n)
             && (reply != Status(204) && !reply.Multistatus? ==> after == t)
             && (OnlySwept(m, left, r) || (reply == Status(204) && left == WithoutTree(Sweep(m, r.now), n)))
    ensures Confined(prefix, r, m, t, after, left, reply)
  {
    var n := Named(prefix, r).value;
    PermittedLater(m, r.now, r.later, n, r.call.ifHeader);
    assert Targets(prefix, r) == {n};
    hide Permitted, Named, Targets;
    ClearingConfined(prefix, r, m, t, after, left, reply);
  }

  lemma MovedFrame(t: Tree, n: Path, d: Path, x: Path)
    requires !(n <= x) && !(d <= x)
    ensures SameAt(t, Renamed(Without(t, d), n, d), x) && SameAt(t, Without(t, d), x)
  {
    RenamedAt(Without(t, d), n, d, x);
  }

  lemma MoveConfined(prefix: string, r: Request, m: Table, t: Tree, after: Tree, left: Table, reply: Reply)
    requires r.call.Move? && r.now <= r.later && Named(prefix, r).Some?
    requires DestinationOf(prefix, r.call).None? ==> after == t && OnlySwept(m, left, r) && reply != Status(423)
    requires DestinationOf(prefix, r.call).Some? ==>
               var n, d := Named(prefix, r).value, DestinationOf(prefix, r.call).value;
               && (reply == Status(423) <==>
                     n != [] && !(Permitted(Sweep(m, r.now), n, r.call.ifHeader)
                                  && Permitted(Sweep(m, r.later), d, r.call.ifHeader)))
               && (reply.Status? && !Succeeded(reply) ==> after == t && OnlySwept(m, left, r))
               && (n == [] ==> reply.Status? && !Succeeded(reply))
               && (after == t || SameOutside(t, after, d) || after == Renamed(Without(t, d), n, d))
               && (Succeeded(reply) || after != t || OnlySwept(m, left, r))
               && (|| OnlySwept(m, left, r) || left == WithoutTree(Sweep(m, r.later), d)
                   || left == WithoutTree(ClearedTable(Sweep(m, r.later), t, d), n))
    ensures Confined(prefix, r, m, t, after, left, reply)
  {
    hide Permitted, Named, DestinationOf, Renamed, Without;
    if DestinationOf(prefix, r.call).None? {
      assert Targets(prefix, r) == {};
    } else {
      var n, d := Named(prefix, r).value, DestinationOf(prefix, r.call).value;
      assert Targets(prefix, r) == {n, d};
      PermittedLater(m, r.now, r.later, n, r.call.ifHeader);
      forall x | !(n <= x) && !(d <= x)
        ensures SameAt(t, after, x)
      {
        MovedFrame(t, n, d, x);
      }
    }
    hide Targets;
    ClearingConfined(prefix, r, m, t, after, left, reply);
  }

  lemma CopyConfined(prefix: string, r: Request, m: Table, t: Tree, after: Tree, left: Table, reply: Reply)
    requires r.call.Copy? && r.now <= r.later && Named(prefix, r).Some?
    requires DestinationOf(prefix, r.call).None? ==> after == t && OnlySwept(m, left, r) && reply != Status(423)
    requires DestinationOf(prefix, r.call).Some? ==>
               var d := DestinationOf(prefix, r.call).value;
               && (reply == Status(423) <==>
                     WellFormed(prefix, r) && !Permitted(Sweep(m, r.now), d, r.call.ifHeader))
               && (reply.Status? && !Succeeded(reply) ==> after == t && OnlySwept(m, left, r))
               && (!WellFormed(prefix, r) ==> reply.Status? && !Succeeded(reply))
               && SameOutside(t, after, d)
               && (OnlySwept(m, left, r)
                   || ((Succeeded(reply) || reply.Multistatus?) && left == ClearedTable(Sweep(m, r.now), t, d)))
    ensures Confined(prefix, r, m, t, after, left, reply)
  {
    hide Permitted, Named, DestinationOf;
    if DestinationOf(prefix, r.call).None? {
      assert Targets(prefix, r) == {};
      assert !WellFormed(prefix, r);
    } else {
      var d := DestinationOf(prefix, r.call).value;
      assert Targets(prefix, r) == {d};
      PermittedLater(m, r.now, r.later, d, r.call.ifHeader);
    }
    hide Targets, WellFormed;
    ClearingConfined(prefix, r, m, t, after, left, reply);
  }

  // -------------------------------------------------------------------------
  // LOCK and UNLOCK
  // -------------------------------------------------------------------------

  lemma LockHonours(prefix: string, r: Request, m: Table, t: Tree, after: Tree, left: Table, reply: Reply, p: Path)
    requires r.call.Lock? && r.now <= r.later && Named(prefix, r).Some? && p in Sweep(m, r.later)
    requires var n := Named(prefix, r).value;
             && (after == t || after == Reference.WithResource(t, n))
             && (Restamps(prefix, r, n) ==>
                   Server.Refreshed(Sweep(m, r.now), left, n, IfHeader.Scan(r.call.ifHeader, false),
                                    FirstTimeout(Split(r.call.timeout, ',')), r.later))
             && (!Restamps(prefix, r, n) ==>
                   || left == m || left == Sweep(m, r.now)
                   || (n !in Sweep(m, r.now) && n in left && left == Sweep(m, r.now)[n := left[n]]))
             && (forall q | q in Sweep(m, r.now) && Rivals(prefix, r, q, m[q].depth) ::
                   reply == Status(423) || reply.Failed?)
    ensures Honoured(prefix, r, p, m[p], t, after, left, reply)
  {
    var n := Named(prefix, r).value;
    assert p in Sweep(m, r.now) && Sweep(m, r.now)[p] == m[p];
    assert !Clears(r.call) && !Writes(r.call);
    forall x
      ensures Untouched(t, after, r.call, x)
    {
    }
  }

  lemma UnlockHonours(prefix: string, r: Request, m: Table, t: Tree, left: Table, reply: Reply, p: Path)
    requires r.call.Unlock? && r.now <= r.later && Named(prefix, r).Some? && p in Sweep(m, r.later)
    requires var n, token := Named(prefix, r).value, Server.LockToken(r.call.lockToken);
             || left == m || left == Sweep(m, r.now)
             || (n in Sweep(m, r.now) && token == Some(m[n].token) && left == Sweep(m, r.now) - {n})
    ensures Honoured(prefix, r, p, m[p], t, t, left, reply)
  {
    assert p in Sweep(m, r.now) && Sweep(m, r.now)[p] == m[p];
    forall x
      ensures Untouched(t, t, r.call, x)
    {
    }
  }

  /** A request to a path the server refuses changes nothing. */
  lemma RefusalHonours(prefix: string, r: Request, m: Table, t: Tree, p: Path)
    requires Named(prefix, r).None? && p in Sweep(m, r.later)
    ensures Honoured(prefix, r, p, m[p], t, t, m, Status(400))
  {
    assert Targets(prefix, r) == {};
    forall x
      ensures Untouched(t, t, r.call, x)
    {
    }
  }

  // -------------------------------------------------------------------------
  // Runs
  // -------------------------------------------------------------------------

  /** A request answered: the tree before it, the tree after it, and the answer. */
  datatype Exchange = Exchange(request: Request, before: Tree, after: Tree, reply: Reply)

  function KeptBy(prefix: string, p: Path, lock: LockSpec.Lock, e: Exchange): Option<LockSpec.Lock> {
    if lock.expiry < e.request.later then None
    else Kept(prefix, e.request, p, lock, Cleared(e.request.call, e.reply, e.before, e.after))
  }

  /** What becomes of the lock over a run; None once it may have ended or expired. */
  function FateOver(prefix: string, p: Path, lock: LockSpec.Lock, run: seq<Exchange>): Option<LockSpec.Lock> {
    if run == [] then Some(lock)
    else
      var sofar := FateOver(prefix, p, lock, run[..|run| - 1]);
      if sofar.None? then None else KeptBy(prefix, p, sofar.value, run[|run| - 1])
  }

  lemma FateMore(prefix: string, p: Path, lock: LockSpec.Lock, run: seq<Exchange>, e: Exchange)
    ensures var sofar := FateOver(prefix, p, lock, run);
            FateOver(prefix, p, lock, run + [e]) ==
              if sofar.None? then None else KeptBy(prefix, p, sofar.value, e)
  {
    assert (run + [e])[..|run|] == run;
  }

  /** However long it lasts, a lock keeps its token, its depth and its owner. */
  lemma {:induction false} FateKeepsIdentity(prefix: string, p: Path, lock: LockSpec.Lock, run: seq<Exchange>)
    ensures var last := FateOver(prefix, p, lock, run);
            last.Some? ==>
              last.value.token == lock.token && last.value.depth == lock.depth && last.value.owner == lock.owner
  {
    if run != [] {
      FateKeepsIdentity(prefix, p, lock, run[..|run| - 1]);
    }
  }

  /** What a run of requests comes to: the tree, the table, and the answers in order. */
  function ExpectedRun(prefix: string, s: Reference.Setting, requests: seq<Request>, t: Tree, m: Table)
    : (Tree, Table, seq<Answer>)
  {
    if requests == [] then (t, m, [])
    else
      var (nodes, locks, answers) := ExpectedRun(prefix, s, requests[..|requests| - 1], t, m);
      var e := Expected(prefix, s, requests[|requests| - 1], nodes, locks);
      (e.nodes, e.locks, answers + [e.answer])
  }

  lemma ExpectedMore(prefix: string, s: Reference.Setting, requests: seq<Request>, r: Request, t: Tree, m: Table)
    ensures var (nodes, locks, answers) := ExpectedRun(prefix, s, requests, t, m);
            var e := Expected(prefix, s, r, nodes, locks);
            ExpectedRun(prefix, s, requests + [r], t, m) == (e.nodes, e.locks, answers + [e.answer])
  {
    hide Expected;
    assert (requests + [r])[..|requests|] == requests;
  }
}
