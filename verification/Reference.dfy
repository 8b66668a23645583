/**
 What every request comes to when nothing fails but the deletes a driver refuses: the tree and the
 lock table it leaves and its answer, as functions of the tree and the table it finds.  The
 handlers, which work step by step on a driver, are proved to do this and nothing else.
 */
module Reference {
  import opened Wrappers
  import opened Paths
  import opened Headers
  import opened Driver
  import opened TreeOps
  import opened LockSpec
  import opened RangePut
  import ContentRange
  import LockBody
  import PropBodies

  /** How the server and its driver are set up. */
  datatype Setting = Setting(opens: bool, writesInPlace: bool, refused: set<Path>, maxBody: nat)

  datatype Expected = Expected(nodes: Tree, locks: Table, answer: Answer)

  /** The Destination header once net/url has parsed it, or failed to. */
  datatype DestinationHeader = NoDestination | BadUrl | Url(otherHost: bool, path: string)

  /** Where a Destination header points inside the export; 400 without one, 502 beyond it. */
  function Whereto(prefix: string, header: DestinationHeader): Result<Path, int> {
    if !header.Url? then Err(400)
    else if header.otherHost || Resource(prefix, header.path).None? then Err(502)
    else Ok(Comps(Resource(prefix, header.path).value))
  }

  // -------------------------------------------------------------------------
  // DELETE, MOVE and COPY
  // -------------------------------------------------------------------------

  /** The tree once `p` is deleted as far as the driver lets it go. */
  function SparedTree(t: Tree, p: Path, refused: set<Path>): Tree {
    map q | q in t && (!(p <= q) || Pinned(t, q, refused)) :: t[q]
  }

  function Delete(s: Setting, t: Tree, m: Table, p: Path, tokens: seq<string>, now: int): Expected {
    var live := Sweep(m, now);
    if p == [] then Expected(t, m, Exactly(403))
    else if !ConfirmedBy(live, p, tokens) then Expected(t, live, Exactly(423))
    else if p !in t then Expected(t, live, Missing)
    else if Pinned(t, p, s.refused) then Expected(SparedTree(t, p, s.refused), live, Partly)
    else Expected(Without(t, p), WithoutTree(live, p), Exactly(204))
  }

  /** The way to a destination: refused, stopped short while clearing it, or clear with a status. */
  datatype Way = Refused(code: int) | Stopped(nodes: Tree) | Clear(nodes: Tree, locks: Table, code: int)

  function Clearing(s: Setting, t: Tree, m: Table, src: Path, dst: Path, overwrite: Option<bool>): Way {
    if src <= dst || dst == [] then Refused(403)
    else if overwrite.None? then Refused(400)
    else if !IsDirAt(t, Parent(dst)) then Refused(409)
    else if dst !in t then Clear(t, m, 201)
    else if !overwrite.value then Refused(412)
    else if Pinned(t, dst, s.refused) then Stopped(SparedTree(t, dst, s.refused))
    else Clear(Without(t, dst), WithoutTree(m, dst), 204)
  }

  function Move(s: Setting, t: Tree, m: Table, p: Path, whereto: Result<Path, int>, overwrite: Option<bool>,
                tokens: seq<string>, now: int, later: int): Expected {
    var live := Sweep(m, later);
    if whereto.Err? then Expected(t, m, Exactly(whereto.error))
    else if p == [] then Expected(t, m, Exactly(403))
    else if !ConfirmedBy(Sweep(m, now), p, tokens) then Expected(t, Sweep(m, now), Exactly(423))
    else if !ConfirmedBy(live, whereto.value, tokens) then Expected(t, live, Exactly(423))
    else if p !in t then Expected(t, live, Missing)
    else Moved(Clearing(s, t, live, p, whereto.value, overwrite), t, live, p, whereto.value)
  }

  function Moved(way: Way, t: Tree, live: Table, p: Path, dst: Path): Expected {
    match way
    case Refused(code) => Expected(t, live, Exactly(code))
    case Stopped(nodes) => Expected(nodes, live, Partly)
    case Clear(nodes, locks, code) =>
      if p in nodes then Expected(Renamed(nodes, p, dst), WithoutTree(locks, p), Exactly(code))
      else Expected(nodes, locks, Trouble)
  }

  function Copy(s: Setting, t: Tree, m: Table, p: Path, whereto: Result<Path, int>, depth: Option<Depth>,
                overwrite: Option<bool>, tokens: seq<string>, now: int): Expected {
    var live := Sweep(m, now);
    if whereto.Err? then Expected(t, m, Exactly(whereto.error))
    else if depth != Some(Zero) && depth != Some(Infinity) then Expected(t, m, Exactly(400))
    else if !ConfirmedBy(live, whereto.value, tokens) then Expected(t, live, Exactly(423))
    else if p !in t then Expected(t, live, Missing)
    else Copies(Clearing(s, t, live, p, whereto.value, overwrite), t, live, p, whereto.value, depth == Some(Infinity))
  }

  function Copies(way: Way, t: Tree, live: Table, p: Path, dst: Path, deep: bool): Expected
    requires p in t
  {
    match way
    case Refused(code) => Expected(t, live, Exactly(code))
    case Stopped(nodes) => Expected(nodes, live, Partly)
    case Clear(nodes, locks, code) =>
      if p in nodes then Expected(WithCopy(nodes, p, dst, deep), locks, Exactly(code))
      else if t[p].File? then Expected(nodes, locks, Partly)
      else Expected(nodes[dst := Dir], locks, if deep then Partly else Exactly(code))
  }

  /** The tree with a copy of `p` at a free name: all of it, or the one node. */
  function WithCopy(t: Tree, p: Path, dst: Path, deep: bool): Tree
    requires p in t
  {
    if deep then t + Taken(t, p, dst) else t[dst := t[p]]
  }

  // -------------------------------------------------------------------------
  // PUT and MKCOL
  // -------------------------------------------------------------------------

  function Put(s: Setting, t: Tree, m: Table, p: Path, contentRange: string, body: Body, tokens: seq<string>,
               now: int): Expected {
    var live := Sweep(m, now);
    if p == [] then Expected(t, m, Exactly(405))
    else if !ConfirmedBy(live, p, tokens) then Expected(t, live, Exactly(423))
    else if contentRange == "" then PutAll(s, t, live, p, body)
    else
      var cr := ContentRange.ParseContentRange(contentRange);
      if cr.None? then Expected(t, live, Exactly(400)) else PutPart(s, t, live, p, cr.value, body)
  }

  function PutAll(s: Setting, t: Tree, live: Table, p: Path, body: Body): Expected {
    if !IsDirAt(t, Parent(p)) then Expected(t, live, Exactly(409))
    else if |body.bytes| > s.maxBody then Expected(t, live, Exactly(413))
    else if body.broken then Expected(t, live, Exactly(400))
    else if IsDirAt(t, p) then Expected(t, live, Trouble)
    else Expected(t[p := File(body.bytes)], live, Exactly(if p in t then 204 else 201))
  }

  function PutPart(s: Setting, t: Tree, live: Table, p: Path, cr: ContentRange.ContentRange, body: Body): Expected
    requires 0 <= cr.start <= cr.end
  {
    var answer := RangeAnswer(t, p, cr, body, s.maxBody, s.opens, s.writesInPlace);
    if answer != Exactly(204) then Expected(t, live, answer)
    else Expected(t[p := File(InPlace(t[p].data, cr.start, body.bytes[..cr.end - cr.start + 1]))], live, answer)
  }

  function Mkcol(t: Tree, m: Table, p: Path, hasBody: bool, tokens: seq<string>, now: int): Expected {
    var live := Sweep(m, now);
    if !ConfirmedBy(live, p, tokens) then Expected(t, live, Exactly(423))
    else if hasBody then Expected(t, live, Exactly(415))
    else if p in t then Expected(t, live, Exactly(405))
    else if !IsDirAt(t, Parent(p)) then Expected(t, live, Exactly(409))
    else Expected(t[p := Dir], live, Exactly(201))
  }

  // -------------------------------------------------------------------------
  // LOCK and UNLOCK
  // -------------------------------------------------------------------------

  function Lock(t: Tree, m: Table, p: Path, depth: Option<Depth>,
                asked: Result<LockBody.LockRequest, PropBodies.BodyError>, timeout: int, tokens: seq<string>,
                minted: Option<string>, now: int, later: int): Expected {
    if depth != Some(Zero) && depth != Some(Infinity) then Expected(t, m, Exactly(400))
    else if asked.Err? then Expected(t, m, Exactly(422))
    else if asked.value.refresh then Relock(t, Sweep(m, now), p, timeout, tokens, later)
    else if p !in t && (p == [] || !IsDirAt(t, Parent(p))) then Expected(t, m, Trouble)
    else
      NewLock(WithResource(t, p), Sweep(m, now), p, depth.value, asked.value.owner, timeout, minted, later,
              if p in t then 200 else 201)
  }

  /** The tree with something to lock at `p`. */
  function WithResource(t: Tree, p: Path): Tree {
    if p in t then t else t[p := File([])]
  }

  function Relock(t: Tree, live: Table, p: Path, timeout: int, tokens: seq<string>, later: int): Expected {
    if p in live && live[p].token in tokens
    then Expected(t, live[p := live[p].(timeout := timeout, expiry := later + timeout)], Exactly(200))
    else Expected(t, live, Exactly(412))
  }

  function NewLock(t: Tree, live: Table, p: Path, depth: Depth, owner: Owner, timeout: int, minted: Option<string>,
                   later: int, code: int): Expected {
    if Blocked(live, p, depth) then Expected(t, live, Exactly(423))
    else if |live| >= 65536 || minted.None? then Expected(t, live, Exactly(500))
    else
      var lock := LockSpec.Lock(minted.value, depth, owner, later + timeout, timeout);
      Expected(t, live[p := lock], Exactly(code))
  }

  /** `token` is what stands between the brackets of the Lock-Token header, if anything does. */
  function Unlock(t: Tree, m: Table, p: Path, token: Option<string>, now: int): Expected {
    var live := Sweep(m, now);
    if token.None? then Expected(t, m, Exactly(400))
    else if p in live && live[p].token == token.value then Expected(t, live - {p}, Exactly(204))
    else Expected(t, live, Exactly(409))
  }

  // -------------------------------------------------------------------------
  // Trees told by predicates are these trees
  // -------------------------------------------------------------------------

  lemma SparedIsTree(before: Tree, after: Tree, p: Path, refused: set<Path>)
    requires Shrunk(before, after) && Spared(before, after, p, refused)
    ensures after == SparedTree(before, p, refused)
  {
  }

  lemma NothingSpared(t: Tree, p: Path, refused: set<Path>)
    requires !Pinned(t, p, refused)
    ensures SparedTree(t, p, refused) == Without(t, p)
  {
    assert forall q | p <= q :: Pinned(t, q, refused) ==> Pinned(t, p, refused);
  }

  /** A clean copy is determined: the tree before and the copy, node by node. */
  lemma CleanCopyIsTree(before: Tree, after: Tree, p: Path, dst: Path, deep: bool)
    requires Copied(before, after, p, dst, deep, []) && p in before && Free(before, dst)
    ensures after == WithCopy(before, p, dst, deep)
  {
    hide Copied, Taken;
    CleanCopyIsExact(before, after, p, dst, deep);
    CopiedOutside(before, after, p, dst, deep);
    var whole := WithCopy(before, p, dst, deep);
    forall q
      ensures q in after <==> q in whole
      ensures q in after ==> after[q] == whole[q]
    {
      TakenAt(before, p, dst, q);
      if dst <= q {
        var tail := q[|dst|..];
        assert q == dst + tail && Rebase(q, dst, p) == p + tail;
        assert tail == [] ==> q == dst && p + tail == p;
      }
    }
  }

  lemma CopiedOutside(before: Tree, after: Tree, p: Path, dst: Path, deep: bool)
    requires Copied(before, after, p, dst, deep, [])
    ensures SameOutside(before, after, dst)
  {
  }
}
