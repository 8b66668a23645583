/**
 The lock table of `lock.go` as the server keeps it: two maps over shared, mutable lock
 records, keyed by token and by path string, with expired records swept only when an
 operation looks.  Every method is proved against `LockSpec.LazyStep`.
 */
module LockSystem {
  import opened Wrappers
  import opened Headers
  import opened Paths
  import opened LockSpec

  class LockInfo {
    const token: string
    const path: string
    const depth: Depth
    const owner: Owner
    var expiry: int
    var timeout: int

    constructor (token: string, path: string, depth: Depth, owner: Owner, timeout: int, expiry: int)
      ensures this.token == token && this.path == path && this.depth == depth && this.owner == owner
      ensures this.timeout == timeout && this.expiry == expiry
    {
      this.token, this.path, this.depth, this.owner := token, path, depth, owner;
      this.timeout, this.expiry := timeout, expiry;
    }

    function Value(): Lock
      reads this
    {
      Lock(token, depth, owner, expiry, timeout)
    }
  }

  datatype LockError = ErrLocked | ErrNoSuchLock | ErrLockTableFull | ErrNoEntropy

  /** The outcome an error stands for. */
  function Refusal(err: LockError): Outcome {
    match err
    case ErrLocked => Outcome.Locked
    case ErrNoSuchLock => NoSuchLock
    case ErrLockTableFull => TableFull
    case ErrNoEntropy => MintFailed
  }

  function Verdict(err: Option<LockError>): Outcome {
    if err.None? then Done else Refusal(err.value)
  }

  class LockTable {
    var byToken: map<string, LockInfo>
    var byPath: map<string, LockInfo>
    /** The table on values: the one both maps stand for. */
    ghost var locks: Table
    /** Every record the maps may hold. */
    ghost var records: set<LockInfo>

    /** The two maps index one set of records, by token and by canonical path. */
    ghost predicate Indexed()
      reads this`byToken, this`byPath
    {
      && (forall t | t in byToken ::
            byToken[t].token == t && byToken[t].path in byPath && byPath[byToken[t].path] == byToken[t])
      && (forall p | p in byPath ::
            byPath[p].path == p && byPath[p].token in byToken && byToken[byPath[p].token] == byPath[p])
    }

    /** `locks` holds the value of every record under the names its canonical path spells. */
    ghost predicate Mirrored()
      reads this, records
    {
      && (forall p {:trigger p in byPath} | p in byPath ::
            && Canonical(p) && Render(Comps(p)) == p && byPath[p] in records
            && Comps(p) in locks && locks[Comps(p)] == byPath[p].Value())
      && (forall q {:trigger q in locks} | q in locks :: Comps(Render(q)) == q && Render(q) in byPath)
    }

    /** The invariant: inverse indexes of one bounded set of locks, no two overlapping. */
    ghost predicate Valid()
      reads this, records
    {
      Indexed() && Mirrored() && TableOk(locks)
    }

    lemma LockAt(p: string)
      requires Indexed() && Mirrored() && Canonical(p)
      ensures p in byPath <==> Comps(p) in locks
      ensures p in byPath ==> byPath[p] in records && byPath[p].path == p && locks[Comps(p)] == byPath[p].Value()
      ensures p in byPath ==> byPath[p].token in byToken && byToken[byPath[p].token] == byPath[p]
      ensures forall t | t in byToken && byToken[t].path == p :: p in byPath && byPath[p].token == t
    {
    }

    /** Every record has a token and a path of its own. */
    lemma SameIndexSize()
      requires Indexed()
      ensures |byToken| == |byPath|
    {
      InjectionSize(byPath.Keys, byToken.Keys, map p | p in byPath :: byPath[p].token);
      InjectionSize(byToken.Keys, byPath.Keys, map t | t in byToken :: byToken[t].path);
    }

    /** The token index, the path index and the table they stand for count the same locks. */
    lemma SameSize()
      requires Indexed() && Mirrored()
      ensures |byToken| == |byPath| == |locks|
    {
      SameIndexSize();
      hide Canonical, Comps, Render, Indexed, LockInfo.Value;
      InjectionSize(byPath.Keys, locks.Keys, map p | p in byPath :: Comps(p));
      InjectionSize(locks.Keys, byPath.Keys, map q | q in locks :: Render(q));
    }

    lemma TokensListed()
      requires Indexed() && Mirrored()
      ensures Tokens(locks) == byToken.Keys
    {
      forall t | t in byToken
        ensures t in Tokens(locks)
      {
        assert locks[Comps(byToken[t].path)].token == t;
      }
    }

    constructor ()
      ensures Valid() && locks == map[] && records == {}
    {
      byToken, byPath, locks, records := map[], map[], map[], {};
    }

    /** `sweep`, on the maps and on the table they stand for. */
    method SweepExpired(now: int)
      requires Valid()
      modifies this
      ensures Valid()
      ensures locks == Sweep(old(locks), now)
      ensures records == old(records)
    {
      hide Canonical, Comps, Render, Indexed, TableOk;
      SubsetOk(locks, Sweep(locks, now));
      DropExpired(now);
      locks := Sweep(locks, now);
      forall q | q in locks
        ensures Comps(Render(q)) == q && Render(q) in byPath
      {
        assert q in old(locks) && Render(q) in old(byPath);
      }
    }

    /** The sweep loop on the two maps, in whatever order the tokens come. */
    method DropExpired(now: int)
      requires Indexed()
      modifies this`byToken, this`byPath
      ensures Indexed()
      ensures forall p | p in byPath :: p in old(byPath) && byPath[p] == old(byPath[p])
      ensures forall p | p in old(byPath) :: p in byPath <==> now <= old(byPath[p].expiry)
    {
      var todo := byToken.Keys;
      while todo != {}
        invariant Indexed()
        invariant todo <= old(byToken.Keys)
        invariant forall t | t in byToken :: t in old(byToken) && byToken[t] == old(byToken[t])
        invariant forall t | t in old(byToken) :: t in byToken <==> t in todo || now <= old(byToken[t].expiry)
        invariant forall p | p in byPath :: p in old(byPath) && byPath[p] == old(byPath[p])
        decreases todo
      {
        var token :| token in todo;
        todo := todo - {token};
        var l := byToken[token];
        if now > l.expiry {
          byToken := byToken - {token};
          byPath := byPath - {l.path};
        }
      }
    }

    /** The upward walk: a depth-infinity lock on a proper ancestor. */
    method LockAbove(path: string) returns (l: LockInfo?)
      requires Indexed() && Mirrored() && Canonical(path) && path !in byPath
      ensures l == null ==> forall k | k in byPath && StrictlyUnder(k, path) :: !byPath[k].depth.Infinity?
      ensures l != null ==> l.path in byPath && byPath[l.path] == l
      ensures l != null ==> l.depth.Infinity? && StrictlyUnder(l.path, path)
    {
      hide Canonical, Comps, Render, ParentOf, StrictlyUnder;
      ghost var target := Comps(path);
      var p := ParentOf(path);
      StringsAreComponents(path, path, "n");
      CanonicalSpelling(path);
      while true
        invariant Canonical(p) && Comps(p) <= target
        invariant p == path ==> target == []
        invariant forall k | k in byPath && Comps(k) < target && |Comps(k)| > |Comps(p)| :: !byPath[k].depth.Infinity?
        decreases |p|
      {
        CanonicalSpelling(p);
        if p in byPath && byPath[p].depth.Infinity? {
          StringsAreComponents(p, path, "n");
          return byPath[p];
        }
        forall k | k in byPath && Comps(k) < target && |Comps(k)| == |Comps(p)|
          ensures k == p
        {
          PrefixesNest(Comps(k), Comps(p), target);
          assert Comps(k) == Comps(p) && Render(Comps(k)) == k;
        }
        if p == "/" {
          break;
        }
        StringsAreComponents(p, p, "n");
        ParentShorter(p);
        p := ParentOf(p);
      }
      RootIsEmpty();
      l := null;
      forall k | k in byPath && StrictlyUnder(k, path)
        ensures !byPath[k].depth.Infinity?
      {
        StringsAreComponents(k, path, "n");
      }
    }

    /** The downward scan, in whatever order the path map is ranged over. */
    method LockBelow(path: string) returns (l: LockInfo?)
      requires Indexed()
      ensures l == null ==> forall k | k in byPath :: !StrictlyUnder(path, k)
      ensures l != null ==> l.path in byPath && byPath[l.path] == l && StrictlyUnder(path, l.path)
    {
      var todo := byPath.Keys;
      while todo != {}
        invariant todo <= byPath.Keys
        invariant forall k | k in byPath && k !in todo :: !StrictlyUnder(path, k)
        decreases todo
      {
        var k :| k in todo;
        todo := todo - {k};
        if StrictlyUnder(path, k) {
          return byPath[k];
        }
      }
      l := null;
    }

    /**
     `conflict`: a record whose lock overlaps the one asked for, looked for at the path, then up
     to the root, then, for a depth-infinity request, through all the rest.
     */
    method Conflict(path: string, depth: Depth) returns (l: LockInfo?)
      requires Indexed() && Mirrored() && Canonical(path)
      ensures l == null <==> !Blocked(locks, Comps(path), depth)
      ensures l != null ==> Comps(l.path) in locks && locks[Comps(l.path)] == l.Value()
      ensures l != null ==> Overlap(Comps(l.path), l.depth, Comps(path), depth)
    {
      hide Canonical, Comps, Render, Under, StrictlyUnder;
      if path in byPath {
        assert Overlap(Comps(path), locks[Comps(path)].depth, Comps(path), depth);
        return byPath[path];
      }
      l := LockAbove(path);
      if l != null {
        StringsAreComponents(l.path, path, "n");
        assert Overlap(Comps(l.path), locks[Comps(l.path)].depth, Comps(path), depth);
        return;
      }
      if depth.Infinity? {
        l := LockBelow(path);
        if l != null {
          StringsAreComponents(path, l.path, "n");
          assert Overlap(Comps(l.path), locks[Comps(l.path)].depth, Comps(path), depth);
          return;
        }
      }
      NothingBlocks(path, depth);
    }

    lemma NothingBlocks(path: string, depth: Depth)
      requires Indexed() && Mirrored() && Canonical(path) && path !in byPath
      requires forall k | k in byPath && StrictlyUnder(k, path) :: !byPath[k].depth.Infinity?
      requires depth.Infinity? ==> forall k | k in byPath :: !StrictlyUnder(path, k)
      ensures !Blocked(locks, Comps(path), depth)
    {
      hide Canonical, Comps, Render, Under, StrictlyUnder;
      CanonicalSpelling(path);
      forall q | q in locks
        ensures !Overlap(q, locks[q].depth, Comps(path), depth)
      {
        var k := Render(q);
        StringsAreComponents(path, k, "n");
        StringsAreComponents(k, path, "n");
      }
    }

    /** `create`: a new record in both maps, or the reason there is none. */
    method CreateLock(path: string, depth: Depth, owner: Owner, timeout: int,
                      minted: Option<string>, swept: int, granted: int)
      returns (r: Result<LockInfo, LockError>)
      requires Valid() && Canonical(path)
      requires FreshFor(locks, Create(Comps(path), depth, owner, timeout, minted, swept, granted))
      modifies this
      ensures Valid()
      ensures (locks, if r.Ok? then Granted(r.value.Value()) else Refusal(r.error)) ==
              LazyStep(old(locks), Create(Comps(path), depth, owner, timeout, minted, swept, granted))
      ensures r.Ok? ==> fresh(r.value) && path in byPath && byPath[path] == r.value
      ensures fresh(records - old(records))
    {
      hide Indexed, Mirrored, Canonical, Comps, Render, TableOk, Sweep;
      LazyStepKeepsOk(locks, Create(Comps(path), depth, owner, timeout, minted, swept, granted));
      SweepExpired(swept);
      var l := Conflict(path, depth);
      if l != null {
        return Err(ErrLocked);
      }
      SameSize();
      if |byToken| >= MAX_LOCKS {
        return Err(ErrLockTableFull);
      }
      if minted.None? {
        return Err(ErrNoEntropy);
      }
      TokensListed();
      NotHeld(path, depth);
      var lock := new LockInfo(minted.value, path, depth, owner, timeout, granted + timeout);
      Insert(lock);
      r := Ok(lock);
    }

    lemma NotHeld(path: string, depth: Depth)
      requires Indexed() && Mirrored() && Canonical(path) && !Blocked(locks, Comps(path), depth)
      ensures path !in byPath
    {
      if path in byPath {
        assert Overlap(Comps(path), locks[Comps(path)].depth, Comps(path), depth);
      }
    }

    /** Enters a record in both maps. */
    method Enter(lock: LockInfo)
      requires Indexed() && lock.path !in byPath && lock.token !in byToken
      modifies this`byToken, this`byPath
      ensures Indexed() && byPath == old(byPath)[lock.path := lock]
    {
      byToken := byToken[lock.token := lock];
      byPath := byPath[lock.path := lock];
    }

    method Insert(lock: LockInfo)
      requires Indexed() && Mirrored() && Canonical(lock.path)
      requires lock.path !in byPath && lock.token !in byToken
      modifies this
      ensures Indexed() && Mirrored()
      ensures byPath == old(byPath)[lock.path := lock] && records == old(records) + {lock}
      ensures locks == old(locks)[Comps(lock.path) := lock.Value()]
    {
      hide Indexed, Canonical, Comps, Render, LockInfo.Value;
      assert Render(Comps(lock.path)) == lock.path by {
        CanonicalSpelling(lock.path);
      }
      ghost var at, value := Comps(lock.path), lock.Value();
      Enter(lock);
      records := records + {lock};
      locks := locks[at := value];
      forall p | p in byPath
        ensures Canonical(p) && Render(Comps(p)) == p && byPath[p] in records
        ensures Comps(p) in locks && locks[Comps(p)] == byPath[p].Value()
      {
        if p != lock.path {
          assert p in old(byPath);
        }
      }
      forall q | q in locks
        ensures Comps(Render(q)) == q && Render(q) in byPath
      {
        assert q != at ==> q in old(locks);
      }
    }

    /** Updates a record in place; both maps see it. */
    method Restamp(l: LockInfo, timeout: int, expiry: int)
      requires Indexed() && Mirrored() && l.path in byPath && byPath[l.path] == l
      modifies l, this`locks
      ensures Indexed() && Mirrored()
      ensures l.Value() == old(l.Value()).(timeout := timeout, expiry := expiry)
      ensures locks == old(locks)[Comps(l.path) := l.Value()]
    {
      hide Canonical, Comps, Render;
      l.timeout := timeout;
      l.expiry := expiry;
      assert forall p | p in byPath && p != l.path :: byPath[p] != l && Comps(p) != Comps(l.path);
      locks := locks[Comps(l.path) := l.Value()];
    }

    /** Takes a record out of both maps. */
    method Leave(lock: LockInfo)
      requires Indexed() && lock.path in byPath && byPath[lock.path] == lock
      modifies this`byToken, this`byPath
      ensures Indexed() && byPath == old(byPath) - {lock.path}
    {
      byToken := byToken - {lock.token};
      byPath := byPath - {lock.path};
    }

    method Delete(lock: LockInfo)
      requires Indexed() && Mirrored() && lock.path in byPath && byPath[lock.path] == lock
      modifies this
      ensures Indexed() && Mirrored()
      ensures byPath == old(byPath) - {lock.path} && records == old(records)
      ensures locks == old(locks) - {Comps(lock.path)}
    {
      hide Indexed, Canonical, Comps, Render;
      Leave(lock);
      locks := locks - {Comps(lock.path)};
    }

    /** `refresh`: new times for this path's lock, if any of the tokens is its own. */
    method RefreshLock(path: string, tokens: seq<string>, timeout: int, swept: int, granted: int)
      returns (r: Result<LockInfo, LockError>)
      requires Valid() && Canonical(path)
      modifies this, records
      ensures Valid()
      ensures (locks, if r.Ok? then Granted(r.value.Value()) else Refusal(r.error)) ==
              LazyStep(old(locks), Refresh(Comps(path), tokens, timeout, swept, granted))
      ensures records == old(records)
      ensures r.Ok? ==> path in byPath && byPath[path] == r.value
    {
      hide Indexed, Mirrored, Canonical, Comps, Render, TableOk, Sweep;
      LazyStepKeepsOk(locks, Refresh(Comps(path), tokens, timeout, swept, granted));
      SweepExpired(swept);
      LockAt(path);
      for i := 0 to |tokens|
        invariant path in byPath ==> byPath[path].token !in tokens[..i]
      {
        var t := tokens[i];
        if t in byToken && byToken[t].path == path {
          var l := byToken[t];
          Restamp(l, timeout, granted + timeout);
          return Ok(l);
        }
        assert tokens[..i + 1] == tokens[..i] + [t];
      }
      assert tokens[..|tokens|] == tokens;
      r := Err(ErrNoSuchLock);
    }

    /** `unlock`: both the path and the token have to be the record's own. */
    method UnlockPath(path: string, token: string, swept: int) returns (err: Option<LockError>)
      requires Valid() && Canonical(path)
      modifies this
      ensures Valid()
      ensures (locks, Verdict(err)) == LazyStep(old(locks), Unlock(Comps(path), token, swept))
      ensures records == old(records)
    {
      hide Indexed, Mirrored, Canonical, Comps, Render, TableOk, Sweep;
      LazyStepKeepsOk(locks, Unlock(Comps(path), token, swept));
      SweepExpired(swept);
      LockAt(path);
      if token !in byToken || byToken[token].path != path {
        return Some(ErrNoSuchLock);
      }
      Delete(byToken[token]);
      err := None;
    }

    /** `releaseTree`: no record is left at the path or below; expired ones elsewhere stay. */
    method ReleaseLocksUnder(path: string)
      requires Valid() && Canonical(path)
      modifies this
      ensures Valid()
      ensures (locks, Done) == LazyStep(old(locks), ReleaseTree(Comps(path)))
      ensures records == old(records)
    {
      hide Indexed, Mirrored, Canonical, Comps, Render, TableOk;
      LazyStepKeepsOk(locks, ReleaseTree(Comps(path)));
      DropTree(path);
    }

    method DropTree(path: string)
      requires Indexed() && Mirrored() && Canonical(path)
      modifies this
      ensures Indexed() && Mirrored() && records == old(records)
      ensures locks == WithoutTree(old(locks), Comps(path))
    {
      hide Indexed, Canonical, Comps, Render, Under, LockInfo.Value;
      UnderAgrees(path);
      DropUnder(path);
      locks := WithoutTree(locks, Comps(path));
    }

    lemma UnderAgrees(path: string)
      requires Mirrored() && Canonical(path)
      ensures forall q | q in locks :: Under(path, Render(q)) <==> Comps(path) <= q
    {
      hide Canonical, Comps, Render, Under;
      forall q | q in locks
        ensures Under(path, Render(q)) <==> Comps(path) <= q
      {
        StringsAreComponents(path, Render(q), "n");
      }
    }

    /** The release loop, on the two maps. */
    method DropUnder(path: string)
      requires Indexed()
      modifies this`byToken, this`byPath
      ensures Indexed()
      ensures forall p | p in byPath :: p in old(byPath) && byPath[p] == old(byPath[p])
      ensures forall p | p in old(byPath) :: p in byPath <==> !Under(path, p)
    {
      var todo := byPath.Keys;
      while todo != {}
        invariant Indexed()
        invariant todo <= old(byPath.Keys)
        invariant forall p | p in byPath :: p in old(byPath) && byPath[p] == old(byPath[p])
        invariant forall p | p in old(byPath) :: p in byPath <==> p in todo || !Under(path, p)
        decreases todo
      {
        var p :| p in todo;
        todo := todo - {p};
        var l := byPath[p];
        if Under(path, p) {
          byPath := byPath - {p};
          byToken := byToken - {l.token};
        }
      }
    }

    /** `confirm`: one lock is looked at, and stands for all that cover the path. */
    method ConfirmTokens(path: string, tokens: seq<string>, swept: int) returns (err: Option<LockError>)
      requires Valid() && Canonical(path)
      modifies this
      ensures Valid()
      ensures (locks, Verdict(err)) == LazyStep(old(locks), Confirm(Comps(path), tokens, swept))
      ensures records == old(records)
    {
      hide Indexed, Mirrored, Canonical, Comps, Render, Sweep;
      SweepExpired(swept);
      var l := Conflict(path, Depth.Zero);
      if l == null {
        NothingToConfirm(path, tokens);
        return None;
      }
      assert Covers(Comps(l.path), l.depth, Comps(path));
      ConfirmByOneLock(locks, Comps(l.path), Comps(path), tokens);
      for i := 0 to |tokens|
        invariant l.token !in tokens[..i]
      {
        if tokens[i] == l.token {
          return None;
        }
        assert tokens[..i + 1] == tokens[..i] + [tokens[i]];
      }
      assert tokens[..|tokens|] == tokens;
      err := Some(ErrLocked);
    }

    lemma NothingToConfirm(path: string, tokens: seq<string>)
      requires !Blocked(locks, Comps(path), Depth.Zero)
      ensures ConfirmedBy(locks, Comps(path), tokens)
    {
      forall q | q in locks
        ensures !Covers(q, locks[q].depth, Comps(path))
      {
        assert !Overlap(q, locks[q].depth, Comps(path), Depth.Zero);
      }
    }

    /** `find`: not the locks above it, only the path's own. */
    method FindLock(path: string, swept: int) returns (l: LockInfo?)
      requires Valid() && Canonical(path)
      modifies this
      ensures Valid()
      ensures (locks, Found(if l == null then Option.None else Some(l.Value()))) ==
              LazyStep(old(locks), Find(Comps(path), swept))
      ensures records == old(records)
    {
      hide Indexed, Mirrored, Canonical, Comps, Render, TableOk, Sweep;
      SweepExpired(swept);
      LockAt(path);
      l := if path in byPath then byPath[path] else null;
    }
  }

  /** A table is made only once the random source has been seen to work; `probe` says whether it does. */
  method NewLockTable(probe: bool) returns (r: Result<LockTable, LockError>)
    ensures r == Err(ErrNoEntropy) <==> !probe
    ensures r.Ok? <==> probe
    ensures r.Ok? ==> fresh(r.value) && r.value.Valid() && r.value.locks == map[] && r.value.records == {}
  {
    if !probe {
      return Err(ErrNoEntropy);
    }
    var table := new LockTable();
    r := Ok(table);
  }

  lemma {:induction false} InjectionSize<A, B>(from: set<A>, to: set<B>, f: map<A, B>)
    requires f.Keys == from
    requires forall a | a in from :: f[a] in to
    requires forall a, b | a in from && b in from && f[a] == f[b] :: a == b
    ensures |from| <= |to|
  {
    if from != {} {
      var a :| a in from;
      InjectionSize(from - {a}, to - {f[a]}, f - {a});
    }
  }
}
