/**
 The filesystem driver behind the server: a finite tree of files and directories.

 Every call may fail whenever it likes and then leaves the tree as it was, except that a
 failed write at an offset may have stored some of its bytes.  A `steady` driver fails only
 when a precondition of the call is violated or it is asked to delete one of the resources it
 has `refused` to let go; a `reliable` one refuses none.  A "not found" from Stat is truthful.
 */
module Driver {
  import opened Wrappers
  import opened Paths

  type Byte = bv8

  datatype Node = File(data: seq<Byte>) | Dir

  type Tree = map<Path, Node>

  /** The statuses statusFor gives to driver errors other than "not found". */
  type ErrorCode = c: int | c in {400, 403, 405, 409, 500, 501, 507} witness 500

  datatype Error = NotFound | Other(code: ErrorCode)

  // -------------------------------------------------------------------------
  // Trees
  // -------------------------------------------------------------------------

  /** A root directory, legal names, and a directory above every other node. */
  ghost predicate TreeOk(t: Tree) {
    && [] in t && t[[]].Dir?
    && (forall q | q in t :: IsPath(q))
    && (forall q | q in t && q != [] :: Parent(q) in t && t[Parent(q)].Dir?)
  }

  predicate IsDirAt(t: Tree, p: Path) {
    p in t && t[p].Dir?
  }

  predicate IsFileAt(t: Tree, p: Path) {
    p in t && t[p].File?
  }

  /** The names directly under `p`. */
  function ChildNames(t: Tree, p: Path): set<string> {
    set q | q in t && |q| == |p| + 1 && p <= q :: q[|p|]
  }

  function Without(t: Tree, p: Path): Tree {
    map q | q in t && !(p <= q) :: t[q]
  }

  /** `q` moved from under `from` to under `to`. */
  function Rebase(q: Path, from: Path, to: Path): Path
    requires from <= q
  {
    to + q[|from|..]
  }

  lemma RebaseBack(q: Path, from: Path, to: Path)
    requires from <= q
    ensures to <= Rebase(q, from, to) && Rebase(Rebase(q, from, to), to, from) == q
  {
    assert Rebase(q, from, to)[|to|..] == q[|from|..];
    assert from + q[|from|..] == q;
  }

  lemma RebaseInjective(from: Path, to: Path)
    ensures forall j, k | from <= j && from <= k && Rebase(j, from, to) == Rebase(k, from, to) :: j == k
  {
    forall j, k | from <= j && from <= k && Rebase(j, from, to) == Rebase(k, from, to)
      ensures j == k
    {
      RebaseBack(j, from, to);
      RebaseBack(k, from, to);
    }
  }

  /** Everything under `from`, taken to `to`. */
  function Taken(t: Tree, from: Path, to: Path): Tree {
    RebaseInjective(from, to);
    map k | k in t && from <= k :: Rebase(k, from, to) := t[k]
  }

  lemma TakenAt(t: Tree, from: Path, to: Path, q: Path)
    ensures q in Taken(t, from, to) <==> to <= q && Rebase(q, to, from) in t
    ensures q in Taken(t, from, to) ==> Taken(t, from, to)[q] == t[Rebase(q, to, from)]
  {
    RebaseInjective(from, to);
    if q in Taken(t, from, to) {
      var k :| k in t && from <= k && q == Rebase(k, from, to);
      RebaseBack(k, from, to);
    }
    if to <= q {
      RebaseBack(q, to, from);
    }
  }

  function Renamed(t: Tree, from: Path, to: Path): Tree {
    Without(t, from) + Taken(t, from, to)
  }

  /** Everything above a node of a well-formed tree is a directory of it. */
  lemma {:induction false} AncestorsAreDirs(t: Tree, q: Path, p: Path)
    requires TreeOk(t) && q in t && p <= q && p != q
    ensures p in t && t[p].Dir?
    decreases |q|
  {
    var up := Parent(q);
    assert p == q[..|p|] && p <= up;
    if p != up {
      AncestorsAreDirs(t, up, p);
    }
  }

  lemma {:induction false} NothingUnderAbsent(t: Tree, p: Path)
    requires TreeOk(t) && p !in t
    ensures forall q | q in t :: !(p <= q)
  {
    forall q | q in t
      ensures !(p <= q)
    {
      if p <= q {
        AncestorsAreDirs(t, q, p);
      }
    }
  }

  function Resized(data: seq<Byte>, size: nat): seq<Byte> {
    if size <= |data| then data[..size] else data + seq(size - |data|, i => 0)
  }

  function Spliced(data: seq<Byte>, body: seq<Byte>, off: nat): seq<Byte>
    requires off + |body| <= |data|
  {
    data[..off] + body + data[off + |body|..]
  }

  /** Some of `body` stored at `off`, byte by byte, and nothing else touched. */
  predicate PartlySpliced(before: seq<Byte>, body: seq<Byte>, off: nat, after: seq<Byte>) {
    && |after| == |before|
    && forall i | 0 <= i < |before| ::
         after[i] == before[i] || (off <= i < off + |body| && after[i] == body[i - off])
  }

  datatype StatResult = Info(isDir: bool) | StatFailed(error: Error)

  datatype OpenResult = Opened(writable: bool, size: nat) | NilFile | OpenFailed(error: Error)

  class FileSystem {
    var nodes: Tree
    /** The files written in place since they were last synced. */
    var unsynced: set<Path>
    /** The calls of Stat that failed for a reason of the driver's own, in order. */
    var unread: seq<Path>
    /** The calls of Truncate that failed, and those of WriteAt, in order. */
    var uncut: seq<(Path, nat)>
    var unwritten: seq<(Path, nat)>
    /** Whether the driver opens files, and whether an opened file can be written in place. */
    const opens: bool
    const writesInPlace: bool
    /** Whether an opened file reports the size it has, rather than perhaps more. */
    const exactSizes: bool
    const steady: bool
    const refused: set<Path>
    const reliable: bool := steady && refused == {}

    constructor (nodes: Tree, opens: bool, writesInPlace: bool, exactSizes: bool, steady: bool, refused: set<Path>)
      ensures this.nodes == nodes && this.opens == opens && this.writesInPlace == writesInPlace
      ensures this.exactSizes == exactSizes && this.steady == steady && this.refused == refused
    {
      this.nodes, this.unsynced, this.opens, this.writesInPlace := nodes, {}, opens, writesInPlace;
      this.exactSizes, this.steady, this.refused := exactSizes, steady, refused;
      this.unread, this.uncut, this.unwritten := [], [], [];
    }

    /** Whether this call fails for a reason of the driver's own. */
    method Fails() returns (failed: bool, error: Error)
      ensures failed ==> !steady
    {
      var missing: bool := *;
      var code: ErrorCode :| true;
      error := if missing then NotFound else Other(code);
      failed := *;
      failed := failed && !steady;
    }

    method Stat(p: Path) returns (r: StatResult)
      modifies this`unread
      ensures r.Info? ==> p in nodes && r.isDir == nodes[p].Dir?
      ensures r == StatFailed(NotFound) ==> p !in nodes
      ensures unread == if r.Info? || r == StatFailed(NotFound) then old(unread) else old(unread) + [p]
      ensures steady ==> r == if p in nodes then Info(nodes[p].Dir?) else StatFailed(NotFound)
    {
      var failed, error := Fails();
      r := if p in nodes then Info(nodes[p].Dir?) else StatFailed(NotFound);
      if failed && (p in nodes || error != NotFound) {
        r := StatFailed(if error.NotFound? then Other(500) else error);
        unread := unread + [p];
      }
    }

    /** The names in a directory, each once and in any order, with "." and ".." here and there. */
    method ListDir(p: Path) returns (r: Result<seq<string>, Error>)
      requires TreeOk(nodes)
      ensures r.Ok? ==> IsDirAt(nodes, p)
      ensures r.Ok? ==> forall n | n != "." && n != ".." :: n in r.value <==> p + [n] in nodes
      ensures r.Ok? ==> forall i, j | 0 <= i < j < |r.value| && r.value[i] == r.value[j] ::
                          r.value[i] == "." || r.value[i] == ".."
      ensures steady && IsDirAt(nodes, p) ==> r.Ok?
    {
      var failed, error := Fails();
      if failed || !IsDirAt(nodes, p) {
        return Err(error);
      }
      ChildrenListed(p);
      var names := Enumerate(ChildNames(nodes, p));
      r := Ok(names);
    }

    method Enumerate(children: set<string>) returns (names: seq<string>)
      ensures forall n | n != "." && n != ".." :: n in names <==> n in children
      ensures forall i, j | 0 <= i < j < |names| && names[i] == names[j] :: names[i] == "." || names[i] == ".."
    {
      var todo := children;
      names := [];
      while todo != {}
        invariant todo <= children
        invariant forall n | n != "." && n != ".." :: n in names <==> n in children && n !in todo
        invariant forall i, j | 0 <= i < j < |names| && names[i] == names[j] :: names[i] == "." || names[i] == ".."
        decreases todo
      {
        var dots: bool := *;
        if dots {
          names := names + [".", ".."];
        }
        var n :| n in todo;
        todo := todo - {n};
        assert n !in names || n == "." || n == "..";
        names := names + [n];
      }
    }

    lemma ChildrenListed(p: Path)
      requires TreeOk(nodes)
      ensures forall n :: n in ChildNames(nodes, p) <==> p + [n] in nodes
      ensures "." !in ChildNames(nodes, p) && ".." !in ChildNames(nodes, p)
    {
      forall n
        ensures n in ChildNames(nodes, p) <==> p + [n] in nodes
        ensures n in ChildNames(nodes, p) ==> IsName(n)
      {
        if n in ChildNames(nodes, p) {
          var q :| q in nodes && |q| == |p| + 1 && p <= q && q[|p|] == n;
          assert q == p + [n];
          assert IsName(q[|p|]);
        }
        if p + [n] in nodes {
          assert (p + [n])[|p|] == n;
        }
      }
    }

    method ReadFile(p: Path) returns (r: Result<seq<Byte>, Error>)
      ensures r.Ok? ==> IsFileAt(nodes, p) && r.value == nodes[p].data
      ensures steady && IsFileAt(nodes, p) ==> r.Ok?
    {
      var failed, error := Fails();
      if failed || !IsFileAt(nodes, p) {
        return Err(error);
      }
      r := Ok(nodes[p].data);
    }

    predicate CanWrite(p: Path)
      reads this
    {
      p != [] && IsDirAt(nodes, Parent(p)) && (p !in nodes || nodes[p].File?)
    }

    /** Creates or replaces a whole file. */
    method WriteFile(p: Path, data: seq<Byte>) returns (err: Option<Error>)
      modifies this
      ensures err.None? ==> old(CanWrite(p)) && nodes == old(nodes)[p := File(data)]
      ensures err.Some? ==> nodes == old(nodes)
      ensures unread == old(unread)
      ensures steady && old(CanWrite(p)) ==> err.None?
    {
      var failed, error := Fails();
      if failed || !CanWrite(p) {
        return Some(error);
      }
      nodes := nodes[p := File(data)];
      err := None;
    }

    method MkDir(p: Path) returns (err: Option<Error>)
      modifies this
      ensures err.None? ==> p != [] && p !in old(nodes) && IsDirAt(old(nodes), Parent(p))
      ensures err.None? ==> nodes == old(nodes)[p := Dir]
      ensures err.Some? ==> nodes == old(nodes)
      ensures steady && p != [] && p !in old(nodes) && IsDirAt(old(nodes), Parent(p)) ==> err.None?
    {
      var failed, error := Fails();
      if failed || p == [] || p in nodes || !IsDirAt(nodes, Parent(p)) {
        return Some(error);
      }
      nodes := nodes[p := Dir];
      err := None;
    }

    method DeleteFile(p: Path) returns (err: Option<Error>)
      modifies this
      ensures err.None? ==> IsFileAt(old(nodes), p) && nodes == old(nodes) - {p}
      ensures err.Some? ==> nodes == old(nodes)
      ensures steady && p !in refused && IsFileAt(old(nodes), p) ==> err.None?
      ensures p in refused ==> err.Some?
    {
      var failed, error := Fails();
      if failed || p in refused || !IsFileAt(nodes, p) {
        return Some(error);
      }
      nodes := nodes - {p};
      err := None;
    }

    /** Removes a directory that is empty and not the root. */
    method DeleteDir(p: Path) returns (err: Option<Error>)
      modifies this
      ensures err.None? ==> IsDirAt(old(nodes), p) && p != [] && ChildNames(old(nodes), p) == {}
      ensures err.None? ==> nodes == old(nodes) - {p}
      ensures err.Some? ==> nodes == old(nodes)
      ensures steady && p !in refused && IsDirAt(old(nodes), p) && p != [] && ChildNames(old(nodes), p) == {} ==>
                err.None?
      ensures p in refused ==> err.Some?
    {
      var failed, error := Fails();
      if failed || p in refused || !IsDirAt(nodes, p) || p == [] || ChildNames(nodes, p) != {} {
        return Some(error);
      }
      nodes := nodes - {p};
      err := None;
    }

    predicate CanRename(from: Path, to: Path)
      reads this
    {
      from in nodes && from != [] && to !in nodes && to != [] && !(from <= to) && IsDirAt(nodes, Parent(to))
    }

    /** Moves a node and everything under it to a free name. */
    method Rename(from: Path, to: Path) returns (err: Option<Error>)
      modifies this
      ensures err.None? ==> old(CanRename(from, to)) && nodes == Renamed(old(nodes), from, to)
      ensures err.Some? ==> nodes == old(nodes)
      ensures steady && old(CanRename(from, to)) ==> err.None?
    {
      var failed, error := Fails();
      if failed || !CanRename(from, to) {
        return Some(error);
      }
      nodes := Renamed(nodes, from, to);
      err := None;
    }

    /** Opens a file; the size it reports may exceed what it holds, never the reverse. */
    method OpenFile(p: Path) returns (r: OpenResult)
      requires opens
      ensures r.Opened? ==> IsFileAt(nodes, p) && |nodes[p].data| <= r.size && r.writable == writesInPlace
      ensures r.Opened? && exactSizes ==> r.size == |nodes[p].data|
      ensures steady && IsFileAt(nodes, p) ==> r == Opened(writesInPlace, |nodes[p].data|)
    {
      var failed, error := Fails();
      var nilFile: bool := *;
      if (failed && !nilFile) || !IsFileAt(nodes, p) {
        return OpenFailed(error);
      }
      if failed {
        return NilFile;
      }
      var slack: nat :| true;
      r := Opened(writesInPlace, |nodes[p].data| + if steady || exactSizes then 0 else slack);
    }

    method Truncate(p: Path, size: nat) returns (err: Option<Error>)
      requires IsFileAt(nodes, p)
      modifies this
      ensures err.None? ==> nodes == old(nodes)[p := File(Resized(old(nodes)[p].data, size))]
      ensures err.Some? ==> nodes == old(nodes)
      ensures uncut == if err.Some? then old(uncut) + [(p, size)] else old(uncut)
      ensures unwritten == old(unwritten)
      ensures steady ==> err.None?
    {
      var failed, error := Fails();
      if failed {
        uncut := uncut + [(p, size)];
        return Some(error);
      }
      unsynced := unsynced + {p};
      nodes := nodes[p := File(Resized(nodes[p].data, size))];
      err := None;
    }

    /** Writes inside a file; never extends it. */
    method WriteAt(p: Path, body: seq<Byte>, off: nat) returns (err: Option<Error>)
      requires IsFileAt(nodes, p)
      modifies this
      ensures err.None? ==> off + |body| <= |old(nodes)[p].data|
      ensures err.None? ==> nodes == old(nodes)[p := File(Spliced(old(nodes)[p].data, body, off))]
      ensures err.Some? ==> IsFileAt(nodes, p) && nodes == old(nodes)[p := nodes[p]]
      ensures err.Some? ==> PartlySpliced(old(nodes)[p].data, body, off, nodes[p].data)
      ensures uncut == old(uncut)
      ensures unwritten == if err.Some? then old(unwritten) + [(p, off)] else old(unwritten)
      ensures steady && off + |body| <= |old(nodes)[p].data| ==> err.None?
    {
      var failed, error := Fails();
      var data := nodes[p].data;
      if off + |body| > |data| {
        unwritten := unwritten + [(p, off)];
        return Some(error);
      }
      unsynced := unsynced + {p};
      if failed {
        var n: nat :| n <= |body|;
        unwritten := unwritten + [(p, off)];
        nodes := nodes[p := File(Spliced(data, body[..n], off))];
        return Some(error);
      }
      nodes := nodes[p := File(Spliced(data, body, off))];
      err := None;
    }

    method Sync(p: Path) returns (err: Option<Error>)
      modifies this`unsynced
      ensures err.None? ==> unsynced == old(unsynced) - {p}
      ensures err.Some? ==> unsynced == old(unsynced)
      ensures steady ==> err.None?
    {
      var failed, error := Fails();
      if failed {
        return Some(error);
      }
      unsynced := unsynced - {p};
      err := None;
    }

    method Close() returns (err: Option<Error>)
      ensures steady ==> err.None?
    {
      var failed, error := Fails();
      err := if failed then Some(error) else None;
    }

    /**
     hostcopy.Range from the start of one open file into another: it stores a prefix of what
     was asked for and reports how much, or an error.
     */
    method CopyRange(to: Path, from: Path, size: nat) returns (n: nat, err: Option<Error>)
      requires IsFileAt(nodes, to) && IsFileAt(nodes, from) && to != from
      modifies this
      ensures IsFileAt(nodes, to) && nodes == old(nodes)[to := nodes[to]]
      ensures n <= size && n <= |old(nodes)[from].data|
      ensures err.None? && size <= |old(nodes)[to].data| ==>
                |nodes[to].data| == |old(nodes)[to].data| && nodes[to].data[..n] == old(nodes)[from].data[..n]
      ensures steady && size <= |old(nodes)[from].data| && size <= |old(nodes)[to].data| ==> err.None? && n == size
    {
      var failed, error := Fails();
      var source, target := nodes[from].data, nodes[to].data;
      n := if size <= |source| then size else |source|;
      if failed || size > |target| {
        return 0, Some(error);
      }
      unsynced := unsynced + {to};
      nodes := nodes[to := File(Spliced(target, source[..n], 0))];
      err := None;
    }
  }
}
