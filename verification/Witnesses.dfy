/** Requests carried through the handlers, one after another, that end where one may not expect. */
module Witnesses {
  import opened Wrappers
  import opened Paths
  import opened Headers
  import opened Driver
  import opened TreeOps
  import opened LockSpec
  import opened LockSystem
  import opened RangePut
  import opened Handler
  import ContentRange
  import IfHeader
  import LockBody
  import Reference
  import XmlTokens

  const LOCKINFO := XmlTokens.Name(XmlTokens.DAV, "lockinfo")
  /** The body of a LOCK that asks for a new lock and names no owner. */
  const NEW_LOCK := XmlTokens.Input([XmlTokens.Start(LOCKINFO), XmlTokens.End(LOCKINFO)], true)

  lemma NewLockAsks(server: Server)
    ensures server.Asked(NEW_LOCK) == Ok(LockBody.LockRequest(false, []))
  {
    var root := XmlTokens.Element(LOCKINFO, []);
    var doc := XmlTokens.Document([], root, []);
    assert XmlTokens.Stream(doc) == NEW_LOCK.tokens;
    LockBody.LockReadsTree(doc);
  }

  lemma PlainHeaders()
    ensures ParseDepth("") == Some(Infinity) && ParseDepth("0") == Some(Zero)
    ensures FirstTimeout(Split("", ',')) == DEFAULT_LOCK_TIMEOUT
  {
    assert Trim("") == "" && Trim("0") == "0";
    assert Lower("") == "" && Lower("0") == "0";
    assert Split("", ',') == [""] && [""][1..] == [];
  }

  lemma Spelled(cs: Path)
    requires IsPath(cs)
    ensures Canonical(Render(cs)) && Comps(Render(cs)) == cs
  {
    CompsRender(cs);
  }

  lemma ShortNames()
    ensures IsPath(["a"]) && IsPath(["a", "b"]) && IsPath(["a", "x"])
    ensures Render(["a"]) == "/a" && Render(["a", "b"]) == "/a/b" && Render(["a", "x"]) == "/a/x"
  {
    assert ["a", "b"][1..] == ["b"] && ["a", "x"][1..] == ["x"];
  }

  const TWO_FILES: Tree := map[[] := Dir, ["a"] := Dir, ["a", "b"] := File([]), ["a", "c"] := File([])]

  lemma TwoFilesOk()
    ensures TreeOk(TWO_FILES)
  {
    assert Parent(["a"]) == [] && Parent(["a", "b"]) == ["a"] && Parent(["a", "c"]) == ["a"];
  }

  /** /a/b is locked, on a driver that will not let go of /a/c. */
  method LockOneOfTwo() returns (server: Server, reply: Reply)
    ensures fresh(server.fs) && fresh(server.locks) && fresh(server.locks.records)
    ensures server.Valid() && server.Consistent() && reply == Status(200)
    ensures server.fs.nodes == TWO_FILES && server.fs.steady && server.fs.refused == {["a", "c"]}
    ensures server.locks.locks.Keys == {["a", "b"]} && server.locks.locks[["a", "b"]].depth == Zero
    ensures server.locks.locks[["a", "b"]].token == "t"
    ensures server.locks.locks[["a", "b"]].expiry == DEFAULT_LOCK_TIMEOUT && server.prefix == ""
  {
    hide Canonical, Comps, Render, ParseDepth, FirstTimeout, Split, LockTable.Valid, LockBody.LockRun, TreeOk;
    TwoFilesOk();
    var fs := new FileSystem(TWO_FILES, true, true, true, true, {["a", "c"]});
    var locks := new LockTable();
    server := new Server(fs, locks, "", 0);
    NewLockAsks(server);
    PlainHeaders();
    ShortNames();
    Spelled(["a", "b"]);
    var l;
    reply, l := server.ServeLock("/a/b", "0", "", "", NEW_LOCK, Some("t"), 0, 0);
    assert Sweep(map[], 0) == map[];
    assert !Blocked(map[], ["a", "b"], Zero);
  }

  /**
   The delete of /a stops at /a/c, answers 207, and leaves the lock on /a/b, which it did take.
   */
  method PartialDeleteStrandsLock() returns (server: Server, reply: Reply)
    ensures server.Valid() && reply.Multistatus?
    ensures ["a", "b"] in server.locks.locks && ["a", "b"] !in server.fs.nodes && !server.Consistent()
  {
    hide Canonical, Comps, Render, LockTable.Valid, TreeOk, Removed;
    var first;
    server, first := LockOneOfTwo();
    ShortNames();
    Spelled(["a"]);
    ghost var m := server.locks.locks;
    assert Sweep(m, 0) == m;
    assert Permitted(m, ["a"], "") by {
      assert !Covers(["a", "b"], m[["a", "b"]].depth, ["a"]);
    }
    assert "b"[0] != "c"[0];
    assert ["a", "b"][1] != ["a", "c"][1];
    assert ["a"] <= ["a", "c"] && ["a"] <= ["a", "b"] && !(["a", "b"] <= ["a", "c"]);
    assert Pinned(TWO_FILES, ["a"], {["a", "c"]}) by {
      assert ["a", "c"] in {["a", "c"]};
    }
    assert !Pinned(TWO_FILES, ["a", "b"], {["a", "c"]});
    reply := server.ServeDelete("/a", "", 0);
  }

  const ONE_DIR: Tree := map[[] := Dir, ["a"] := Dir]

  lemma OneDirOk()
    ensures TreeOk(ONE_DIR)
  {
    assert Parent(["a"]) == [];
  }

  /** /a is an empty collection, locked to any depth. */
  method LockOneDir() returns (server: Server, reply: Reply)
    ensures fresh(server.fs) && fresh(server.locks) && fresh(server.locks.records)
    ensures server.Valid() && reply == Status(200) && server.fs.nodes == ONE_DIR && server.fs.steady
    ensures server.locks.locks.Keys == {["a"]} && server.locks.locks[["a"]].depth == Infinity
    ensures 0 <= server.locks.locks[["a"]].expiry
  {
    hide Canonical, Comps, Render, ParseDepth, FirstTimeout, Split, LockTable.Valid, LockBody.LockRun, TreeOk;
    OneDirOk();
    var fs := new FileSystem(ONE_DIR, true, true, true, true, {});
    var locks := new LockTable();
    server := new Server(fs, locks, "", 0);
    NewLockAsks(server);
    PlainHeaders();
    ShortNames();
    Spelled(["a"]);
    assert Sweep(map[], 0) == map[] && !Blocked(map[], ["a"], Infinity);
    var l;
    reply, l := server.ServeLock("/a", "", "", "", NEW_LOCK, Some("t"), 0, 0);
  }

  /** With /a locked to any depth, a LOCK of the missing /a/x is refused and leaves an empty file there. */
  method RefusedLockLeavesFile() returns (server: Server, reply: Reply)
    ensures server.Valid() && reply == Status(423)
    ensures server.fs.nodes == ONE_DIR[["a", "x"] := File([])]
    ensures server.locks.locks.Keys == {["a"]}
  {
    hide Canonical, Comps, Render, ParseDepth, FirstTimeout, Split, LockTable.Valid, LockBody.LockRun, TreeOk;
    var granted;
    server, granted := LockOneDir();
    NewLockAsks(server);
    PlainHeaders();
    ShortNames();
    Spelled(["a", "x"]);
    ghost var m := server.locks.locks;
    assert Sweep(m, 0) == m;
    assert Overlap(["a"], m[["a"]].depth, ["a", "x"], Infinity);
    assert Parent(["a", "x"]) == ["a"];
    var l;
    reply, l := server.ServeLock("/a/x", "", "", "", NEW_LOCK, None, 0, 0);
  }

  /** A collection /a that holds nothing but the empty collection /a/b. */
  const NESTED: Tree := map[[] := Dir, ["a"] := Dir, ["a", "b"] := Dir]

  lemma NestedFacts()
    ensures TreeOk(NESTED) && Without(NESTED, ["a"]) == map[[] := Dir]
    ensures ["a"] <= ["a", "b"] && !Misplaced(["a", "b"], ["a"])
    ensures Prepared(NESTED, ["a", "b"], ["a"], Some(true)) == Ok(204)
  {
    assert Parent(["a"]) == [] && Parent(["a", "b"]) == ["a"];
    assert ["a"] <= ["a", "b"] && !(["a"] <= []);
  }

  lemma NoLocks(ifHeader: string, p: Path)
    ensures Sweep(map[], 0) == map[] && Permitted(map[], p, ifHeader)
  {
  }

  lemma ToA(server: Server)
    requires server.prefix == ""
    ensures Destination(server.prefix, Reference.Url(false, "/a")) == Ok("/a") && ParseOverwrite("") == Some(true)
  {
    ShortNames();
    Spelled(["a"]);
    assert NUL !in "/a";
    assert Trim("") == "" && Lower("") == "";
  }

  method NestedServer() returns (server: Server)
    ensures fresh(server.fs) && fresh(server.locks) && fresh(server.locks.records)
    ensures server.Valid() && server.fs.nodes == NESTED && server.fs.reliable && server.prefix == ""
    ensures server.locks.locks == map[]
  {
    NestedFacts();
    var fs := new FileSystem(NESTED, true, true, true, true, {});
    var locks := new LockTable();
    server := new Server(fs, locks, "", 0);
  }

  /** /a/b moved onto /a, on a driver that never fails: the move fails, and both are gone. */
  method MoveOntoParentLosesBoth() returns (server: Server, reply: Reply)
    ensures server.Valid() && reply.Failed? && server.fs.nodes == map[[] := Dir]
  {
    hide Canonical, Comps, Render, LockTable.Valid, TreeOk, Without, Prepared, Misplaced, Destination, ParseOverwrite;
    server := NestedServer();
    NestedFacts();
    ShortNames();
    Spelled(["a"]);
    Spelled(["a", "b"]);
    ToA(server);
    NoLocks("", ["a"]);
    NoLocks("", ["a", "b"]);
    ghost var dst;
    reply, dst := server.ServeMove("/a/b", Reference.Url(false, "/a"), "", "", 0, 0);
  }

  /** /a/b copied onto /a at depth 0, on a driver that never fails: 204, and only an empty /a is left. */
  method ShallowCopyOntoParent() returns (server: Server, reply: Reply)
    ensures server.Valid() && reply == Status(204) && server.fs.nodes == ONE_DIR
  {
    hide Canonical, Comps, Render, LockTable.Valid, TreeOk, Without, Prepared, Misplaced, Destination, ParseOverwrite,
         ParseDepth;
    server := NestedServer();
    NestedFacts();
    ShortNames();
    Spelled(["a"]);
    Spelled(["a", "b"]);
    ToA(server);
    PlainHeaders();
    NoLocks("", ["a"]);
    ghost var dst;
    reply, dst := server.ServeCopy("/a/b", Reference.Url(false, "/a"), "0", "", "", 0);
  }

  /** The same at any depth: 207, and the empty /a has nothing to be filled from. */
  method DeepCopyOntoParent() returns (server: Server, reply: Reply)
    ensures server.Valid() && reply.Multistatus?
    ensures server.fs.nodes == map[[] := Dir] || server.fs.nodes == ONE_DIR
  {
    hide Canonical, Comps, Render, LockTable.Valid, TreeOk, Without, Prepared, Misplaced, Destination, ParseOverwrite,
         ParseDepth, Removed;
    server := NestedServer();
    NestedFacts();
    ShortNames();
    Spelled(["a"]);
    Spelled(["a", "b"]);
    ToA(server);
    PlainHeaders();
    NoLocks("", ["a"]);
    ghost var dst;
    reply, dst := server.ServeCopy("/a/b", Reference.Url(false, "/a"), "", "", "", 0);
  }

  /** An export with /a/b and /a/c, no locks, on a driver that never fails. */
  method TwoFiles() returns (server: Server)
    ensures fresh(server.fs) && fresh(server.locks) && fresh(server.locks.records)
    ensures server.Valid() && server.fs.nodes == TWO_FILES && server.fs.reliable && server.prefix == ""
    ensures server.locks.locks == map[]
  {
    TwoFilesOk();
    var fs := new FileSystem(TWO_FILES, true, true, true, true, {});
    var locks := new LockTable();
    server := new Server(fs, locks, "", 0);
  }

  lemma ItsOwnWord(word: string)
    ensures Spells(word, word)
  {
    assert Framed(word, "", word, "") && SameWord(word, word);
  }

  lemma CapitalsSpell()
    ensures Spells(" INFINITY", "infinity")
  {
    assert Framed(" INFINITY", " ", "INFINITY", "");
    assert SameWord("INFINITY", "infinity");
  }

  lemma InfinityByWord()
    ensures ParseDepth("infinity") == Some(Infinity) && ParseDepth(" INFINITY") == Some(Infinity)
  {
    hide Spells, ParseDepth;
    ItsOwnWord("infinity");
    CapitalsSpell();
    DepthExactly("infinity", Infinity);
    DepthExactly(" INFINITY", Infinity);
  }

  lemma ForbiddenByWord()
    ensures ParseOverwrite("F") == Some(false) && ParseOverwrite(" f") == Some(false)
  {
    assert Framed("F", "", "F", "") && SameWord("F", "f");
    assert Framed(" f", " ", "f", "") && SameWord("f", "f");
    OverwriteExactly("F");
    OverwriteExactly(" f");
  }

  lemma NamesToo()
    ensures IsPath(["a", "c"]) && Render(["a", "c"]) == "/a/c" && IsPath(["d"]) && Render(["d"]) == "/d"
  {
    assert ["a", "c"][1..] == ["c"];
  }

  lemma Leads(server: Server, p: Path, spelling: string)
    requires server.prefix == "" && IsPath(p) && spelling == Render(p) && NUL !in spelling && |spelling| <= MAX_PATH
    ensures Destination(server.prefix, Reference.Url(false, spelling)) == Ok(spelling)
    ensures Reference.Whereto(server.prefix, Reference.Url(false, spelling)) == Ok(p)
  {
    Spelled(p);
  }

  /** /a copied to /d with "Depth: infinity": the files come along. */
  method DeepCopyByWord() returns (server: Server, reply: Reply)
    ensures server.Valid() && reply == Status(201)
    ensures IsFileAt(server.fs.nodes, ["d", "b"]) && IsFileAt(server.fs.nodes, ["d", "c"])
  {
    hide Canonical, Comps, Render, LockTable.Valid, TreeOk, Prepared, Destination, Reference.Whereto, ParseOverwrite,
         ParseDepth, Copied, Taken, Reference.WithCopy, Server.CopyDone, Removed;
    server := TwoFiles();
    ShortNames();
    NamesToo();
    Spelled(["a"]);
    Spelled(["d"]);
    Leads(server, ["d"], "/d");
    InfinityByWord();
    EmptyOverwrite();
    NoLocks("", ["d"]);
    FreeD();
    FilesComeAlong();
    ghost var dst;
    reply, dst := server.ServeCopy("/a", Reference.Url(false, "/d"), "infinity", "", "", 0);
  }

  lemma EmptyOverwrite()
    ensures ParseOverwrite("") == Some(true)
  {
    assert Blanks("");
    OverwriteExactly("");
  }

  lemma FreeD()
    ensures !(["a"] <= ["d"]) && Parent(["d"]) == [] && ["d"] !in TWO_FILES && !(["d"] <= ["a"])
  {
    assert "a"[0] != "d"[0];
    assert ["a"][0] != ["d"][0];
  }

  lemma FilesComeAlong()
    ensures IsFileAt(Reference.WithCopy(TWO_FILES, ["a"], ["d"], true), ["d", "b"])
    ensures IsFileAt(Reference.WithCopy(TWO_FILES, ["a"], ["d"], true), ["d", "c"])
  {
    assert Rebase(["d", "b"], ["d"], ["a"]) == ["a", "b"] && Rebase(["d", "c"], ["d"], ["a"]) == ["a", "c"];
    TakenAt(TWO_FILES, ["a"], ["d"], ["d", "b"]);
    TakenAt(TWO_FILES, ["a"], ["d"], ["d", "c"]);
    hide Taken;
  }

  /** A lock on /a with "Depth: INFINITY" covers all of it. */
  method LockByWord() returns (server: Server, reply: Reply)
    ensures server.Valid() && reply == Status(200)
    ensures ["a"] in server.locks.locks && server.locks.locks[["a"]].depth == Infinity
  {
    hide Canonical, Comps, Render, ParseDepth, FirstTimeout, Split, LockTable.Valid, LockBody.LockRun, TreeOk;
    server := TwoFiles();
    NewLockAsks(server);
    InfinityByWord();
    ShortNames();
    Spelled(["a"]);
    assert Sweep(map[], 0) == map[] && !Blocked(map[], ["a"], Infinity);
    var l;
    reply, l := server.ServeLock("/a", " INFINITY", "", "", NEW_LOCK, Some("t"), 0, 0);
  }

  lemma BesideEachOther()
    ensures Parent(["a", "c"]) == ["a"] && !(["a", "b"] <= ["a", "c"]) && ["a", "b"] != ["a", "c"]
    ensures ["a", "c"] in TWO_FILES && ["a", "b"] in TWO_FILES && IsDirAt(TWO_FILES, ["a"])
  {
    assert "b"[0] != "c"[0];
    assert ["a", "b"][1] != ["a", "c"][1];
  }

  /** /a/b moved, then copied, onto /a/c with "Overwrite: F": 412 both times, and all is as it was. */
  method KeptByWord() returns (server: Server, moved: Reply, copied: Reply)
    ensures server.Valid() && moved == Status(412) && copied == Status(412)
    ensures server.fs.nodes == TWO_FILES && server.locks.locks == map[]
  {
    hide Canonical, Comps, Render, LockTable.Valid, TreeOk, Prepared, Destination, Reference.Whereto, ParseOverwrite,
         ParseDepth;
    server := TwoFiles();
    ShortNames();
    NamesToo();
    Spelled(["a", "b"]);
    Spelled(["a", "c"]);
    Leads(server, ["a", "c"], "/a/c");
    ForbiddenByWord();
    PlainHeaders();
    BesideEachOther();
    NoLocks("", ["a", "b"]);
    NoLocks("", ["a", "c"]);
    ghost var dst;
    moved, dst := server.ServeMove("/a/b", Reference.Url(false, "/a/c"), "F", "", 0, 0);
    copied, dst := server.ServeCopy("/a/b", Reference.Url(false, "/a/c"), "", " f", "", 0);
  }

  /** An empty body, and the token between angle brackets. */
  const NO_BODY := XmlTokens.Input([], true)

  lemma NothingAsked(server: Server)
    ensures Server.Asked(NO_BODY) == Ok(LockBody.LockRequest(true, []))
  {
    LockBody.LockEmptyBody([]);
  }

  lemma ShowsToken()
    ensures IfHeader.Scan("(<t> ) ", false) == ["t"]
  {
    hide IfHeader.Scan;
    var rest := "<" + "t" + "> " + ") ";
    assert "(<t> ) " == "(" + rest;
    IfHeader.ScanInert("(", rest, false);
    IfHeader.ScanToken("t", ") ", false);
    IfHeader.InertYieldsNothing(") ", false);
  }

  /** The lock on /a/b, refreshed a second later by its holder with no body: ten seconds from then. */
  method RefreshedByHolder() returns (server: Server, reply: Reply)
    ensures server.Valid() && reply == Status(200) && server.fs.nodes == TWO_FILES
    ensures server.locks.locks.Keys == {["a", "b"]}
    ensures server.locks.locks[["a", "b"]].token == "t" && server.locks.locks[["a", "b"]].depth == Zero
    ensures server.locks.locks[["a", "b"]].expiry == 11 * SECOND
  {
    hide Canonical, Comps, Render, ParseDepth, FirstTimeout, Split, LockTable.Valid, LockBody.LockRun, TreeOk,
         IfHeader.Scan, Server.Asked, ContentRange.Print;
    var granted;
    server, granted := LockOneOfTwo();
    NothingAsked(server);
    PlainHeaders();
    ShowsToken();
    PrintedSeconds(10);
    ShortNames();
    Spelled(["a", "b"]);
    ghost var m := server.locks.locks;
    assert Sweep(m, SECOND) == m;
    var l;
    reply, l := server.ServeLock("/a/b", "0", "Second-" + ContentRange.Print(10), "(<t> ) ", NO_BODY, None,
                                 SECOND, SECOND);
  }
}
