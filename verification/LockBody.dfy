/** The body of a LOCK request and its owner element (`parseLock`, `reencode` in `lock.go`). */
module LockBody {
  import opened Wrappers
  import opened XmlTokens
  import opened PropBodies

  // -------------------------------------------------------------------------
  // reencode
  // -------------------------------------------------------------------------

  /** What reencode has written when it returns, and the tokens it has not read. */
  datatype Reencoded = Reencoded(out: seq<Token>, rest: seq<Token>)

  function Copy(toks: seq<Token>, depth: int, start: Name): Option<Reencoded> {
    if toks == [] then None
    else
      match toks[0]
      case Start(_) => Emit(toks[0], Copy(toks[1..], depth + 1, start))
      case End(name) =>
        if depth == 0 && name == start then Some(Reencoded([], toks[1..]))
        else Emit(toks[0], Copy(toks[1..], depth - 1, start))
      case Chars(_) => Emit(toks[0], Copy(toks[1..], depth, start))
      case Misc => Copy(toks[1..], depth, start)
  }

  function Emit(tok: Token, r: Option<Reencoded>): Option<Reencoded> {
    if r.None? then None else Some(Reencoded([tok] + r.value.out, r.value.rest))
  }

  lemma {:induction false} CopyShortens(toks: seq<Token>, depth: int, start: Name)
    ensures Copy(toks, depth, start).Some? ==> |Copy(toks, depth, start).value.rest| < |toks|
  {
    if toks != [] {
      CopyShortens(toks[1..], depth + 1, start);
      CopyShortens(toks[1..], depth - 1, start);
      CopyShortens(toks[1..], depth, start);
    }
  }

  /** Prepends what has been written so far. */
  function After(out: seq<Token>, r: Option<Reencoded>): Option<Reencoded> {
    if r.None? then None else Some(Reencoded(out + r.value.out, r.value.rest))
  }

  lemma AfterEmit(out: seq<Token>, tok: Token, r: Option<Reencoded>)
    ensures After(out, Emit(tok, r)) == After(out + [tok], r)
  {
    if r.Some? {
      assert out + ([tok] + r.value.out) == out + [tok] + r.value.out;
    }
  }

  lemma AfterNothing(r: Option<Reencoded>)
    ensures After([], r) == r
  {
    if r.Some? {
      assert [] + r.value.out == r.value.out;
    }
  }

  method Reencode(input: seq<Token>, start: Name) returns (r: Option<Reencoded>)
    ensures r == Copy(input, 0, start)
  {
    hide After, Emit;
    var toks, out, depth := input, [], 0;
    AfterNothing(Copy(input, 0, start));
    while toks != []
      invariant After(out, Copy(toks, depth, start)) == Copy(input, 0, start)
      decreases |toks|
    {
      var tok := toks[0];
      AfterEmit(out, tok, Copy(toks[1..], depth + 1, start));
      AfterEmit(out, tok, Copy(toks[1..], depth - 1, start));
      AfterEmit(out, tok, Copy(toks[1..], depth, start));
      toks := toks[1..];
      match tok {
        case Start(_) =>
          depth := depth + 1;
          out := out + [tok];
        case End(name) =>
          if depth == 0 && name == start {
            Finished(out, toks);
            return Some(Reencoded(out, toks));
          }
          depth := depth - 1;
          out := out + [tok];
        case Chars(_) =>
          out := out + [tok];
        case Misc =>
      }
    }
    Unfinished(out);
    r := None;
  }

  lemma Finished(out: seq<Token>, rest: seq<Token>)
    ensures After(out, Some(Reencoded([], rest))) == Some(Reencoded(out, rest))
  {
    assert out + [] == out;
  }

  lemma Unfinished(out: seq<Token>)
    ensures After(out, None) == None
  {
  }

  /** The same tree without comments, instructions and directives. */
  function Strip(ns: seq<Node>): seq<Node>
    decreases ns
  {
    if ns == [] then []
    else
      (match ns[0]
       case Element(name, children) => [Element(name, Strip(children))]
       case Text(data) => [ns[0]]
       case Aside => []) + Strip(ns[1..])
  }

  lemma {:induction false} FlattenConcat(a: seq<Node>, b: seq<Node>)
    ensures FlattenAll(a + b) == FlattenAll(a) + FlattenAll(b)
    decreases |a|
  {
    if a == [] {
      assert a + b == b;
    } else {
      assert (a + b)[0] == a[0] && (a + b)[1..] == a[1..] + b;
      FlattenConcat(a[1..], b);
      assert Flatten(a[0]) + (FlattenAll(a[1..]) + FlattenAll(b)) ==
             Flatten(a[0]) + FlattenAll(a[1..]) + FlattenAll(b);
    }
  }

  lemma AfterTwice(a: seq<Token>, b: seq<Token>, r: Option<Reencoded>)
    ensures After(a, After(b, r)) == After(a + b, r)
  {
    if r.Some? {
      assert a + (b + r.value.out) == a + b + r.value.out;
    }
  }

  /** A list of nodes is copied without its asides, at any depth, whatever names nest in it. */
  lemma {:induction false} CopyNodes(ns: seq<Node>, rest: seq<Token>, depth: nat, start: Name)
    ensures Copy(FlattenAll(ns) + rest, depth, start) ==
            After(FlattenAll(Strip(ns)), Copy(rest, depth, start))
    decreases ns, 1
  {
    hide After, Copy;
    if ns == [] {
      StripNone(ns);
      AfterNothing(Copy(rest, depth, start));
      assert FlattenAll(ns) + rest == rest;
    } else {
      var tail := FlattenAll(ns[1..]) + rest;
      FlattenCons(ns, rest);
      CopyNode(ns, tail, depth, start);
      CopyNodes(ns[1..], rest, depth, start);
      var first := Strip([ns[0]]);
      StripCons(ns);
      FlattenConcat(first, Strip(ns[1..]));
      AfterTwice(FlattenAll(first), FlattenAll(Strip(ns[1..])), Copy(rest, depth, start));
    }
  }

  lemma StripNone(ns: seq<Node>)
    requires ns == []
    ensures Strip(ns) == []
  {
  }

  lemma StripCons(ns: seq<Node>)
    requires ns != []
    ensures Strip(ns) == Strip([ns[0]]) + Strip(ns[1..])
  {
    assert [ns[0]][1..] == [];
    assert Strip([]) == [];
  }

  lemma {:induction false} CopyNode(ns: seq<Node>, tail: seq<Token>, depth: nat, start: Name)
    requires ns != []
    ensures Copy(Flatten(ns[0]) + tail, depth, start) ==
            After(FlattenAll(Strip([ns[0]])), Copy(tail, depth, start))
    decreases ns, 0
  {
    var n, toks := ns[0], Flatten(ns[0]) + tail;
    assert [n][1..] == [];
    StripNone([]);
    var all := Copy(tail, depth, start);
    match n {
      case Element(name, children) =>
        var end := [End(name)] + tail;
        var inner := FlattenAll(Strip(children));
        assert toks[0] == Start(name) && toks[1..] == FlattenAll(children) + end;
        assert end[0] == End(name) && end[1..] == tail;
        CopyNodes(children, end, depth + 1, start);
        assert Strip([n]) == [Element(name, Strip(children))];
        FlattenOne(Element(name, Strip(children)));
        CopiedElement(name, inner, all);
      case Text(data) =>
        assert toks[1..] == tail;
        assert Strip([n]) == [n];
        FlattenOne(n);
      case Aside =>
        assert toks[1..] == tail;
        assert Strip([n]) == [];
        AfterNothing(all);
    }
  }

  lemma FlattenOne(n: Node)
    ensures FlattenAll([n]) == Flatten(n)
  {
    assert [n][1..] == [];
    assert Flatten(n) + [] == Flatten(n);
  }

  lemma CopiedElement(name: Name, inner: seq<Token>, all: Option<Reencoded>)
    ensures Emit(Start(name), After(inner, Emit(End(name), all))) ==
            After([Start(name)] + inner + [End(name)], all)
  {
    if all.Some? {
      var out := all.value.out;
      assert [Start(name)] + (inner + ([End(name)] + out)) == [Start(name)] + inner + [End(name)] + out;
    }
  }

  /**
   reencode, called just inside an element, reads exactly through that element's end tag, even
   when elements of the same name nest in it, and writes a balanced copy of its children.  With
   the end tag missing it fails.
   */
  lemma ReencodeCopiesChildren(start: Name, children: seq<Node>, rest: seq<Token>)
    ensures Copy(FlattenAll(children) + ([End(start)] + rest), 0, start) ==
            Some(Reencoded(FlattenAll(Strip(children)), rest))
    ensures Copy(FlattenAll(children), 0, start).None?
  {
    var end := [End(start)] + rest;
    CopyNodes(children, end, 0, start);
    CopyNodes(children, [], 0, start);
    assert FlattenAll(children) + [] == FlattenAll(children);
    assert end[1..] == rest;
    assert FlattenAll(Strip(children)) + [] == FlattenAll(Strip(children));
  }

  // -------------------------------------------------------------------------
  // parseLock
  // -------------------------------------------------------------------------

  /** A LOCK with no body refreshes; otherwise the owner is the copied content of its element. */
  datatype LockRequest = LockRequest(refresh: bool, owner: seq<Token>)

  datatype LockState = LockState(owner: seq<Token>, seenRoot: bool)

  function LockRun(toks: seq<Token>, clean: bool, st: LockState): Result<LockState, BodyError>
    decreases |toks|
  {
    if toks == [] then (if clean then Ok(st) else Err(Malformed))
    else
      match toks[0]
      case Start(name) =>
        if !st.seenRoot then
          if Is(name, "lockinfo") then LockRun(toks[1..], clean, st.(seenRoot := true)) else Err(BadBody)
        else if Is(name, "owner") then
          var copied := Copy(toks[1..], 0, name);
          CopyShortens(toks[1..], 0, name);
          if copied.None? then Err(Malformed)
          else LockRun(copied.value.rest, clean, st.(owner := copied.value.out))
        else
          var rest := Skip(toks[1..], 0);
          if rest.None? then Err(Malformed) else LockRun(rest.value, clean, st)
      case _ => LockRun(toks[1..], clean, st)
  }

  function LockResult(r: Result<LockState, BodyError>): Result<LockRequest, BodyError> {
    match r
    case Err(e) => Err(e)
    case Ok(st) => Ok(LockRequest(!st.seenRoot, st.owner))
  }

  method ParseLock(input: Input) returns (r: Result<LockRequest, BodyError>)
    ensures r == LockResult(LockRun(input.tokens, input.clean, LockState([], false)))
  {
    var toks, owner, seenRoot := input.tokens, [], false;
    while toks != []
      invariant LockRun(toks, input.clean, LockState(owner, seenRoot)) ==
                LockRun(input.tokens, input.clean, LockState([], false))
      decreases |toks|
    {
      var tok := toks[0];
      toks := toks[1..];
      if !tok.Start? {
        continue;
      }
      if !seenRoot {
        if tok.name.space != DAV || tok.name.local != "lockinfo" {
          return Err(BadBody);
        }
        seenRoot := true;
        continue;
      }
      if tok.name.space == DAV && tok.name.local == "owner" {
        var copied := Reencode(toks, tok.name);
        CopyShortens(toks, 0, tok.name);
        if copied.None? {
          return Err(Malformed);
        }
        owner, toks := copied.value.out, copied.value.rest;
        continue;
      }
      var rest := Skip(toks, 0);
      if rest.None? {
        return Err(Malformed);
      }
      toks := rest.value;
    }
    if !input.clean {
      return Err(Malformed);
    }
    r := Ok(LockRequest(!seenRoot, owner));
  }

  /** The content of the last DAV: owner among the children, or what was there before. */
  function LastOwner(ns: seq<Node>, owner: seq<Token>): seq<Token>
    decreases |ns|
  {
    if ns == [] then owner
    else LastOwner(ns[1..], OwnerOf(ns[0], owner))
  }

  lemma {:induction false} LockPasses(ns: seq<Node>, rest: seq<Token>, st: LockState)
    requires NoElements(ns)
    ensures LockRun(FlattenAll(ns) + rest, true, st) == LockRun(rest, true, st)
  {
    if ns == [] {
      assert FlattenAll(ns) + rest == rest;
    } else {
      FlattenCons(ns, rest);
      assert !ns[0].Element?;
      assert (FlattenAll(ns) + rest)[1..] == FlattenAll(ns[1..]) + rest;
      LockPasses(ns[1..], rest, st);
    }
  }

  function OwnerOf(n: Node, owner: seq<Token>): seq<Token> {
    if n.Element? && Is(n.name, "owner") then FlattenAll(Strip(n.children)) else owner
  }

  lemma LockChild(n: Node, tail: seq<Token>, st: LockState)
    requires st.seenRoot
    ensures LockRun(Flatten(n) + tail, true, st) == LockRun(tail, true, st.(owner := OwnerOf(n, st.owner)))
  {
    var toks := Flatten(n) + tail;
    if !n.Element? {
      assert toks[1..] == tail;
    } else if Is(n.name, "owner") {
      assert toks[1..] == FlattenAll(n.children) + ([End(n.name)] + tail);
      ReencodeCopiesChildren(n.name, n.children, tail);
    } else {
      SkipElement(n.name, n.children, tail);
    }
  }

  lemma {:induction false} LockChildren(ns: seq<Node>, rest: seq<Token>, st: LockState)
    requires st.seenRoot
    ensures LockRun(FlattenAll(ns) + rest, true, st) == LockRun(rest, true, st.(owner := LastOwner(ns, st.owner)))
    decreases |ns|
  {
    hide LockRun;
    if ns == [] {
      assert FlattenAll(ns) + rest == rest;
    } else {
      FlattenCons(ns, rest);
      LockChild(ns[0], FlattenAll(ns[1..]) + rest, st);
      LockChildren(ns[1..], rest, st.(owner := OwnerOf(ns[0], st.owner)));
    }
  }

  /** The loop over the stream of a LOCK document reads its owner off the tree. */
  lemma LockReadsTree(doc: Document)
    requires WellFormed(doc)
    ensures LockResult(LockRun(Stream(doc), true, LockState([], false))) ==
            if Is(doc.root.name, "lockinfo") then Ok(LockRequest(false, LastOwner(doc.root.children, [])))
            else Err(BadBody)
  {
    var root, after := doc.root, FlattenAll(doc.after);
    LockPasses(doc.before, Flatten(root) + after, LockState([], false));
    var toks := Flatten(root) + after;
    var end := [End(root.name)] + after;
    assert toks[0] == Start(root.name) && toks[1..] == FlattenAll(root.children) + end;
    if Is(root.name, "lockinfo") {
      LockChildren(root.children, end, LockState([], true));
      var done := LockState(LastOwner(root.children, []), true);
      assert end[1..] == after;
      LockPasses(doc.after, [], done);
      assert after + [] == after;
    }
  }

  /** A body with no element at all is a refresh. */
  lemma LockEmptyBody(ns: seq<Node>)
    requires NoElements(ns)
    ensures LockResult(LockRun(FlattenAll(ns), true, LockState([], false))) == Ok(LockRequest(true, []))
  {
    LockPasses(ns, [], LockState([], false));
    assert FlattenAll(ns) + [] == FlattenAll(ns);
  }

  /** A stream that ends in an error is always refused. */
  lemma {:induction false} LockNeedsCleanEnd(toks: seq<Token>, st: LockState)
    ensures LockRun(toks, false, st).Err?
    decreases |toks|
  {
    if toks != [] {
      LockNeedsCleanEnd(toks[1..], st);
      LockNeedsCleanEnd(toks[1..], st.(seenRoot := true));
      if toks[0].Start? {
        var copied, rest := Copy(toks[1..], 0, toks[0].name), Skip(toks[1..], 0);
        CopyShortens(toks[1..], 0, toks[0].name);
        if copied.Some? {
          LockNeedsCleanEnd(copied.value.rest, st.(owner := copied.value.out));
        }
        if rest.Some? {
          LockNeedsCleanEnd(rest.value, st);
        }
      }
    }
  }
}
