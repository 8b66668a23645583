/** The token-stream machines for PROPFIND and PROPPATCH bodies (`propfind.go`). */
module PropBodies {
  import opened Wrappers
  import opened XmlTokens

  datatype BodyError = Malformed | BadBody

  // -------------------------------------------------------------------------
  // parsePropfind
  // -------------------------------------------------------------------------

  datatype Propfind = Propfind(allprop: bool, propname: bool, names: seq<Name>, included: seq<Name>)

  /** Where the decoder is, beside what it has collected. */
  datatype FindState = FindState(req: Propfind, inProp: bool, inInclude: bool, seenRoot: bool)

  const FIND_START := FindState(NO_REQUEST, false, false, false)

  /** Whether a start tag opens a container the machine descends into. */
  predicate Opens(st: FindState, name: Name) {
    !st.inProp && !st.inInclude && (Is(name, "prop") || Is(name, "include"))
  }

  function Descend(st: FindState, name: Name): FindState {
    if name.local == "prop" then st.(inProp := true) else st.(inInclude := true)
  }

  /** The request after an element that is recorded, or not, and then skipped whole. */
  function Record(st: FindState, name: Name): Propfind {
    if st.inProp then st.req.(names := st.req.names + [name])
    else if st.inInclude then st.req.(included := st.req.included + [name])
    else if Is(name, "allprop") then st.req.(allprop := true)
    else if Is(name, "propname") then st.req.(propname := true)
    else st.req
  }

  function Ascend(st: FindState, name: Name): FindState {
    if Is(name, "prop") then st.(inProp := false)
    else if Is(name, "include") then st.(inInclude := false)
    else st
  }

  function FindRun(toks: seq<Token>, clean: bool, st: FindState): Result<FindState, BodyError>
    decreases |toks|
  {
    if toks == [] then (if clean then Ok(st) else Err(Malformed))
    else
      match toks[0]
      case Start(name) =>
        if !st.seenRoot then
          if Is(name, "propfind") then FindRun(toks[1..], clean, st.(seenRoot := true)) else Err(BadBody)
        else if Opens(st, name) then FindRun(toks[1..], clean, Descend(st, name))
        else
          var rest := Skip(toks[1..], 0);
          if rest.None? then Err(Malformed)
          else FindRun(rest.value, clean, st.(req := Record(st, name)))
      case End(name) => FindRun(toks[1..], clean, Ascend(st, name))
      case _ => FindRun(toks[1..], clean, st)
  }

  /** The request a finished run stands for. */
  function FindResult(r: Result<FindState, BodyError>): Result<Propfind, BodyError> {
    match r
    case Err(e) => Err(e)
    case Ok(st) =>
      if !st.seenRoot then Ok(st.req.(allprop := true))
      else if !st.req.allprop && !st.req.propname && st.req.names == [] then Err(BadBody)
      else Ok(st.req)
  }

  method ParsePropfind(input: Input) returns (r: Result<Propfind, BodyError>)
    ensures r == FindResult(FindRun(input.tokens, input.clean, FIND_START))
  {
    var toks := input.tokens;
    var allprop, propname := false, false;
    var names, included := [], [];
    var inProp, inInclude, seenRoot := false, false, false;
    while toks != []
      invariant FindRun(toks, input.clean,
                        FindState(Propfind(allprop, propname, names, included), inProp, inInclude, seenRoot)) ==
                FindRun(input.tokens, input.clean, FIND_START)
      decreases |toks|
    {
      var tok := toks[0];
      toks := toks[1..];
      match tok {
        case Start(name) =>
          if !seenRoot {
            if name.space != DAV || name.local != "propfind" {
              return Err(BadBody);
            }
            seenRoot := true;
            continue;
          }
          if inProp {
            names := names + [name];
          } else if inInclude {
            included := included + [name];
          } else if name.space == DAV {
            if name.local == "prop" {
              inProp := true;
              continue;
            } else if name.local == "include" {
              inInclude := true;
              continue;
            } else if name.local == "allprop" {
              allprop := true;
            } else if name.local == "propname" {
              propname := true;
            }
          }
          var rest := Skip(toks, 0);
          if rest.None? {
            return Err(Malformed);
          }
          toks := rest.value;
        case End(name) =>
          if name.space == DAV {
            if name.local == "prop" {
              inProp := false;
            } else if name.local == "include" {
              inInclude := false;
            }
          }
        case _ =>
      }
    }
    if !input.clean {
      return Err(Malformed);
    }
    if !seenRoot {
      return Ok(Propfind(true, propname, names, included));
    }
    if !allprop && !propname && names == [] {
      return Err(BadBody);
    }
    r := Ok(Propfind(allprop, propname, names, included));
  }

  // What the tree says.

  /** The child names of a DAV: element called `local`; none of any other node. */
  function NamesIf(n: Node, local: string): seq<Name> {
    if n.Element? && Is(n.name, local) then ElementNames(n.children) else []
  }

  /** The names inside every DAV: child called `local`, in document order. */
  function NamesWithin(ns: seq<Node>, local: string): seq<Name> {
    if ns == [] then [] else NamesIf(ns[0], local) + NamesWithin(ns[1..], local)
  }

  predicate HasChild(ns: seq<Node>, local: string) {
    exists n | n in ns :: n.Element? && Is(n.name, local)
  }

  /** What a PROPFIND document asks for, read off its tree. */
  function PropfindOf(root: Node): Result<Propfind, BodyError>
    requires root.Element?
  {
    var ns := root.children;
    var req := Propfind(HasChild(ns, "allprop"), HasChild(ns, "propname"),
                        NamesWithin(ns, "prop"), NamesWithin(ns, "include"));
    if !Is(root.name, "propfind") then Err(BadBody)
    else if !req.allprop && !req.propname && req.names == [] then Err(BadBody)
    else Ok(req)
  }

  /** Nothing but text and asides changes nothing. */
  lemma {:induction false} FindPasses(ns: seq<Node>, rest: seq<Token>, clean: bool, st: FindState)
    requires NoElements(ns)
    ensures FindRun(FlattenAll(ns) + rest, clean, st) == FindRun(rest, clean, st)
  {
    if ns == [] {
      assert FlattenAll(ns) + rest == rest;
    } else {
      FlattenCons(ns, rest);
      assert !ns[0].Element?;
      assert (FlattenAll(ns) + rest)[1..] == FlattenAll(ns[1..]) + rest;
      FindPasses(ns[1..], rest, clean, st);
    }
  }

  function Gathered(st: FindState, found: seq<Name>): FindState {
    if st.inProp then st.(req := st.req.(names := st.req.names + found))
    else st.(req := st.req.(included := st.req.included + found))
  }

  function NameOf(n: Node): seq<Name> {
    if n.Element? then [n.name] else []
  }

  lemma FindGathersOne(n: Node, tail: seq<Token>, clean: bool, st: FindState)
    requires st.seenRoot && st.inProp != st.inInclude
    ensures FindRun(Flatten(n) + tail, clean, st) == FindRun(tail, clean, Gathered(st, NameOf(n)))
  {
    if n.Element? {
      SkipElement(n.name, n.children, tail);
      assert st.(req := Record(st, n.name)) == Gathered(st, NameOf(n));
    } else {
      assert (Flatten(n) + tail)[1..] == tail;
      assert Gathered(st, []) == st;
    }
  }

  lemma GatheredTwice(st: FindState, a: seq<Name>, b: seq<Name>)
    ensures Gathered(Gathered(st, a), b) == Gathered(st, a + b)
  {
    assert st.req.names + a + b == st.req.names + (a + b);
    assert st.req.included + a + b == st.req.included + (a + b);
  }

  /** Inside prop or include every child element gives its name and is skipped whole. */
  lemma {:induction false} FindGathers(ns: seq<Node>, rest: seq<Token>, clean: bool, st: FindState)
    requires st.seenRoot && st.inProp != st.inInclude
    ensures FindRun(FlattenAll(ns) + rest, clean, st) == FindRun(rest, clean, Gathered(st, ElementNames(ns)))
    decreases |ns|
  {
    hide FindRun;
    if ns == [] {
      assert FlattenAll(ns) + rest == rest;
      assert Gathered(st, []) == st;
    } else {
      var next := Gathered(st, NameOf(ns[0]));
      FlattenCons(ns, rest);
      FindGathersOne(ns[0], FlattenAll(ns[1..]) + rest, clean, st);
      FindGathers(ns[1..], rest, clean, next);
      GatheredTwice(st, NameOf(ns[0]), ElementNames(ns[1..]));
    }
  }

  function Merge(a: Propfind, b: Propfind): Propfind {
    Propfind(a.allprop || b.allprop, a.propname || b.propname, a.names + b.names, a.included + b.included)
  }

  lemma MergeTwice(a: Propfind, b: Propfind, c: Propfind)
    ensures Merge(Merge(a, b), c) == Merge(a, Merge(b, c))
  {
    assert a.names + b.names + c.names == a.names + (b.names + c.names);
    assert a.included + b.included + c.included == a.included + (b.included + c.included);
  }

  const NO_REQUEST := Propfind(false, false, [], [])

  /** What one child of the root asks for. */
  function FromChild(n: Node): Propfind {
    Propfind(n.Element? && Is(n.name, "allprop"), n.Element? && Is(n.name, "propname"),
             NamesIf(n, "prop"), NamesIf(n, "include"))
  }

  function FromChildren(ns: seq<Node>): Propfind {
    if ns == [] then NO_REQUEST else Merge(FromChild(ns[0]), FromChildren(ns[1..]))
  }

  predicate AtRoot(st: FindState) {
    st.seenRoot && !st.inProp && !st.inInclude
  }

  lemma FindChild(n: Node, rest: seq<Token>, clean: bool, st: FindState)
    requires AtRoot(st)
    ensures FindRun(Flatten(n) + rest, clean, st) ==
            FindRun(rest, clean, st.(req := Merge(st.req, FromChild(n))))
  {
    var toks := Flatten(n) + rest;
    assert st.req.names + [] == st.req.names && st.req.included + [] == st.req.included;
    if !n.Element? {
      assert toks[1..] == rest;
    } else if Opens(st, n.name) {
      var inside := Descend(st, n.name);
      var end := [End(n.name)] + rest;
      assert toks[1..] == FlattenAll(n.children) + end;
      FindGathers(n.children, end, clean, inside);
      assert end[1..] == rest;
      assert Ascend(Gathered(inside, ElementNames(n.children)), n.name) == st.(req := Merge(st.req, FromChild(n)));
    } else {
      SkipElement(n.name, n.children, rest);
    }
  }

  lemma {:induction false} FindChildren(ns: seq<Node>, rest: seq<Token>, clean: bool, st: FindState)
    requires AtRoot(st)
    ensures FindRun(FlattenAll(ns) + rest, clean, st) ==
            FindRun(rest, clean, st.(req := Merge(st.req, FromChildren(ns))))
    decreases |ns|
  {
    hide FindRun;
    if ns == [] {
      assert FlattenAll(ns) + rest == rest;
      assert st.req.names + [] == st.req.names && st.req.included + [] == st.req.included;
    } else {
      FlattenCons(ns, rest);
      FindChild(ns[0], FlattenAll(ns[1..]) + rest, clean, st);
      FindChildren(ns[1..], rest, clean, st.(req := Merge(st.req, FromChild(ns[0]))));
      MergeTwice(st.req, FromChild(ns[0]), FromChildren(ns[1..]));
    }
  }

  lemma {:induction false} ChildrenRead(ns: seq<Node>)
    ensures FromChildren(ns) == Propfind(HasChild(ns, "allprop"), HasChild(ns, "propname"),
                                         NamesWithin(ns, "prop"), NamesWithin(ns, "include"))
  {
    if ns != [] {
      ChildrenRead(ns[1..]);
      HasChildCons(ns, "allprop");
      HasChildCons(ns, "propname");
    }
  }

  lemma HasChildCons(ns: seq<Node>, local: string)
    requires ns != []
    ensures HasChild(ns, local) <==> (ns[0].Element? && Is(ns[0].name, local)) || HasChild(ns[1..], local)
  {
    assert ns == [ns[0]] + ns[1..];
    if ns[0].Element? && Is(ns[0].name, local) {
      assert ns[0] in ns;
    }
    if HasChild(ns[1..], local) {
      var n :| n in ns[1..] && n.Element? && Is(n.name, local);
      assert n in ns;
    }
  }

  /**
   The loop over the stream of a document computes what its tree says: the child names of each
   DAV: prop and include child of the root, in document order, and nothing from deeper down.
   */
  lemma PropfindReadsTree(doc: Document)
    requires WellFormed(doc)
    ensures FindResult(FindRun(Stream(doc), true, FIND_START)) == PropfindOf(doc.root)
  {
    var root, after := doc.root, FlattenAll(doc.after);
    FindPasses(doc.before, Flatten(root) + after, true, FIND_START);
    var toks := Flatten(root) + after;
    var end := [End(root.name)] + after;
    assert toks[0] == Start(root.name) && toks[1..] == FlattenAll(root.children) + end;
    if Is(root.name, "propfind") {
      var st := FIND_START.(seenRoot := true);
      FindChildren(root.children, end, true, st);
      ChildrenRead(root.children);
      var done := st.(req := Merge(st.req, FromChildren(root.children)));
      assert end[1..] == after && Ascend(done, root.name) == done;
      assert forall found: seq<Name> :: [] + found == found;
      FindPasses(doc.after, [], true, done);
      assert after + [] == after;
    }
  }

  /** A body with no element at all asks for allprop. */
  lemma PropfindEmptyBody(ns: seq<Node>)
    requires NoElements(ns)
    ensures FindResult(FindRun(FlattenAll(ns), true, FIND_START)) == Ok(Propfind(true, false, [], []))
  {
    FindPasses(ns, [], true, FIND_START);
    assert FlattenAll(ns) + [] == FlattenAll(ns);
  }

  /** A stream that ends in an error is always refused. */
  lemma {:induction false} FindNeedsCleanEnd(toks: seq<Token>, st: FindState)
    ensures FindRun(toks, false, st).Err?
    decreases |toks|
  {
    if toks != [] {
      match toks[0] {
        case Start(name) =>
          var rest := Skip(toks[1..], 0);
          FindNeedsCleanEnd(toks[1..], st.(seenRoot := true));
          FindNeedsCleanEnd(toks[1..], Descend(st, name));
          if rest.Some? {
            FindNeedsCleanEnd(rest.value, st.(req := Record(st, name)));
          }
        case End(name) => FindNeedsCleanEnd(toks[1..], Ascend(st, name));
        case _ => FindNeedsCleanEnd(toks[1..], st);
      }
    }
  }

  // -------------------------------------------------------------------------
  // parseProppatch
  // -------------------------------------------------------------------------

  datatype PatchState = PatchState(names: seq<Name>, inProp: bool, seenRoot: bool)

  const PATCH_START := PatchState([], false, false)

  function PatchRun(toks: seq<Token>, clean: bool, st: PatchState): Result<PatchState, BodyError>
    decreases |toks|
  {
    if toks == [] then (if clean then Ok(st) else Err(Malformed))
    else
      match toks[0]
      case Start(name) =>
        if !st.seenRoot then
          if Is(name, "propertyupdate") then PatchRun(toks[1..], clean, st.(seenRoot := true)) else Err(BadBody)
        else if !st.inProp && Is(name, "prop") then PatchRun(toks[1..], clean, st.(inProp := true))
        else if !st.inProp && (Is(name, "set") || Is(name, "remove")) then PatchRun(toks[1..], clean, st)
        else
          var rest := Skip(toks[1..], 0);
          if rest.None? then Err(Malformed)
          else PatchRun(rest.value, clean, if st.inProp then st.(names := st.names + [name]) else st)
      case End(name) => PatchRun(toks[1..], clean, if Is(name, "prop") then st.(inProp := false) else st)
      case _ => PatchRun(toks[1..], clean, st)
  }

  function PatchResult(r: Result<PatchState, BodyError>): Result<seq<Name>, BodyError> {
    match r
    case Err(e) => Err(e)
    case Ok(st) => if st.seenRoot then Ok(st.names) else Err(BadBody)
  }

  method ParseProppatch(input: Input) returns (r: Result<seq<Name>, BodyError>)
    ensures r == PatchResult(PatchRun(input.tokens, input.clean, PATCH_START))
  {
    var toks := input.tokens;
    var names := [];
    var inProp, seenRoot := false, false;
    while toks != []
      invariant PatchRun(toks, input.clean, PatchState(names, inProp, seenRoot)) ==
                PatchRun(input.tokens, input.clean, PATCH_START)
      decreases |toks|
    {
      var tok := toks[0];
      toks := toks[1..];
      match tok {
        case Start(name) =>
          if !seenRoot {
            if name.space != DAV || name.local != "propertyupdate" {
              return Err(BadBody);
            }
            seenRoot := true;
            continue;
          }
          if inProp {
            names := names + [name];
          } else if name.space == DAV {
            if name.local == "prop" {
              inProp := true;
              continue;
            } else if name.local == "set" || name.local == "remove" {
              continue;
            }
          }
          var rest := Skip(toks, 0);
          if rest.None? {
            return Err(Malformed);
          }
          toks := rest.value;
        case End(name) =>
          if name.space == DAV && name.local == "prop" {
            inProp := false;
          }
        case _ =>
      }
    }
    if !input.clean {
      return Err(Malformed);
    }
    if !seenRoot {
      return Err(BadBody);
    }
    r := Ok(names);
  }

  /** The names in every DAV: prop that is reached through nothing but DAV: set and remove. */
  function PatchNames(ns: seq<Node>): seq<Name>
    decreases ns
  {
    if ns == [] then []
    else
      (match ns[0]
       case Element(name, children) =>
         if Is(name, "prop") then ElementNames(children)
         else if Is(name, "set") || Is(name, "remove") then PatchNames(children)
         else []
       case _ => []) + PatchNames(ns[1..])
  }

  lemma {:induction false} PatchPasses(ns: seq<Node>, rest: seq<Token>, st: PatchState)
    requires NoElements(ns)
    ensures PatchRun(FlattenAll(ns) + rest, true, st) == PatchRun(rest, true, st)
  {
    if ns == [] {
      assert FlattenAll(ns) + rest == rest;
    } else {
      FlattenCons(ns, rest);
      assert !ns[0].Element?;
      assert (FlattenAll(ns) + rest)[1..] == FlattenAll(ns[1..]) + rest;
      PatchPasses(ns[1..], rest, st);
    }
  }

  lemma NamesTwice(a: seq<Name>, b: seq<Name>, c: seq<Name>)
    ensures a + b + c == a + (b + c)
  {
  }

  lemma PatchGathersOne(n: Node, tail: seq<Token>, st: PatchState)
    requires st.seenRoot && st.inProp
    ensures PatchRun(Flatten(n) + tail, true, st) ==
            PatchRun(tail, true, st.(names := st.names + NameOf(n)))
  {
    if n.Element? {
      SkipElement(n.name, n.children, tail);
    } else {
      assert (Flatten(n) + tail)[1..] == tail;
      assert st.names + [] == st.names;
    }
  }

  lemma {:induction false} PatchGathers(ns: seq<Node>, rest: seq<Token>, st: PatchState)
    requires st.seenRoot && st.inProp
    ensures PatchRun(FlattenAll(ns) + rest, true, st) ==
            PatchRun(rest, true, st.(names := st.names + ElementNames(ns)))
    decreases |ns|
  {
    hide PatchRun;
    if ns == [] {
      assert FlattenAll(ns) + rest == rest;
      assert st.names + [] == st.names;
    } else {
      var found := NameOf(ns[0]);
      FlattenCons(ns, rest);
      PatchGathersOne(ns[0], FlattenAll(ns[1..]) + rest, st);
      PatchGathers(ns[1..], rest, st.(names := st.names + found));
      NamesTwice(st.names, found, ElementNames(ns[1..]));
    }
  }

  lemma {:induction false} PatchChildren(ns: seq<Node>, rest: seq<Token>, st: PatchState)
    requires st.seenRoot && !st.inProp
    ensures PatchRun(FlattenAll(ns) + rest, true, st) ==
            PatchRun(rest, true, st.(names := st.names + PatchNames(ns)))
    decreases ns, 1
  {
    hide PatchRun, PatchNames;
    if ns == [] {
      PatchNamesOfNone(ns);
      assert FlattenAll(ns) + rest == rest;
      assert st.names + [] == st.names;
    } else {
      var tail := FlattenAll(ns[1..]) + rest;
      FlattenCons(ns, rest);
      var found := PatchOne(ns, tail, st);
      PatchChildren(ns[1..], rest, st.(names := st.names + found));
      assert st.names + found + PatchNames(ns[1..]) == st.names + PatchNames(ns);
    }
  }

  lemma PatchNamesOfNone(ns: seq<Node>)
    requires ns == []
    ensures PatchNames(ns) == []
  {
  }

  lemma {:induction false} PatchOne(ns: seq<Node>, tail: seq<Token>, st: PatchState) returns (found: seq<Name>)
    requires ns != [] && st.seenRoot && !st.inProp
    ensures PatchNames(ns) == found + PatchNames(ns[1..])
    ensures PatchRun(Flatten(ns[0]) + tail, true, st) == PatchRun(tail, true, st.(names := st.names + found))
    decreases ns, 0
  {
    var n, toks := ns[0], Flatten(ns[0]) + tail;
    found := [];
    assert st.names + [] == st.names;
    if !n.Element? {
      assert toks[1..] == tail;
    } else {
      var end := [End(n.name)] + tail;
      assert toks[1..] == FlattenAll(n.children) + end && end[1..] == tail;
      if Is(n.name, "prop") {
        found := ElementNames(n.children);
        PatchGathers(n.children, end, st.(inProp := true));
      } else if Is(n.name, "set") || Is(n.name, "remove") {
        found := PatchNames(n.children);
        PatchChildren(n.children, end, st);
      } else {
        SkipElement(n.name, n.children, tail);
      }
    }
  }

  /** The loop over the stream of a document computes what its tree says. */
  lemma ProppatchReadsTree(doc: Document)
    requires WellFormed(doc)
    ensures PatchResult(PatchRun(Stream(doc), true, PATCH_START)) ==
            if Is(doc.root.name, "propertyupdate") then Ok(PatchNames(doc.root.children)) else Err(BadBody)
  {
    var root, after := doc.root, FlattenAll(doc.after);
    PatchPasses(doc.before, Flatten(root) + after, PATCH_START);
    var toks := Flatten(root) + after;
    var end := [End(root.name)] + after;
    assert toks[0] == Start(root.name) && toks[1..] == FlattenAll(root.children) + end;
    if Is(root.name, "propertyupdate") {
      var st := PATCH_START.(seenRoot := true);
      PatchChildren(root.children, end, st);
      var done := st.(names := st.names + PatchNames(root.children));
      assert end[1..] == after;
      PatchPasses(doc.after, [], done);
      assert after + [] == after;
      assert st.names + PatchNames(root.children) == PatchNames(root.children);
    }
  }

  /** A body with no element at all is refused. */
  lemma ProppatchEmptyBody(ns: seq<Node>)
    requires NoElements(ns)
    ensures PatchResult(PatchRun(FlattenAll(ns), true, PATCH_START)) == Err(BadBody)
  {
    PatchPasses(ns, [], PATCH_START);
    assert FlattenAll(ns) + [] == FlattenAll(ns);
  }

  /** A stream that ends in an error is always refused. */
  lemma {:induction false} PatchNeedsCleanEnd(toks: seq<Token>, st: PatchState)
    ensures PatchRun(toks, false, st).Err?
    decreases |toks|
  {
    if toks != [] {
      match toks[0] {
        case Start(name) =>
          var rest := Skip(toks[1..], 0);
          PatchNeedsCleanEnd(toks[1..], st.(seenRoot := true));
          PatchNeedsCleanEnd(toks[1..], st.(inProp := true));
          PatchNeedsCleanEnd(toks[1..], st);
          if rest.Some? {
            PatchNeedsCleanEnd(rest.value, if st.inProp then st.(names := st.names + [name]) else st);
          }
        case End(name) => PatchNeedsCleanEnd(toks[1..], if Is(name, "prop") then st.(inProp := false) else st);
        case _ => PatchNeedsCleanEnd(toks[1..], st);
      }
    }
  }
}
