/**
 Resource paths (`path.go`).

 A Go string is a sequence of bytes; here each byte is the `char` with that code.
 The string functions below are the ones the server runs.  Their meaning is given on
 component lists (`Path`): the list of names a canonical path spells.
 */
module Paths {
  import opened Wrappers

  /** The meaning of a canonical path: its names, outermost first. */
  type Path = seq<string>

  const MAX_PATH := 4096
  const NUL: char := 0 as char

  /** A name that a canonical path may contain between two slashes. */
  predicate IsName(c: string) {
    c != "" && c != "." && c != ".." && '/' !in c
  }

  predicate IsPath(cs: Path) {
    forall c | c in cs :: IsName(c)
  }

  // -------------------------------------------------------------------------
  // strings.Split and strings.Join
  // -------------------------------------------------------------------------

  function Split(s: string, sep: char := '/'): (parts: seq<string>)
    ensures |parts| > 0
    ensures forall c | c in parts :: sep !in c
  {
    if s == "" then [""] else Attach(s[0], Split(s[1..], sep), sep)
  }

  /** Puts one more character in front of parts already split. */
  function Attach(c: char, parts: seq<string>, sep: char): seq<string>
    requires |parts| > 0
  {
    if c == sep then [""] + parts else [[c] + parts[0]] + parts[1..]
  }

  function JoinSlash(parts: seq<string>): string {
    if |parts| == 0 then ""
    else if |parts| == 1 then parts[0]
    else parts[0] + "/" + JoinSlash(parts[1..])
  }

  lemma {:induction false} SplitAlone(s: string, sep: char := '/')
    requires sep !in s
    ensures Split(s, sep) == [s]
  {
    if s != "" {
      SplitAlone(s[1..], sep);
      assert [s[0]] + s[1..] == s;
    }
  }

  lemma AttachConcat(c: char, a: seq<string>, b: seq<string>)
    requires |a| > 0
    ensures Attach(c, a + b, '/') == Attach(c, a, '/') + b
  {
    assert (a + b)[0] == a[0] && (a + b)[1..] == a[1..] + b;
  }

  lemma {:induction false} SplitConcat(a: string, b: string)
    ensures Split(a + "/" + b) == Split(a) + Split(b)
  {
    var whole := a + "/" + b;
    if a == "" {
      assert whole[1..] == b && whole[0] == '/';
    } else {
      assert whole[1..] == a[1..] + "/" + b && whole[0] == a[0];
      SplitConcat(a[1..], b);
      AttachConcat(a[0], Split(a[1..]), Split(b));
    }
  }

  lemma {:induction false} SplitJoin(parts: seq<string>)
    requires |parts| > 0
    requires forall c | c in parts :: '/' !in c
    ensures Split(JoinSlash(parts)) == parts
  {
    SplitAlone(parts[0]);
    if |parts| > 1 {
      SplitJoin(parts[1..]);
      SplitConcat(parts[0], JoinSlash(parts[1..]));
      assert [parts[0]] + parts[1..] == parts;
    } else {
      assert parts == [parts[0]];
    }
  }

  lemma {:induction false} JoinConcat(a: seq<string>, b: seq<string>)
    requires a != [] && b != []
    ensures JoinSlash(a + b) == JoinSlash(a) + "/" + JoinSlash(b)
  {
    if |a| == 1 {
      assert (a + b)[1..] == b;
    } else {
      JoinConcat(a[1..], b);
      assert (a + b)[1..] == a[1..] + b;
      calc {
        JoinSlash(a + b);
        a[0] + "/" + (JoinSlash(a[1..]) + "/" + JoinSlash(b));
        (a[0] + "/" + JoinSlash(a[1..])) + "/" + JoinSlash(b);
      }
    }
  }

  // -------------------------------------------------------------------------
  // cleanPath
  // -------------------------------------------------------------------------

  /** One turn of cleanPath's loop: ".." pops, clamped at the root; names push. */
  function Push(out: Path, part: string): Path {
    if part == "" || part == "." then out
    else if part == ".." then (if |out| > 0 then out[..|out| - 1] else out)
    else out + [part]
  }

  function Resolve(parts: seq<string>, out: Path): Path {
    if parts == [] then out else Resolve(parts[1..], Push(out, parts[0]))
  }

  /** The names a path resolves to, whether or not it is canonical. */
  function Comps(p: string): Path {
    Resolve(Split(p), [])
  }

  /** The one spelling of a component list that the server uses. */
  function Render(cs: Path): string {
    "/" + JoinSlash(cs)
  }

  function Clean(p: string): string {
    Render(Comps(p))
  }

  predicate Canonical(p: string) {
    p == Clean(p)
  }

  method CleanPath(p: string) returns (r: string)
    ensures r == Clean(p)
  {
    var out: Path := [];
    var parts := Split(p);
    var i := 0;
    while i < |parts|
      invariant 0 <= i <= |parts|
      invariant Resolve(parts[i..], out) == Comps(p)
    {
      var part := parts[i];
      if part == "" || part == "." {
      } else if part == ".." {
        if |out| > 0 {
          out := out[..|out| - 1];
        }
      } else {
        out := out + [part];
      }
      assert parts[i..][1..] == parts[i + 1..];
      i := i + 1;
    }
    r := "/" + JoinSlash(out);
  }

  lemma {:induction false} ResolveConcat(a: seq<string>, b: seq<string>, out: Path)
    ensures Resolve(a + b, out) == Resolve(b, Resolve(a, out))
  {
    if a == [] {
      assert a + b == b;
    } else {
      assert (a + b)[1..] == a[1..] + b;
      ResolveConcat(a[1..], b, Push(out, a[0]));
    }
  }

  lemma {:induction false} ResolveNames(cs: Path, out: Path)
    requires IsPath(cs)
    ensures Resolve(cs, out) == out + cs
  {
    if cs == [] {
      assert out + cs == out;
    } else {
      assert IsName(cs[0]);
      ResolveNames(cs[1..], out + [cs[0]]);
      assert out + [cs[0]] + cs[1..] == out + cs;
    }
  }

  lemma {:induction false} ResolveIsPath(parts: seq<string>, out: Path)
    requires IsPath(out)
    requires forall c | c in parts :: '/' !in c
    ensures IsPath(Resolve(parts, out))
  {
    if parts != [] {
      assert '/' !in parts[0];
      ResolveIsPath(parts[1..], Push(out, parts[0]));
    }
  }

  lemma CompsIsPath(p: string)
    ensures IsPath(Comps(p))
  {
    ResolveIsPath(Split(p), []);
  }

  lemma SplitRender(cs: Path)
    requires IsPath(cs)
    ensures Split(Render(cs)) == [""] + (if cs == [] then [""] else cs)
  {
    SplitConcat("", JoinSlash(cs));
    assert "" + "/" + JoinSlash(cs) == Render(cs);
    if cs != [] {
      SplitJoin(cs);
    }
  }

  /** A component list is read back from its spelling, so `Render` is injective on names. */
  lemma CompsRender(cs: Path)
    requires IsPath(cs)
    ensures Comps(Render(cs)) == cs
  {
    SplitRender(cs);
    if cs != [] {
      ResolveConcat([""], cs, []);
      ResolveNames(cs, []);
      assert Resolve([""], []) == [];
      assert [] + cs == cs;
    } else {
      assert [""] + [""] == ["", ""];
      assert ["", ""][1..] == [""];
    }
  }

  lemma RootIsEmpty()
    ensures Render([]) == "/" && Comps("/") == [] && Canonical("/")
  {
    CompsRender([]);
    assert Render([]) == "/";
  }

  /** Every result of cleanPath is canonical, and a canonical path is a fixed point. */
  lemma CleanCanonical(p: string)
    ensures Canonical(Clean(p))
    ensures Comps(Clean(p)) == Comps(p)
  {
    CompsIsPath(p);
    CompsRender(Comps(p));
  }

  lemma CanonicalSpelling(p: string)
    requires Canonical(p)
    ensures Render(Comps(p)) == p && IsPath(Comps(p))
  {
    CompsIsPath(p);
  }

  lemma CanonicalIffRendered(p: string)
    ensures Canonical(p) <==> exists cs :: IsPath(cs) && p == Render(cs)
  {
    CompsIsPath(p);
    if cs :| IsPath(cs) && p == Render(cs) {
      CompsRender(cs);
    }
  }

  /** Cleaning a prefix first changes nothing: "a" may be resolved before "b" is appended. */
  lemma CleanCompose(a: string, b: string)
    ensures Clean(Clean(a) + "/" + b) == Clean(a + "/" + b)
  {
    SplitConcat(Clean(a), b);
    SplitConcat(a, b);
    ResolveConcat(Split(Clean(a)), Split(b), []);
    ResolveConcat(Split(a), Split(b), []);
    CleanCanonical(a);
  }

  // An independent reading of a path: the net number of steps up and the names that stay,
  // computed from the far end with a counter and no stack.

  datatype Walk = Walk(ups: nat, names: Path)

  function Net(parts: seq<string>): Walk {
    if parts == [] then Walk(0, []) else NetStep(parts[0], Net(parts[1..]))
  }

  function NetStep(part: string, rest: Walk): Walk {
    if part == "" || part == "." then rest
    else if part == ".." then Walk(rest.ups + 1, rest.names)
    else if rest.ups > 0 then Walk(rest.ups - 1, rest.names)
    else Walk(0, [part] + rest.names)
  }

  function Drop(cs: Path, ups: nat): Path {
    if ups <= |cs| then cs[..|cs| - ups] else []
  }

  /** One component: pushing it and then walking the rest is walking from where it stands. */
  lemma PushIsOneStep(part: string, rest: Walk, out: Path)
    ensures var walk := NetStep(part, rest);
            Drop(Push(out, part), rest.ups) + rest.names == Drop(out, walk.ups) + walk.names
  {
    if IsStep(part) {
      if rest.ups == 0 {
        assert out[..|out|] == out && (out + [part])[..|out| + 1] == out + [part];
        assert out + [part] + rest.names == out + ([part] + rest.names);
      } else if rest.ups <= |out| + 1 {
        assert (out + [part])[..|out| + 1 - rest.ups] == out[..|out| - (rest.ups - 1)];
      }
    } else if part == ".." && |out| > 0 && rest.ups < |out| {
      assert out[..|out| - 1][..|out| - 1 - rest.ups] == out[..|out| - (rest.ups + 1)];
    }
  }

  /** The clamped stack machine applies the net walk to the directory it starts in. */
  lemma {:induction false} ResolveIsNetWalk(parts: seq<string>, out: Path)
    ensures Resolve(parts, out) == Drop(out, Net(parts).ups) + Net(parts).names
  {
    hide Push, NetStep, Drop;
    if parts == [] {
      NoSteps(out);
    } else {
      ResolveIsNetWalk(parts[1..], Push(out, parts[0]));
      PushIsOneStep(parts[0], Net(parts[1..]), out);
    }
  }

  lemma NoSteps(out: Path)
    ensures Drop(out, 0) + [] == out
  {
    assert out[..|out|] + [] == out;
  }

  predicate IsStep(part: string) {
    part != "" && part != "." && part != ".."
  }

  // -------------------------------------------------------------------------
  // parentOf, join, under
  // -------------------------------------------------------------------------

  /** strings.LastIndexByte */
  function LastIndex(s: string, c: char): (i: int)
    ensures -1 <= i < |s|
  {
    if s == "" then -1
    else if s[|s| - 1] == c then |s| - 1
    else LastIndex(s[..|s| - 1], c)
  }

  function ParentOf(p: string): string {
    var i := LastIndex(p, '/');
    if i <= 0 then "/" else p[..i]
  }

  function Join(dir: string, name: string): string {
    if dir == "/" then "/" + name else dir + "/" + name
  }

  predicate HasPrefix(s: string, prefix: string) {
    |prefix| <= |s| && s[..|prefix|] == prefix
  }

  predicate Under(parent: string, p: string) {
    parent == "/" || p == parent || HasPrefix(p, parent + "/")
  }

  predicate StrictlyUnder(parent: string, p: string) {
    p != parent && Under(parent, p)
  }

  /** All but the last name; the root is its own parent. */
  function Parent(cs: Path): Path {
    if cs == [] then [] else cs[..|cs| - 1]
  }

  lemma PrefixesNest(a: Path, b: Path, p: Path)
    requires a <= p && b <= p && |a| <= |b|
    ensures a <= b
  {
    assert a == p[..|a|] && b == p[..|b|];
    assert p[..|b|][..|a|] == p[..|a|];
  }

  /** Neither path lies under the other. */
  predicate Diverge(a: Path, b: Path) {
    !(a <= b) && !(b <= a)
  }

  lemma NothingUnderBoth(a: Path, b: Path, q: Path)
    requires Diverge(a, b) && a <= q
    ensures !(b <= q)
  {
    if b <= q {
      if |a| <= |b| {
        PrefixesNest(a, b, q);
      } else {
        PrefixesNest(b, a, q);
      }
    }
  }

  lemma {:induction false} LastIndexAfter(a: string, c: char, b: string)
    requires c !in b
    ensures LastIndex(a + [c] + b, c) == |a|
  {
    var s := a + [c] + b;
    if b == "" {
      assert s[|s| - 1] == c;
    } else {
      assert s[|s| - 1] == b[|b| - 1];
      assert s[..|s| - 1] == a + [c] + b[..|b| - 1];
      LastIndexAfter(a, c, b[..|b| - 1]);
    }
  }

  lemma {:induction false} JoinSlashNonempty(cs: Path)
    requires IsPath(cs)
    ensures JoinSlash(cs) == "" <==> cs == []
  {
    if cs != [] {
      assert IsName(cs[0]);
    }
  }

  lemma JoinRender(cs: Path, n: string)
    requires IsPath(cs) && IsName(n)
    ensures Join(Render(cs), n) == Render(cs + [n])
    ensures IsPath(cs + [n])
  {
    JoinSlashNonempty(cs);
    if cs == [] {
      assert cs + [n] == [n];
    } else {
      JoinConcat(cs, [n]);
      assert Render(cs) != "/";
      assert Render(cs) + "/" + n == "/" + (JoinSlash(cs) + "/" + n);
    }
  }

  lemma ParentRender(cs: Path)
    requires IsPath(cs)
    ensures ParentOf(Render(cs)) == Render(Parent(cs))
  {
    if cs == [] {
      assert LastIndex("/", '/') == 0;
    } else {
      var d, n := cs[..|cs| - 1], cs[|cs| - 1];
      assert cs == d + [n];
      assert IsName(n);
      JoinRender(d, n);
      if d == [] {
        assert Render(cs) == "" + ['/'] + n;
        LastIndexAfter("", '/', n);
      } else {
        JoinSlashNonempty(d);
        assert Render(cs) == Render(d) + ['/'] + n;
        LastIndexAfter(Render(d), '/', n);
      }
    }
  }

  lemma UnderMeansPrefix(a: Path, b: Path)
    requires IsPath(a) && IsPath(b) && a != []
    requires HasPrefix(Render(b), Render(a) + "/")
    ensures a <= b
  {
    var ra, rb := Render(a), Render(b);
    var rest := rb[|ra| + 1..];
    assert rb == ra + "/" + rest;
    var tail := Split(rest);
    assert Split(rb) == Split(ra) + tail by {
      SplitConcat(ra, rest);
    }
    SplitRender(a);
    SplitRender(b);
    assert b != [] by {
      assert |rb| > 1;
    }
    assert [""] + b == ([""] + a) + tail;
    assert b == ([""] + b)[1..] == (([""] + a) + tail)[1..] == a + tail;
  }

  lemma PrefixMeansUnder(a: Path, b: Path)
    requires IsPath(a) && IsPath(b) && a != [] && a < b
    ensures HasPrefix(Render(b), Render(a) + "/")
  {
    var c := b[|a|..];
    assert b == a + c;
    JoinConcat(a, c);
    assert Render(b) == (Render(a) + "/") + JoinSlash(c);
  }

  lemma UnderRender(a: Path, b: Path)
    requires IsPath(a) && IsPath(b)
    ensures Under(Render(a), Render(b)) <==> a <= b
  {
    JoinSlashNonempty(a);
    CompsRender(a);
    CompsRender(b);
    if a != [] && a != b {
      if HasPrefix(Render(b), Render(a) + "/") {
        UnderMeansPrefix(a, b);
      }
      if a <= b {
        PrefixMeansUnder(a, b);
      }
    }
  }

  /** On canonical paths the string code is the component algebra. */
  lemma StringsAreComponents(p: string, q: string, n: string)
    requires Canonical(p) && Canonical(q) && IsName(n)
    ensures Under(p, q) <==> Comps(p) <= Comps(q)
    ensures StrictlyUnder(p, q) <==> Comps(p) < Comps(q)
    ensures Comps(p) < Comps(q) <==> Comps(p) <= Comps(q) && p != q
    ensures Canonical(ParentOf(p)) && Comps(ParentOf(p)) == Parent(Comps(p))
    ensures Canonical(Join(p, n)) && Comps(Join(p, n)) == Comps(p) + [n]
    ensures ParentOf(Join(p, n)) == p
  {
    var a, b := Comps(p), Comps(q);
    CompsIsPath(p);
    CompsIsPath(q);
    UnderRender(a, b);
    if p != q {
      assert a != b;
    }
    assert StrictlyUnder(p, q) <==> a <= b && a != b;
    ParentRender(a);
    CompsRender(Parent(a));
    JoinRender(a, n);
    CompsRender(a + [n]);
    ParentRender(a + [n]);
    assert Parent(a + [n]) == a;
  }

  /** `under` is a partial order on canonical paths with the root below everything. */
  lemma UnderPartialOrder(p: string, q: string, r: string)
    requires Canonical(p) && Canonical(q) && Canonical(r)
    ensures Under(p, p) && Under("/", p) && Canonical("/")
    ensures Under(p, q) && Under(q, p) ==> p == q
    ensures Under(p, q) && Under(q, r) ==> Under(p, r)
    ensures Under(p, "/") <==> p == "/"
  {
    RootIsEmpty();
    StringsAreComponents(p, q, "n");
    StringsAreComponents(q, p, "n");
    StringsAreComponents(q, r, "n");
    StringsAreComponents(p, r, "n");
    StringsAreComponents(p, "/", "n");
  }

  /** Climbing with parentOf gets to the root: every step off it is shorter. */
  lemma ParentShorter(p: string)
    requires Canonical(p) && p != "/"
    ensures |ParentOf(p)| < |p|
  {
    var a := Comps(p);
    CompsIsPath(p);
    JoinSlashNonempty(a);
    var d, n := a[..|a| - 1], a[|a| - 1];
    assert a == d + [n];
    assert IsName(n);
    JoinRender(d, n);
    ParentRender(a);
  }

  // -------------------------------------------------------------------------
  // resource
  // -------------------------------------------------------------------------

  /** The prefixes WithPrefix accepts (server.go:129); the empty one means none. */
  predicate PrefixAccepted(prefix: string) {
    prefix == "" || (prefix[0] == '/' && prefix[|prefix| - 1] != '/' && Canonical(prefix))
  }

  function Bounded(p: string): Option<string> {
    var c := Clean(p);
    if |c| > MAX_PATH then None else Some(c)
  }

  function Resource(prefix: string, p: string): Option<string> {
    if NUL in p then None
    else if prefix == "" then Bounded(p)
    else if p == prefix then Bounded("/")
    else if HasPrefix(p, prefix + "/") then Bounded(p[|prefix|..])
    else None
  }

  /** A request path reaches only canonical, bounded, NUL-free paths, and only through the prefix. */
  lemma ResourceContained(prefix: string, p: string)
    requires Resource(prefix, p).Some?
    ensures Canonical(Resource(prefix, p).value)
    ensures IsPath(Comps(Resource(prefix, p).value))
    ensures |Resource(prefix, p).value| <= MAX_PATH
    ensures NUL !in Resource(prefix, p).value
    ensures prefix != "" ==> p == prefix || HasPrefix(p, prefix + "/")
  {
    var tail := if prefix == "" then p else if p == prefix then "/" else p[|prefix|..];
    CleanCanonical(tail);
    CompsIsPath(Clean(tail));
    CleanKeepsAbsence(tail, NUL);
  }

  lemma {:induction false} SplitAbsence(s: string, c: char)
    requires c !in s
    ensures forall part | part in Split(s) :: c !in part
  {
    if s != "" {
      SplitAbsence(s[1..], c);
      var rest := Split(s[1..]);
      assert s[0] != c;
      forall part | part in Split(s)
        ensures c !in part
      {
        if s[0] != '/' && part !in rest[1..] {
          assert part == [s[0]] + rest[0];
          assert rest[0] in rest;
        }
      }
    }
  }

  lemma {:induction false} ResolveAbsence(parts: seq<string>, out: Path, c: char)
    requires forall part | part in parts :: c !in part
    requires forall part | part in out :: c !in part
    ensures forall part | part in Resolve(parts, out) :: c !in part
  {
    if parts != [] {
      assert c !in parts[0];
      ResolveAbsence(parts[1..], Push(out, parts[0]), c);
    }
  }

  lemma {:induction false} JoinAbsence(parts: seq<string>, c: char)
    requires c != '/'
    requires forall part | part in parts :: c !in part
    ensures c !in JoinSlash(parts)
  {
    if |parts| > 0 {
      assert parts[0] in parts;
      JoinAbsence(parts[1..], c);
    }
  }

  lemma CleanKeepsAbsence(p: string, c: char)
    requires c !in p && c != '/'
    ensures c !in Clean(p)
  {
    SplitAbsence(p, c);
    ResolveAbsence(Split(p), [], c);
    JoinAbsence(Comps(p), c);
  }

  lemma CleanTrailingSlash(p: string)
    ensures Clean(p + "/") == Clean(p)
  {
    SplitConcat(p, "");
    assert p + "/" + "" == p + "/";
    ResolveConcat(Split(p), [""], []);
    assert Resolve([""], Comps(p)) == Comps(p);
  }

  /**
   What href prints, resource reads back, with or without the slash that marks a collection;
   under a prefix that holds a NUL every request is refused.
   */
  lemma ResourceRoundTrip(prefix: string, p: string)
    requires PrefixAccepted(prefix) && Canonical(p)
    requires NUL !in p && |p| <= MAX_PATH
    ensures Resource(prefix, prefix + p) == if NUL in prefix then None else Some(p)
    ensures Resource(prefix, prefix + p + "/") == if NUL in prefix then None else Some(p)
    ensures prefix != "" ==> Resource(prefix, prefix) == if NUL in prefix then None else Some("/")
    ensures NUL in prefix ==> forall any :: Resource(prefix, any).None?
  {
    CleanTrailingSlash(p);
    if NUL in prefix {
      NulInPrefix(prefix);
    } else if prefix == "" {
      assert prefix + p == p;
      assert prefix + p + "/" == p + "/";
    } else {
      assert p[0] == '/';
      assert prefix + p != prefix;
      assert (prefix + p)[..|prefix| + 1] == prefix + "/";
      assert (prefix + p)[|prefix|..] == p;
      assert (prefix + p + "/")[..|prefix| + 1] == prefix + "/";
      assert (prefix + p + "/")[|prefix|..] == p + "/";
      RootIsEmpty();
    }
  }

  lemma NulInPrefix(prefix: string)
    requires NUL in prefix
    ensures forall any :: Resource(prefix, any).None?
  {
    forall any
      ensures Resource(prefix, any).None?
    {
      if HasPrefix(any, prefix + "/") {
        var i :| 0 <= i < |prefix| && prefix[i] == NUL;
        assert any[..|prefix + "/"|][i] == (prefix + "/")[i] == any[i];
      }
    }
  }

  /** `p` is the prefix and then a path inside the export, or nothing. */
  predicate Inside(prefix: string, p: string, tail: string) {
    p == prefix + tail && (prefix == "" || tail == "" || tail[0] == '/')
  }

  /**
   A request path leads exactly to the names its rest beyond the prefix walks to, when it holds no
   NUL and their spelling is not too long.
   */
  lemma ResourceExactly(prefix: string, p: string, q: string)
    ensures Resource(prefix, p) == Some(q) <==>
            NUL !in p && |q| <= 4096
            && exists tail :: Inside(prefix, p, tail) && q == Render(Net(Split(tail)).names)
  {
    RootIsEmpty();
    assert Net([""]).names == [] by {
      assert [""][1..] == [];
    }
    forall tail | Inside(prefix, p, tail)
      ensures Clean(tail) == Render(Net(Split(tail)).names)
      ensures NUL !in p ==> Resource(prefix, p) == Bounded(tail)
    {
      ResolveIsNetWalk(Split(tail), []);
      assert Drop([], Net(Split(tail)).ups) + Net(Split(tail)).names == Net(Split(tail)).names;
      assert tail == p[|prefix|..];
      if prefix == "" {
        assert p == tail;
      } else if tail == "" {
        assert p == prefix && Clean("") == Render([]);
      } else {
        assert p[..|prefix| + 1] == prefix + "/";
      }
    }
    if Resource(prefix, p) == Some(q) {
      var tail := p[|prefix|..];
      assert prefix != "" && p != prefix ==> p[..|prefix| + 1] == prefix + "/";
      assert p == prefix + tail;
      assert p != prefix && prefix != "" ==> tail[0] == '/';
      assert Inside(prefix, p, tail);
    }
  }
}
