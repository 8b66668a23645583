/**
 The lock tokens an If header submits (`submittedTokens` in `lock.go`), section 10.4 of RFC 4918.
 */
module IfHeader {
  import opened Wrappers

  /** strings.IndexByte */
  function IndexOf(s: string, c: char): (i: int)
    ensures -1 <= i < |s|
    ensures 0 <= i ==> s[i] == c && c !in s[..i]
    ensures i < 0 ==> c !in s
  {
    if s == "" then -1
    else if s[0] == c then 0
    else
      var i := IndexOf(s[1..], c);
      if i < 0 then -1 else
        assert s[..i + 1] == [s[0]] + s[1..][..i];
        i + 1
  }

  predicate StartsWithNot(s: string) {
    |s| >= 3 && s[0] == 'N' && s[1] == 'o' && s[2] == 't'
  }

  /** What the scanner still collects from `s`, with a Not pending or not. */
  function Scan(s: string, pending: bool): seq<string>
    decreases |s|
  {
    if s == "" then []
    else if s[0] == '<' then
      var end := IndexOf(s, '>');
      if end < 0 then []
      else (if pending then [] else [s[1..end]]) + Scan(s[end + 1..], false)
    else if StartsWithNot(s) then Scan(s[3..], true)
    else if s[0] == '[' then
      var end := IndexOf(s, ']');
      if end < 0 then [] else Scan(s[end + 1..], pending)
    else Scan(s[1..], pending)
  }

  lemma ScanStep(s: string, pending: bool)
    requires s != ""
    ensures s[0] == '<' && IndexOf(s, '>') < 0 ==> Scan(s, pending) == []
    ensures s[0] == '<' && 0 <= IndexOf(s, '>') ==>
              Scan(s, pending) ==
              (if pending then [] else [s[1..IndexOf(s, '>')]]) + Scan(s[IndexOf(s, '>') + 1..], false)
    ensures StartsWithNot(s) ==> Scan(s, pending) == Scan(s[3..], true)
    ensures s[0] == '[' && IndexOf(s, ']') < 0 ==> Scan(s, pending) == []
    ensures s[0] == '[' && 0 <= IndexOf(s, ']') ==>
              Scan(s, pending) == Scan(s[IndexOf(s, ']') + 1..], pending)
    ensures s[0] != '<' && s[0] != '[' && !StartsWithNot(s) ==> Scan(s, pending) == Scan(s[1..], pending)
  {
  }

  method SubmittedTokens(header: string) returns (out: seq<string>)
    ensures out == Scan(header, false)
  {
    hide Scan, IndexOf;
    out := [];
    var pending := false;
    var i := 0;
    assert header[0..] == header;
    while i < |header|
      invariant 0 <= i <= |header|
      invariant out + Scan(header[i..], pending) == Scan(header, false)
    {
      var rest := header[i..];
      ScanStep(rest, pending);
      if header[i] == '<' {
        var end := IndexOf(rest, '>');
        if end < 0 {
          return;
        }
        var tok := header[i + 1..i + end];
        assert tok == rest[1..end] && rest[end + 1..] == header[i + end + 1..];
        if !pending {
          out := out + [tok];
        }
        pending := false;
        i := i + end + 1;
      } else if StartsWithNot(rest) {
        assert rest[3..] == header[i + 3..];
        pending := true;
        i := i + 3;
      } else if header[i] == '[' {
        var end := IndexOf(rest, ']');
        if end < 0 {
          return;
        }
        assert rest[end + 1..] == header[i + end + 1..];
        i := i + end + 1;
      } else {
        assert rest[1..] == header[i + 1..];
        i := i + 1;
      }
    }
    assert Scan(header[i..], pending) == [] by {
      ScanNothing(header[i..], pending);
    }
  }

  lemma ScanNothing(s: string, pending: bool)
    requires |s| == 0
    ensures Scan(s, pending) == []
  {
  }

  // -------------------------------------------------------------------------
  // Reading back what a client prints
  // -------------------------------------------------------------------------

  /** An item of an If header: a resource tag, a state token or an entity tag. */
  datatype Item =
    | Tag(resource: string)
    | State(negated: bool, token: string)
    | ETag(negated: bool, tag: string)
    | Open
    | Close

  predicate Printable(item: Item) {
    match item
    case Tag(r) => '>' !in r
    case State(_, t) => '>' !in t
    case ETag(_, t) => ']' !in t
    case _ => true
  }

  function PrintItem(item: Item): string {
    match item
    case Tag(r) => "<" + r + "> "
    case State(negated, t) => (if negated then "Not " else "") + ("<" + t + "> ")
    case ETag(negated, t) => (if negated then "Not " else "") + ("[" + t + "] ")
    case Open => "("
    case Close => ") "
  }

  function PrintItems(items: seq<Item>): string {
    if items == [] then "" else PrintItem(items[0]) + PrintItems(items[1..])
  }

  /** The tags and un-negated state tokens, in order. */
  function Submitted(items: seq<Item>): seq<string> {
    if items == [] then []
    else
      var rest := Submitted(items[1..]);
      match items[0]
      case Tag(r) => [r] + rest
      case State(negated, t) => if negated then rest else [t] + rest
      case _ => rest
  }

  function Held(item: Item, pending: bool): bool {
    match item
    case Tag(_) => false
    case State(_, _) => false
    case ETag(negated, _) => pending || negated
    case _ => pending
  }

  function Yield(item: Item, pending: bool): seq<string> {
    match item
    case Tag(r) => if pending then [] else [r]
    case State(negated, t) => if pending || negated then [] else [t]
    case _ => []
  }

  /** The same, with a Not before an entity tag held over to the next tag or state token. */
  function Collected(items: seq<Item>, pending: bool): seq<string> {
    if items == [] then []
    else Yield(items[0], pending) + Collected(items[1..], Held(items[0], pending))
  }

  lemma {:induction false} IndexAfter(head: string, c: char, tail: string)
    requires c !in head
    ensures IndexOf(head + [c] + tail, c) == |head|
  {
    if head != "" {
      assert (head + [c] + tail)[1..] == head[1..] + [c] + tail;
      IndexAfter(head[1..], c, tail);
    }
  }

  /** Characters that start nothing are passed over. */
  predicate Inert(s: string) {
    forall i | 0 <= i < |s| :: s[i] != '<' && s[i] != '[' && s[i] != 'N'
  }

  lemma {:induction false} ScanInert(s: string, rest: string, pending: bool)
    requires Inert(s)
    ensures Scan(s + rest, pending) == Scan(rest, pending)
  {
    if s == "" {
      assert s + rest == rest;
    } else {
      assert (s + rest)[1..] == s[1..] + rest && (s + rest)[0] == s[0];
      ScanInert(s[1..], rest, pending);
    }
  }

  /** No token, entity tag or Not begins in `s`, read on into `rest`. */
  predicate PassedOver(s: string, rest: string) {
    var all := s + rest;
    forall i | 0 <= i < |s| ::
      all[i] != '<' && all[i] != '[' && !(i + 3 <= |all| && all[i..i + 3] == "Not")
  }

  lemma NotBegins(s: string)
    ensures StartsWithNot(s) <==> 3 <= |s| && s[0..3] == "Not"
  {
  }

  /** Text in which nothing begins is passed over, whatever it is. */
  lemma {:induction false} ScanText(s: string, rest: string, pending: bool)
    requires PassedOver(s, rest)
    ensures Scan(s + rest, pending) == Scan(rest, pending)
  {
    var all := s + rest;
    if s == "" {
      assert all == rest;
    } else {
      var tail := s[1..] + rest;
      assert all[1..] == tail;
      NotBegins(all);
      forall i | 0 <= i < |s[1..]|
        ensures tail[i] != '<' && tail[i] != '[' && !(i + 3 <= |tail| && tail[i..i + 3] == "Not")
      {
        assert tail[i] == all[i + 1];
        assert i + 3 <= |tail| ==> tail[i..i + 3] == all[i + 1..i + 4];
      }
      ScanText(s[1..], rest, pending);
    }
  }

  lemma ScanToken(t: string, rest: string, pending: bool)
    requires '>' !in t
    ensures Scan("<" + t + "> " + rest, pending) == (if pending then [] else [t]) + Scan(rest, false)
  {
    var s := "<" + t + "> " + rest;
    assert s == ("<" + t) + ['>'] + (" " + rest);
    IndexAfter("<" + t, '>', " " + rest);
    assert s[1..|t| + 1] == t;
    assert s[|t| + 2..] == " " + rest;
    ScanInert(" ", rest, false);
  }

  lemma ScanETag(t: string, rest: string, pending: bool)
    requires ']' !in t
    ensures Scan("[" + t + "] " + rest, pending) == Scan(rest, pending)
  {
    var s := "[" + t + "] " + rest;
    assert s == ("[" + t) + [']'] + (" " + rest);
    IndexAfter("[" + t, ']', " " + rest);
    assert s[|t| + 2..] == " " + rest;
    ScanInert(" ", rest, pending);
  }

  lemma ScanNot(rest: string, pending: bool)
    ensures Scan("Not " + rest, pending) == Scan(rest, true)
  {
    var s := "Not " + rest;
    assert s[3..] == " " + rest;
    ScanInert(" ", rest, true);
  }

  lemma ScanNegation(negated: bool, body: string, rest: string, pending: bool)
    ensures Scan((if negated then "Not " else "") + body + rest, pending) == Scan(body + rest, pending || negated)
  {
    if negated {
      assert "Not " + body + rest == "Not " + (body + rest);
      ScanNot(body + rest, pending);
    } else {
      assert "" + body + rest == body + rest;
    }
  }

  lemma ScanItem(item: Item, rest: string, pending: bool)
    requires Printable(item)
    ensures Scan(PrintItem(item) + rest, pending) == Yield(item, pending) + Scan(rest, Held(item, pending))
  {
    hide Scan;
    match item {
      case Tag(r) =>
        ScanToken(r, rest, pending);
      case State(negated, t) =>
        ScanNegation(negated, "<" + t + "> ", rest, pending);
        ScanToken(t, rest, pending || negated);
      case ETag(negated, t) =>
        ScanNegation(negated, "[" + t + "] ", rest, pending);
        ScanETag(t, rest, pending || negated);
      case Open =>
        ScanInert("(", rest, pending);
      case Close =>
        ScanInert(") ", rest, pending);
    }
  }

  /** The scanner reads a printed header back item by item; etag content is never a token. */
  lemma {:induction false} ScanPrinted(items: seq<Item>, pending: bool)
    requires forall item | item in items :: Printable(item)
    ensures Scan(PrintItems(items), pending) == Collected(items, pending)
  {
    if items != [] {
      ScanItem(items[0], PrintItems(items[1..]), pending);
      ScanPrinted(items[1..], Held(items[0], pending));
    }
  }

  /** A Not before an entity tag is still pending when a tag or an un-negated token comes. */
  predicate Strays(items: seq<Item>, pending: bool) {
    items != [] &&
    match items[0]
    case Tag(_) => pending || Strays(items[1..], false)
    case State(negated, _) => (pending && !negated) || Strays(items[1..], false)
    case ETag(negated, _) => Strays(items[1..], pending || negated)
    case _ => Strays(items[1..], pending)
  }

  lemma {:induction false} CollectedVersusSubmitted(items: seq<Item>, pending: bool)
    ensures |Collected(items, pending)| <= |Submitted(items)|
    ensures |Collected(items, pending)| == |Submitted(items)| <==> !Strays(items, pending)
    ensures !Strays(items, pending) ==> Collected(items, pending) == Submitted(items)
    ensures forall t | t in Collected(items, pending) :: t in Submitted(items)
  {
    if items != [] {
      CollectedVersusSubmitted(items[1..], Held(items[0], pending));
    }
  }

  /**
   What the header means is what the server collects exactly when no Not before an entity tag
   strays onto a later tag or token; otherwise it collects strictly less, never more.
   */
  lemma HeaderReadBack(items: seq<Item>)
    requires forall item | item in items :: Printable(item)
    ensures Scan(PrintItems(items), false) == Submitted(items) <==> !Strays(items, false)
    ensures forall t | t in Scan(PrintItems(items), false) :: t in Submitted(items)
  {
    ScanPrinted(items, false);
    CollectedVersusSubmitted(items, false);
  }

  /** `(Not ["e"] <t>)`: the token is submitted, and the server does not collect it. */
  lemma StrayNotLosesToken()
    ensures var items := [Open, ETag(true, "e"), State(false, "t"), Close];
            Submitted(items) == ["t"] && Scan(PrintItems(items), false) == []
  {
    var items := [Open, ETag(true, "e"), State(false, "t"), Close];
    assert items[1..] == [ETag(true, "e"), State(false, "t"), Close];
    assert items[1..][1..] == [State(false, "t"), Close];
    assert items[1..][1..][1..] == [Close];
    assert items[1..][1..][1..][1..] == [];
    ScanPrinted(items, false);
    assert Collected([Close], false) == [] && Submitted([Close]) == [];
  }

  // -------------------------------------------------------------------------
  // Truncated headers
  // -------------------------------------------------------------------------

  lemma {:induction false} IndexOfCut(s: string, k: nat, c: char)
    requires k <= |s|
    ensures IndexOf(s[..k], c) == if 0 <= IndexOf(s, c) < k then IndexOf(s, c) else -1
  {
    if k > 0 && s[0] != c {
      assert s[..k][1..] == s[1..][..k - 1];
      IndexOfCut(s[1..], k - 1, c);
    }
  }

  lemma {:induction false} InertYieldsNothing(s: string, pending: bool)
    requires Inert(s)
    ensures Scan(s, pending) == []
  {
    ScanInert(s, "", pending);
    assert s + "" == s;
  }

  /** Cutting a header short only cuts the list of tokens short. */
  lemma {:induction false} ScanPrefix(s: string, k: nat, pending: bool)
    requires k <= |s|
    ensures Scan(s[..k], pending) <= Scan(s, pending)
    decreases |s|
  {
    hide Scan, IndexOf;
    var cut := s[..k];
    if k == 0 {
      ScanNothing(cut, pending);
      return;
    }
    ScanStep(s, pending);
    ScanStep(cut, pending);
    if s[0] == '<' {
      IndexOfCut(s, k, '>');
      var end := IndexOf(s, '>');
      if 0 <= end < k {
        assert cut[1..end] == s[1..end];
        assert cut[end + 1..] == s[end + 1..][..k - end - 1];
        ScanPrefix(s[end + 1..], k - end - 1, false);
      }
    } else if StartsWithNot(s) && k >= 3 {
      assert cut[3..] == s[3..][..k - 3];
      ScanPrefix(s[3..], k - 3, true);
    } else if StartsWithNot(s) {
      InertYieldsNothing(cut[1..], pending);
    } else if s[0] == '[' {
      IndexOfCut(s, k, ']');
      var end := IndexOf(s, ']');
      if 0 <= end < k {
        assert cut[end + 1..] == s[end + 1..][..k - end - 1];
        ScanPrefix(s[end + 1..], k - end - 1, pending);
      }
    } else {
      assert cut[1..] == s[1..][..k - 1];
      ScanPrefix(s[1..], k - 1, pending);
    }
  }
}
