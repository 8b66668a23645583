/**
 XML documents as trees and as the token streams encoding/xml gives for them.  Lexing and
 namespace resolution are behind the stream: names arrive resolved and tags balanced.
 */
module XmlTokens {
  import opened Wrappers

  const DAV := "DAV:"

  datatype Name = Name(space: string, local: string)

  /** A token of a body; comments, instructions and directives are alike here. */
  datatype Token = Start(name: Name) | End(name: Name) | Chars(data: string) | Misc

  /** A body: its tokens, then a clean end of input or an error. */
  datatype Input = Input(tokens: seq<Token>, clean: bool)

  datatype Node = Element(name: Name, children: seq<Node>) | Text(data: string) | Aside

  function Flatten(n: Node): seq<Token>
    decreases n, 0
  {
    match n
    case Element(name, children) => [Start(name)] + FlattenAll(children) + [End(name)]
    case Text(data) => [Chars(data)]
    case Aside => [Misc]
  }

  function FlattenAll(ns: seq<Node>): seq<Token>
    decreases ns, 1
  {
    if ns == [] then [] else Flatten(ns[0]) + FlattenAll(ns[1..])
  }

  predicate NoElements(ns: seq<Node>) {
    forall n | n in ns :: !n.Element?
  }

  /** A document with a single root and only text and asides around it. */
  datatype Document = Document(before: seq<Node>, root: Node, after: seq<Node>)

  predicate WellFormed(doc: Document) {
    NoElements(doc.before) && doc.root.Element? && NoElements(doc.after)
  }

  function Stream(doc: Document): seq<Token> {
    FlattenAll(doc.before) + (Flatten(doc.root) + FlattenAll(doc.after))
  }

  predicate Is(name: Name, local: string) {
    name == Name(DAV, local)
  }

  /** The names of the elements of a list, in order. */
  function ElementNames(ns: seq<Node>): seq<Name> {
    if ns == [] then []
    else (if ns[0].Element? then [ns[0].name] else []) + ElementNames(ns[1..])
  }

  /**
   Decoder.Skip, called inside an element: reads through its end tag, counting nested tags
   without looking at their names.
   */
  function Skip(toks: seq<Token>, depth: nat): (rest: Option<seq<Token>>)
    ensures rest.Some? ==> |rest.value| < |toks|
  {
    if toks == [] then None
    else
      match toks[0]
      case Start(_) => Skip(toks[1..], depth + 1)
      case End(_) => if depth == 0 then Some(toks[1..]) else Skip(toks[1..], depth - 1)
      case _ => Skip(toks[1..], depth)
  }

  lemma {:induction false} SkipNode(n: Node, rest: seq<Token>, depth: nat)
    ensures Skip(Flatten(n) + rest, depth) == Skip(rest, depth)
    decreases n, 0
  {
    var toks := Flatten(n) + rest;
    match n {
      case Element(name, children) =>
        assert toks[1..] == FlattenAll(children) + ([End(name)] + rest);
        SkipNodes(children, [End(name)] + rest, depth + 1);
        assert ([End(name)] + rest)[1..] == rest;
      case _ =>
        assert toks[1..] == rest;
    }
  }

  lemma {:induction false} SkipNodes(ns: seq<Node>, rest: seq<Token>, depth: nat)
    ensures Skip(FlattenAll(ns) + rest, depth) == Skip(rest, depth)
    decreases ns, 1
  {
    if ns == [] {
      assert FlattenAll(ns) + rest == rest;
    } else {
      SkipNode(ns[0], FlattenAll(ns[1..]) + rest, depth);
      SkipNodes(ns[1..], rest, depth);
      assert FlattenAll(ns) + rest == Flatten(ns[0]) + (FlattenAll(ns[1..]) + rest);
    }
  }

  /** After a start tag, Skip stops just past the matching end tag. */
  lemma SkipElement(name: Name, children: seq<Node>, rest: seq<Token>)
    ensures Flatten(Element(name, children)) + rest != []
    ensures (Flatten(Element(name, children)) + rest)[0] == Start(name)
    ensures Skip((Flatten(Element(name, children)) + rest)[1..], 0) == Some(rest)
  {
    var toks := Flatten(Element(name, children)) + rest;
    assert toks[1..] == FlattenAll(children) + ([End(name)] + rest);
    SkipNodes(children, [End(name)] + rest, 0);
    assert ([End(name)] + rest)[1..] == rest;
  }

  lemma FlattenCons(ns: seq<Node>, rest: seq<Token>)
    requires ns != []
    ensures FlattenAll(ns) + rest == Flatten(ns[0]) + (FlattenAll(ns[1..]) + rest)
  {
  }
}
