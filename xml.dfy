/** The XML pull-parser vocabulary seen by the deserializer (the events of
    the xml-rs `EventReader`), and the depth arithmetic shared by the
    event cursor's operations. */
module Xml {
  import opened Wrappers

  /** A qualified name, compared structurally (all three parts). */
  datatype Name = Name(localName: string, namespace: Option<string>, prefix: Option<string>)

  /** An attribute of a start tag. */
  datatype Attribute = Attribute(name: Name, value: string)

  /** The namespace bindings in scope at a start tag: prefix to URI. */
  type Namespace = map<string, string>

  datatype XmlEvent =
    | StartDocument(version: string, encoding: string, standalone: Option<bool>)
    | EndDocument
    | ProcessingInstruction(target: string, data: Option<string>)
    | StartElement(name: Name, attributes: seq<Attribute>, namespace: Namespace)
    | EndElement(name: Name)
    | CData(text: string)
    | Comment(text: string)
    | Characters(text: string)
    | Whitespace(text: string)

  /** A failure of the underlying reader: a syntax error, an I/O error, or
      the end of the input reached before the document was complete. */
  datatype ReaderError = Syntax(message: string) | Io(message: string) | UnexpectedEof

  /** One answer of the underlying reader's `next`. */
  type ReaderItem = Result<XmlEvent, ReaderError>

  /** Events the cursor never surfaces: they are dropped at the lowest fetch layer. */
  predicate Skipped(e: XmlEvent) {
    e.StartDocument? || e.ProcessingInstruction? || e.Comment?
  }

  /** The depth after consuming `e` at depth `d`: one more for a start tag,
      one less for an end tag, unchanged otherwise. */
  function Step(d: int, e: XmlEvent): (r: int)
    ensures r - d == (if e.StartElement? then 1 else if e.EndElement? then -1 else 0)
  {
    match e
    case StartElement(_, _, _) => d + 1
    case EndElement(_) => d - 1
    case _ => d
  }

  /** The depth after consuming all of `es`, in order, from depth `d`. */
  function DepthAfter(d: int, es: seq<XmlEvent>): int
    decreases |es|
  {
    if es == [] then d else DepthAfter(Step(d, es[0]), es[1..])
  }

  /** Starting at depth `d`, the depth stays at least `floor` before and
      after every event of `es`. */
  predicate StaysAtLeast(floor: int, d: int, es: seq<XmlEvent>)
    decreases |es|
  {
    d >= floor && (es == [] || StaysAtLeast(floor, Step(d, es[0]), es[1..]))
  }

  /** Consuming `es` from depth `d` never makes an unsigned depth underflow. */
  predicate NeverBelowZero(d: int, es: seq<XmlEvent>) {
    StaysAtLeast(0, d, es)
  }

  /** The events that successive fetches deliver from the reader's
      remaining answers: filtered events are dropped, and the first error
      ends the stream (the reader keeps answering with it). */
  function Visible(items: seq<ReaderItem>): (es: seq<XmlEvent>)
    ensures forall i :: 0 <= i < |es| ==> !Skipped(es[i])
    ensures |es| <= |items|
  {
    if items == [] then []
    else match items[0]
      case Err(_) => []
      case Ok(e) => (if Skipped(e) then [] else [e]) + Visible(items[1..])
  }

  /** The failure that ends the stream once its visible events are used up. */
  function EndingOf(items: seq<ReaderItem>): ReaderError {
    if items == [] then UnexpectedEof
    else match items[0]
      case Err(x) => x
      case Ok(_) => EndingOf(items[1..])
  }

  lemma {:induction false} DepthAfterConcat(d: int, a: seq<XmlEvent>, b: seq<XmlEvent>)
    ensures DepthAfter(d, a + b) == DepthAfter(DepthAfter(d, a), b)
    decreases |a|
  {
    if a != [] {
      assert (a + b)[1..] == a[1..] + b;
      DepthAfterConcat(Step(d, a[0]), a[1..], b);
    } else {
      assert a + b == b;
    }
  }

  lemma {:induction false} StaysAtLeastConcat(floor: int, d: int, a: seq<XmlEvent>, b: seq<XmlEvent>)
    ensures StaysAtLeast(floor, d, a + b) <==> StaysAtLeast(floor, d, a) && StaysAtLeast(floor, DepthAfter(d, a), b)
    decreases |a|
  {
    if a != [] {
      assert (a + b)[1..] == a[1..] + b;
      StaysAtLeastConcat(floor, Step(d, a[0]), a[1..], b);
    } else {
      assert a + b == b;
    }
  }

  /** The start tags of `names`, outermost first. */
  function Opens(names: seq<Name>): (es: seq<XmlEvent>)
    ensures |es| == |names|
  {
    if names == [] then [] else [StartElement(names[0], [], map[])] + Opens(names[1..])
  }

  /** The end tags matching `Opens(names)`, innermost first. */
  function Closes(names: seq<Name>): (es: seq<XmlEvent>)
    ensures |es| == |names|
  {
    if names == [] then [] else Closes(names[1..]) + [EndElement(names[0])]
  }

  /** `names` nested inside each other: `<a><b>...</b></a>`. */
  function Nested(names: seq<Name>): seq<XmlEvent> {
    Opens(names) + Closes(names)
  }

  lemma {:induction false} OpensDepth(d: int, names: seq<Name>)
    ensures DepthAfter(d, Opens(names)) == d + |names|
    ensures StaysAtLeast(d, d, Opens(names))
    decreases |names|
  {
    if names != [] {
      OpensDepth(d + 1, names[1..]);
      assert Opens(names)[1..] == Opens(names[1..]);
      StaysAtLeastLower(d, d + 1, d + 1, Opens(names[1..]));
    }
  }

  lemma {:induction false} ClosesDepth(d: int, names: seq<Name>)
    ensures DepthAfter(d, Closes(names)) == d - |names|
    ensures StaysAtLeast(d - |names|, d, Closes(names))
    decreases |names|
  {
    if names != [] {
      var last := [EndElement(names[0])];
      ClosesDepth(d, names[1..]);
      DepthAfterConcat(d, Closes(names[1..]), last);
      StaysAtLeastConcat(d - |names|, d, Closes(names[1..]), last);
      StaysAtLeastLower(d - |names|, d - |names| + 1, d, Closes(names[1..]));
      assert last[1..] == [];
    }
  }

  lemma {:induction false} StaysAtLeastLower(lower: int, floor: int, d: int, es: seq<XmlEvent>)
    requires lower <= floor && StaysAtLeast(floor, d, es)
    ensures StaysAtLeast(lower, d, es)
    decreases |es|
  {
    if es != [] {
      StaysAtLeastLower(lower, floor, Step(d, es[0]), es[1..]);
    }
  }

  /** After the N start tags of N nested elements the depth has grown by N;
      after their N end tags it is back where it started, and it never
      dropped below the starting depth in between. */
  lemma NestedDepth(d: int, names: seq<Name>)
    ensures DepthAfter(d, Opens(names)) == d + |names|
    ensures DepthAfter(d, Nested(names)) == d
    ensures StaysAtLeast(d, d, Nested(names))
  {
    OpensDepth(d, names);
    ClosesDepth(d + |names|, names);
    DepthAfterConcat(d, Opens(names), Closes(names));
    StaysAtLeastConcat(d, d, Opens(names), Closes(names));
  }
}
