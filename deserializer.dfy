/** The event cursor of the deserializer: one-event lookahead, filtering of
    document-start, processing-instruction and comment events, nesting-depth
    bookkeeping, kind-checked reads, start/end tag matching and subtree
    skipping over the xml-rs `EventReader`.

    The first half states each operation on a value, `View`: the depth and
    the events the cursor will still deliver, in order, followed by the
    failure that ends them. The `Deserializer` class in the second half
    keeps the source's own state (depth, lookahead buffer, reader position);
    each of its public operations is proved to act on its `View` as stated
    here, and the reader-level helpers below them are specified on that
    state directly. */
module De {
  import opened Wrappers
  import opened Xml

  /** The failures the cursor reports (each wrapped in the source as a
      generic deserialization error; the model keeps only the cause). */
  datatype DeError =
    | Transport(cause: ReaderError)
    | CouldNotPeek
    | UnexpectedEvent(event: XmlEvent)
    | ElementTags(start: Name, end: Name)

  /** What the cursor will do from now on: its depth, the events it will
      deliver in order, and the failure that follows the last of them. */
  datatype View = View(depth: nat, upcoming: seq<XmlEvent>, ending: ReaderError)

  /** A result together with the view after the operation that produced it. */
  datatype Outcome<T> = Outcome(result: Result<T, DeError>, after: View)

  /** No upcoming end tag can make the unsigned depth underflow. */
  predicate WellNested(v: View) {
    NeverBelowZero(v.depth, v.upcoming)
  }

  /** `peek`: the next event, and nothing changes. */
  function PeekOf(v: View): (o: Outcome<XmlEvent>)
    ensures o.after == v
    ensures o.result.Ok? <==> v.upcoming != []
    ensures o.result.Ok? ==> o.result.value == v.upcoming[0]
    ensures o.result.Err? ==> o.result.error == Transport(v.ending)
  {
    if v.upcoming == [] then Outcome(Err(Transport(v.ending)), v)
    else Outcome(Ok(v.upcoming[0]), v)
  }

  /** `next_event`: the next event is delivered and removed from the
      stream, and the depth moves by its structural effect. */
  function NextOf(v: View): (o: Outcome<XmlEvent>)
    requires WellNested(v)
    ensures WellNested(o.after)
    ensures o.result.Ok? <==> v.upcoming != []
    ensures o.result.Ok? ==> [o.result.value] + o.after.upcoming == v.upcoming
    ensures o.result.Ok? ==> o.after.depth == Step(v.depth, o.result.value)
    ensures o.result.Err? ==> o.result.error == Transport(v.ending) && o.after == v
    ensures o.after.ending == v.ending
  {
    if v.upcoming == [] then Outcome(Err(Transport(v.ending)), v)
    else
      var e := v.upcoming[0];
      assert [e] + v.upcoming[1..] == v.upcoming;
      assert StaysAtLeast(0, Step(v.depth, e), v.upcoming[1..]);
      Outcome(Ok(e), View(Step(v.depth, e), v.upcoming[1..], v.ending))
  }

  /** Reading from a stream that starts with `e` delivers `e`. */
  lemma NextOfFirst(v: View, e: XmlEvent, rest: seq<XmlEvent>)
    requires WellNested(v) && v.upcoming == [e] + rest
    ensures NextOf(v) == Outcome(Ok(e), View(Step(v.depth, e), rest, v.ending))
    ensures NeverBelowZero(Step(v.depth, e), rest)
  {
    assert v.upcoming[1..] == rest;
  }

  /** `next_start_element_event`: succeeds only on a start tag, returning its
      name, namespace bindings and attributes; any other event is consumed
      all the same and reported. */
  function StartOf(v: View): (o: Outcome<(Name, Namespace, seq<Attribute>)>)
    requires WellNested(v)
    ensures WellNested(o.after)
    ensures o.result.Ok? <==> v.upcoming != [] && v.upcoming[0].StartElement?
    ensures o.result.Ok? ==>
      var e := v.upcoming[0]; o.result.value == (e.name, e.namespace, e.attributes)
    ensures v.upcoming != [] && !v.upcoming[0].StartElement? ==>
      o.result == Err(UnexpectedEvent(v.upcoming[0]))
    ensures v.upcoming == [] ==> o.result == Err(Transport(v.ending))
    ensures o.after == NextOf(v).after
  {
    var n := NextOf(v);
    match n.result
    case Err(x) => Outcome(Err(x), n.after)
    case Ok(StartElement(name, attributes, namespace)) => Outcome(Ok((name, namespace, attributes)), n.after)
    case Ok(e) => Outcome(Err(UnexpectedEvent(e)), n.after)
  }

  /** `next_end_element_event`: succeeds only on an end tag, returning its name. */
  function EndOf(v: View): (o: Outcome<Name>)
    requires WellNested(v)
    ensures WellNested(o.after)
    ensures o.result.Ok? <==> v.upcoming != [] && v.upcoming[0].EndElement?
    ensures o.result.Ok? ==> o.result.value == v.upcoming[0].name
    ensures v.upcoming != [] && !v.upcoming[0].EndElement? ==>
      o.result == Err(UnexpectedEvent(v.upcoming[0]))
    ensures v.upcoming == [] ==> o.result == Err(Transport(v.ending))
    ensures o.after == NextOf(v).after
  {
    var n := NextOf(v);
    match n.result
    case Err(x) => Outcome(Err(x), n.after)
    case Ok(EndElement(name)) => Outcome(Ok(name), n.after)
    case Ok(e) => Outcome(Err(UnexpectedEvent(e)), n.after)
  }

  /** `expect_end_element`: succeeds iff the next event is the end tag of
      `start`; an end tag with another name is a tag mismatch. */
  function ExpectEndOf(v: View, start: Name): (o: Outcome<()>)
    requires WellNested(v)
    ensures WellNested(o.after)
    ensures o.result.Ok? <==> v.upcoming != [] && v.upcoming[0] == EndElement(start)
    ensures v.upcoming != [] && v.upcoming[0].EndElement? && v.upcoming[0].name != start ==>
      o.result == Err(ElementTags(start, v.upcoming[0].name))
    ensures v.upcoming != [] && !v.upcoming[0].EndElement? ==>
      o.result == Err(UnexpectedEvent(v.upcoming[0]))
    ensures v.upcoming == [] ==> o.result == Err(Transport(v.ending))
    ensures o.after == NextOf(v).after
  {
    var e := EndOf(v);
    match e.result
    case Err(x) => Outcome(Err(x), e.after)
    case Ok(end) => Outcome(if end != start then Err(ElementTags(start, end)) else Ok(()), e.after)
  }

  /** `count` successive `next_event` calls, stopping at the first failure. */
  function Consume(v: View, count: nat): (o: Outcome<()>)
    requires WellNested(v)
    ensures WellNested(o.after)
    ensures o.after.ending == v.ending
    ensures |o.after.upcoming| <= |v.upcoming|
    ensures o.result.Err? ==> o.result.error == Transport(v.ending) && o.after.upcoming == []
    decreases count
  {
    if count == 0 then Outcome(Ok(()), v)
    else
      var n := NextOf(v);
      if n.result.Err? then Outcome(Err(n.result.error), n.after)
      else Consume(n.after, count - 1)
  }

  /** The effect of the body handed to `read_inner_value`: it reads
      `consumed` events through the cursor and then returns `result`. A
      body that only reads through the cursor is determined by the view it
      starts from, so a function from `View` describes any such body. */
  datatype BodyRun<T> = BodyRun(consumed: nat, result: Result<T, DeError>)

  /** `read_inner_value`: a start tag, then the body, then the end tag that
      must match the start tag's name. */
  function ReadInnerOf<T>(v: View, body: View -> BodyRun<T>): (o: Outcome<T>)
    requires WellNested(v)
    ensures WellNested(o.after)
    ensures o.after.ending == v.ending
    ensures |o.after.upcoming| < |v.upcoming| || (v.upcoming == [] && o.after == v)
    ensures v.upcoming == [] ==> o.result == Err(Transport(v.ending))
    ensures v.upcoming != [] && !v.upcoming[0].StartElement? ==>
      o.result == Err(UnexpectedEvent(v.upcoming[0])) && o.after == NextOf(v).after
  {
    var s := StartOf(v);
    if s.result.Err? then Outcome(Err(s.result.error), s.after)
    else
      var run := body(s.after);
      var b := Consume(s.after, run.consumed);
      if b.result.Err? then Outcome(Err(b.result.error), b.after)
      else if run.result.Err? then Outcome(Err(run.result.error), b.after)
      else
        var e := ExpectEndOf(b.after, s.result.value.0);
        Outcome(if e.result.Ok? then Ok(run.result.value) else Err(e.result.error), e.after)
  }

  /** The run of `skip_element`: the events handed to the callback, in order. */
  datatype SkipRun = SkipRun(visited: seq<XmlEvent>, result: Result<(), DeError>, after: View)

  /** `skip_element` entered at depth `floor`: consume events while the
      depth is at least `floor`. */
  function SkipFrom(v: View, floor: nat): (s: SkipRun)
    requires WellNested(v)
    ensures WellNested(s.after)
    ensures s.visited + s.after.upcoming == v.upcoming
    ensures s.after.ending == v.ending
    ensures s.result.Err? ==> s.result.error == Transport(v.ending) && s.after.upcoming == []
    ensures v.depth < floor ==> s == SkipRun([], Ok(()), v)
    decreases |v.upcoming|
  {
    if v.depth < floor then SkipRun([], Ok(()), v)
    else
      var n := NextOf(v);
      if n.result.Err? then SkipRun([], Err(n.result.error), n.after)
      else
        var e := n.result.value;
        var rest := SkipFrom(n.after, floor);
        assert ([e] + rest.visited) + rest.after.upcoming == [e] + n.after.upcoming;
        SkipRun([e] + rest.visited, rest.result, rest.after)
  }

  // ---------------------------------------------------------------------
  // Properties of the operations

  /** Peeking first does not change what the next read delivers. */
  lemma PeekThenNext(v: View)
    requires WellNested(v)
    ensures PeekOf(PeekOf(v).after) == PeekOf(v)
    ensures PeekOf(v).result.Ok? ==> NextOf(PeekOf(v).after).result == PeekOf(v).result
  {
  }

  /** `count` reads deliver exactly the next `count` events, none dropped or
      repeated, and move the depth by their combined effect; asking for more
      events than remain ends in the stream's failure with everything consumed. */
  lemma {:induction false} ConsumeTakesPrefix(v: View, count: nat)
    requires WellNested(v)
    ensures var o := Consume(v, count);
      && o.after.ending == v.ending
      && (count <= |v.upcoming| ==>
            o.result.Ok? && o.after.upcoming == v.upcoming[count..]
            && o.after.depth == DepthAfter(v.depth, v.upcoming[..count]))
      && (count > |v.upcoming| ==>
            o.result == Err(Transport(v.ending)) && o.after.upcoming == []
            && o.after.depth == DepthAfter(v.depth, v.upcoming))
    decreases count
  {
    if count > 0 && v.upcoming != [] {
      var n := NextOf(v);
      ConsumeTakesPrefix(n.after, count - 1);
      if count <= |v.upcoming| {
        assert v.upcoming[1..][count - 1..] == v.upcoming[count..];
        assert v.upcoming[..count][1..] == v.upcoming[1..][..count - 1];
      }
    }
  }

  /** `skip_element` entered at depth d hands every event it consumes to the
      callback, in order. It succeeds exactly when the stream holds the end
      tag of the element open at entry: it then stops right after that end
      tag, at depth d - 1, and the depth never fell below d before it. Without
      that end tag it consumes the whole stream and fails with the stream's
      failure. At depth 0 it can therefore never succeed. */
  lemma SkipElementSpec(v: View)
    requires WellNested(v)
    ensures var s := SkipFrom(v, v.depth);
      && s.visited + s.after.upcoming == v.upcoming
      && s.after.depth == DepthAfter(v.depth, s.visited)
      && (s.result.Ok? ==>
            |s.visited| > 0 && s.after.depth == v.depth - 1
            && StaysAtLeast(v.depth, v.depth, s.visited[..|s.visited| - 1]))
      && (s.result.Err? ==>
            s.result.error == Transport(v.ending) && s.visited == v.upcoming
            && StaysAtLeast(v.depth, v.depth, v.upcoming))
      && (v.depth == 0 ==> s.result.Err?)
  {
    SkipFromCharacterised(v, v.depth);
  }

  /** The depth after skipping is the depth moved by the skipped events. */
  lemma {:induction false} SkipFromDepth(v: View, floor: nat)
    requires WellNested(v)
    ensures var s := SkipFrom(v, floor); s.after.depth == DepthAfter(v.depth, s.visited)
    decreases |v.upcoming|
  {
    if v.depth >= floor && v.upcoming != [] {
      var n := NextOf(v);
      var rest := SkipFrom(n.after, floor);
      SkipFromDepth(n.after, floor);
      DepthAfterConcat(v.depth, [n.result.value], rest.visited);
    }
  }

  lemma {:induction false} SkipFromCharacterised(v: View, floor: nat)
    requires WellNested(v) && v.depth >= floor
    ensures var s := SkipFrom(v, floor);
      && s.visited + s.after.upcoming == v.upcoming
      && s.after.depth == DepthAfter(v.depth, s.visited)
      && (s.result.Ok? ==>
            |s.visited| > 0 && s.after.depth == floor - 1
            && StaysAtLeast(floor, v.depth, s.visited[..|s.visited| - 1]))
      && (s.result.Err? ==>
            s.result.error == Transport(v.ending) && s.visited == v.upcoming
            && StaysAtLeast(floor, v.depth, v.upcoming))
    decreases |v.upcoming|
  {
    SkipFromDepth(v, floor);
    if v.upcoming != [] {
      var n := NextOf(v);
      var e := n.result.value;
      var s := SkipFrom(v, floor);
      if n.after.depth < floor {
        assert SkipFrom(n.after, floor) == SkipRun([], Ok(()), n.after);
        assert s.visited[..|s.visited| - 1] == [];
      } else {
        var rest := SkipFrom(n.after, floor);
        SkipFromCharacterised(n.after, floor);
        assert s.visited == [e] + rest.visited;
        if s.result.Ok? {
          assert s.visited[..|s.visited| - 1] == [e] + rest.visited[..|rest.visited| - 1];
        }
      }
    }
  }

  /** `read_inner_value` succeeds exactly when the next event is a start tag,
      the body succeeds having read only events that exist, and the event
      after them is the end tag with the start tag's name. The cursor then
      sits right after that end tag. */
  lemma ReadInnerValueSucceeds<T>(v: View, body: View -> BodyRun<T>)
    requires WellNested(v)
    ensures var o := ReadInnerOf(v, body);
      o.result.Ok? <==>
        && v.upcoming != [] && v.upcoming[0].StartElement?
        && var run := body(NextOf(v).after);
        && run.result.Ok?
        && run.consumed + 1 < |v.upcoming|
        && v.upcoming[run.consumed + 1] == EndElement(v.upcoming[0].name)
    ensures var o := ReadInnerOf(v, body);
      o.result.Ok? ==>
        var run := body(NextOf(v).after);
        && o.result.value == run.result.value
        && o.after.upcoming == v.upcoming[run.consumed + 2..]
        && o.after.depth == DepthAfter(v.depth, v.upcoming[..run.consumed + 2])
  {
    if v.upcoming != [] && v.upcoming[0].StartElement? {
      var s := StartOf(v);
      var run := body(s.after);
      ConsumeTakesPrefix(s.after, run.consumed);
      var b := Consume(s.after, run.consumed);
      if run.consumed <= |s.after.upcoming| {
        assert v.upcoming[1..][run.consumed..] == v.upcoming[run.consumed + 1..];
        if b.after.upcoming != [] {
          assert b.after.upcoming[1..] == v.upcoming[run.consumed + 2..];
          calc {
            DepthAfter(v.depth, v.upcoming[..run.consumed + 2]);
            { assert v.upcoming[..run.consumed + 2]
                == [v.upcoming[0]] + v.upcoming[1..][..run.consumed] + [v.upcoming[run.consumed + 1]];
              DepthAfterConcat(v.depth, [v.upcoming[0]] + v.upcoming[1..][..run.consumed], [v.upcoming[run.consumed + 1]]);
              DepthAfterConcat(v.depth, [v.upcoming[0]], v.upcoming[1..][..run.consumed]); }
            Step(DepthAfter(Step(v.depth, v.upcoming[0]), v.upcoming[1..][..run.consumed]), v.upcoming[run.consumed + 1]);
          }
        }
      }
    }
  }

  /** When the body fails, `read_inner_value` fails with the body's error and
      reads no end tag: the cursor stays right after what the body consumed. */
  lemma ReadInnerValueBodyFails<T>(v: View, body: View -> BodyRun<T>)
    requires WellNested(v)
    requires v.upcoming != [] && v.upcoming[0].StartElement?
    requires body(NextOf(v).after).result.Err?
    requires body(NextOf(v).after).consumed < |v.upcoming|
    ensures var run := body(NextOf(v).after);
      var o := ReadInnerOf(v, body);
      o.result == run.result && o.after.upcoming == v.upcoming[run.consumed + 1..]
  {
    var s := StartOf(v);
    ConsumeTakesPrefix(s.after, body(s.after).consumed);
    assert v.upcoming[1..][body(s.after).consumed..] == v.upcoming[body(s.after).consumed + 1..];
  }

  /** When the body stops in front of an end tag with another name,
      `read_inner_value` reports the pair of mismatched names. */
  lemma ReadInnerValueMismatch<T>(v: View, body: View -> BodyRun<T>)
    requires WellNested(v)
    requires v.upcoming != [] && v.upcoming[0].StartElement?
    requires body(NextOf(v).after).result.Ok?
    requires body(NextOf(v).after).consumed + 1 < |v.upcoming|
    requires v.upcoming[body(NextOf(v).after).consumed + 1].EndElement?
    requires v.upcoming[body(NextOf(v).after).consumed + 1].name != v.upcoming[0].name
    ensures ReadInnerOf(v, body).result
      == Err(ElementTags(v.upcoming[0].name, v.upcoming[body(NextOf(v).after).consumed + 1].name))
  {
    var s := StartOf(v);
    ConsumeTakesPrefix(s.after, body(s.after).consumed);
    assert v.upcoming[1..][body(s.after).consumed..] == v.upcoming[body(s.after).consumed + 1..];
  }

  /** When the body stops in front of an event that is not an end tag,
      `read_inner_value` reports that event. */
  lemma ReadInnerValueUnclosed<T>(v: View, body: View -> BodyRun<T>)
    requires WellNested(v)
    requires v.upcoming != [] && v.upcoming[0].StartElement?
    requires body(NextOf(v).after).result.Ok?
    requires body(NextOf(v).after).consumed + 1 < |v.upcoming|
    requires !v.upcoming[body(NextOf(v).after).consumed + 1].EndElement?
    ensures ReadInnerOf(v, body).result
      == Err(UnexpectedEvent(v.upcoming[body(NextOf(v).after).consumed + 1]))
  {
    var s := StartOf(v);
    ConsumeTakesPrefix(s.after, body(s.after).consumed);
    assert v.upcoming[1..][body(s.after).consumed..] == v.upcoming[body(s.after).consumed + 1..];
  }

  /** When the body succeeds but the events run out before the end tag,
      `read_inner_value` fails with the stream's failure, everything consumed. */
  lemma ReadInnerValueRunsOut<T>(v: View, body: View -> BodyRun<T>)
    requires WellNested(v)
    requires v.upcoming != [] && v.upcoming[0].StartElement?
    requires body(NextOf(v).after).result.Ok?
    requires body(NextOf(v).after).consumed + 1 >= |v.upcoming|
    ensures ReadInnerOf(v, body).result == Err(Transport(v.ending))
    ensures ReadInnerOf(v, body).after.upcoming == []
  {
    var s := StartOf(v);
    ConsumeTakesPrefix(s.after, body(s.after).consumed);
  }

  /** The run of a body that is itself one `read_inner_value` call with body
      `inner`: it consumes what that call consumes and returns its result. */
  function InnerRun<T>(w: View, inner: View -> BodyRun<T>): (run: BodyRun<T>)
    requires WellNested(w)
    ensures run.result == ReadInnerOf(w, inner).result
    ensures Consume(w, run.consumed).after == ReadInnerOf(w, inner).after
  {
    var o := ReadInnerOf(w, inner);
    ReadInnerReplay(w, inner);
    BodyRun(|w.upcoming| - |o.after.upcoming|, o.result)
  }

  /** Reading `a` events and then `b` more is reading `a + b` events. */
  lemma {:induction false} ConsumeThen(v: View, a: nat, b: nat)
    requires WellNested(v) && a <= |v.upcoming|
    ensures Consume(Consume(v, a).after, b) == Consume(v, a + b)
    decreases a
  {
    if a > 0 {
      ConsumeThen(NextOf(v).after, a - 1, b);
    }
  }

  /** Asking for more reads than there are events ends where reading all of
      them ends. */
  lemma {:induction false} ConsumeOverrun(v: View, count: nat)
    requires WellNested(v) && count >= |v.upcoming|
    ensures Consume(v, count).after == Consume(v, |v.upcoming|).after
    decreases count
  {
    if v.upcoming != [] {
      ConsumeOverrun(NextOf(v).after, count - 1);
    }
  }

  /** `o` removed a prefix of `v`'s stream and ends where as many plain reads
      from `v` end. */
  predicate ReplaysTo<T>(v: View, o: Outcome<T>)
    requires WellNested(v)
  {
    |o.after.upcoming| <= |v.upcoming|
    && Consume(v, |v.upcoming| - |o.after.upcoming|).after == o.after
  }

  /** `read_inner_value` consumes a prefix of the stream: replaying as many
      plain reads as it removed events ends in exactly the view it ends in,
      same events left and same depth. */
  lemma ReadInnerReplay<T>(v: View, body: View -> BodyRun<T>)
    requires WellNested(v)
    ensures ReplaysTo(v, ReadInnerOf(v, body))
  {
    if v.upcoming != [] && v.upcoming[0].StartElement? {
      var s := StartOf(v);
      var c := body(s.after).consumed;
      if c > |s.after.upcoming| {
        ReplayBodyOverruns(v, body);
      } else if body(s.after).result.Err? || Consume(s.after, c).after.upcoming == [] {
        ReplayBodyStops(v, body);
      } else {
        ReplayThroughEnd(v, body);
      }
    }
  }

  /** The body asks for more events than there are: everything is consumed. */
  lemma ReplayBodyOverruns<T>(v: View, body: View -> BodyRun<T>)
    requires WellNested(v) && v.upcoming != [] && v.upcoming[0].StartElement?
    requires body(StartOf(v).after).consumed > |StartOf(v).after.upcoming|
    ensures ReplaysTo(v, ReadInnerOf(v, body))
  {
    var s := StartOf(v);
    var c := body(s.after).consumed;
    ConsumeTakesPrefix(s.after, c);
    ConsumeOverrun(s.after, c);
    assert ReadInnerOf(v, body).after == Consume(s.after, c).after;
    assert Consume(v, |v.upcoming|) == Consume(s.after, |s.after.upcoming|);
  }

  /** The body fails, or leaves nothing for the end tag: `read_inner_value`
      stops where the body stopped. */
  lemma ReplayBodyStops<T>(v: View, body: View -> BodyRun<T>)
    requires WellNested(v) && v.upcoming != [] && v.upcoming[0].StartElement?
    requires body(StartOf(v).after).consumed <= |StartOf(v).after.upcoming|
    requires body(StartOf(v).after).result.Err?
          || Consume(StartOf(v).after, body(StartOf(v).after).consumed).after.upcoming == []
    ensures ReplaysTo(v, ReadInnerOf(v, body))
  {
    var s := StartOf(v);
    var c := body(s.after).consumed;
    ConsumeTakesPrefix(s.after, c);
    var o := ReadInnerOf(v, body);
    assert o.after == Consume(s.after, c).after;
    assert |v.upcoming| - |o.after.upcoming| == 1 + c;
  }

  /** The body succeeds with an event left: `read_inner_value` reads one more,
      the end tag it expects. */
  lemma ReplayThroughEnd<T>(v: View, body: View -> BodyRun<T>)
    requires WellNested(v) && v.upcoming != [] && v.upcoming[0].StartElement?
    requires body(StartOf(v).after).consumed <= |StartOf(v).after.upcoming|
    requires body(StartOf(v).after).result.Ok?
    requires Consume(StartOf(v).after, body(StartOf(v).after).consumed).after.upcoming != []
    ensures ReplaysTo(v, ReadInnerOf(v, body))
  {
    var s := StartOf(v);
    var c := body(s.after).consumed;
    var b := Consume(s.after, c);
    ConsumeTakesPrefix(s.after, c);
    ConsumeThen(s.after, c, 1);
    var o := ReadInnerOf(v, body);
    assert o.after == NextOf(b.after).after;
    assert |v.upcoming| - |o.after.upcoming| == 1 + (c + 1);
  }

  /** Two nested elements around a text leave the depth where it was. */
  lemma BalancedDepth(d: int, a: Name, b: Name, text: string)
    ensures DepthAfter(d, [StartElement(a, [], map[]), StartElement(b, [], map[]), Characters(text),
                           EndElement(b), EndElement(a)]) == d
  {
    var five := [StartElement(a, [], map[]), StartElement(b, [], map[]), Characters(text),
                 EndElement(b), EndElement(a)];
    assert DepthAfter(d, five) == DepthAfter(d + 1, five[1..]);
    assert DepthAfter(d + 1, five[1..]) == DepthAfter(d + 2, five[2..]);
    assert DepthAfter(d + 2, five[2..]) == DepthAfter(d + 2, five[3..]);
    assert DepthAfter(d + 2, five[3..]) == DepthAfter(d + 1, five[4..]);
    assert DepthAfter(d + 1, five[4..]) == DepthAfter(d, five[5..]);
  }

  /** `<a><b>text</b></a>` read with a body that is itself `read_inner_value`
      on `<b>text</b>`: the value is the inner text, and the cursor ends right
      after `</a>` at the depth it started from. */
  lemma ReadInnerValueNested(a: Name, b: Name, text: string, rest: seq<XmlEvent>, v: View)
    requires v.upcoming == [StartElement(a, [], map[]), StartElement(b, [], map[]), Characters(text),
                            EndElement(b), EndElement(a)] + rest
    requires WellNested(v)
    ensures var inner := (u: View) => BodyRun(1, Ok(text));
      var o := ReadInnerOf(v, (w: View) => if WellNested(w) then InnerRun(w, inner) else BodyRun(0, Err(CouldNotPeek)));
      o.result == Ok(text) && o.after.upcoming == rest && o.after.depth == v.depth
  {
    var inner := (u: View) => BodyRun(1, Ok(text));
    var body := (w: View) => if WellNested(w) then InnerRun(w, inner) else BodyRun(0, Err(CouldNotPeek));
    var w := NextOf(v).after;
    assert body(w) == BodyRun(3, Ok(text)) by {
      assert w.upcoming == v.upcoming[1..];
      ReadInnerValueSucceeds(w, inner);
    }
    var o := ReadInnerOf(v, body);
    assert o.result == Ok(text) && o.after.upcoming == v.upcoming[5..]
        && o.after.depth == DepthAfter(v.depth, v.upcoming[..5]) by {
      ReadInnerValueSucceeds(v, body);
    }
    assert v.upcoming[..5] == [StartElement(a, [], map[]), StartElement(b, [], map[]), Characters(text),
                               EndElement(b), EndElement(a)];
    BalancedDepth(v.depth, a, b, text);
  }

  /** `<a>text</c>` read with a body that consumes the text: the end tag does
      not match and both names are reported. */
  lemma ReadInnerValueWrongEnd(a: Name, c: Name, text: string, rest: seq<XmlEvent>, v: View)
    requires a != c
    requires v.upcoming == [StartElement(a, [], map[]), Characters(text), EndElement(c)] + rest
    requires WellNested(v)
    ensures ReadInnerOf(v, (w: View) => BodyRun(1, Ok(text))).result == Err(ElementTags(a, c))
  {
    ReadInnerValueMismatch(v, (w: View) => BodyRun(1, Ok(text)));
  }

  /** Entered inside `<p>` in front of `<x><y/><z/></x></p>`, `skip_element`
      does not stop after `</x>`: it also consumes `</p>`, the end tag of the
      element open at entry, and stops one level up. */
  lemma SkipElementStopsAboveEntry(p: Name, x: Name, y: Name, z: Name, rest: seq<XmlEvent>, v: View)
    requires v.depth > 0
    requires v.upcoming == [StartElement(x, [], map[]), StartElement(y, [], map[]), EndElement(y),
                            StartElement(z, [], map[]), EndElement(z), EndElement(x), EndElement(p)] + rest
    requires WellNested(v)
    ensures var s := SkipFrom(v, v.depth);
      s.result == Ok(()) && s.visited == v.upcoming[..7] && s.after.upcoming == rest
      && s.after.depth == v.depth - 1
  {
    var d := v.depth;
    var u := v.upcoming;
    var v1 := NextOf(v).after;
    var v2 := NextOf(v1).after;
    var v3 := NextOf(v2).after;
    var v4 := NextOf(v3).after;
    var v5 := NextOf(v4).after;
    var v6 := NextOf(v5).after;
    var v7 := NextOf(v6).after;
    assert v1.depth == d + 1 && v2.depth == d + 2 && v3.depth == d + 1 && v4.depth == d + 2;
    assert v5.depth == d + 1 && v6.depth == d && v7.depth == d - 1;
    assert v7.upcoming == rest;
    assert SkipFrom(v7, d) == SkipRun([], Ok(()), v7);
    assert SkipFrom(v6, d).after == v7 && SkipFrom(v6, d).result.Ok?;
    assert SkipFrom(v5, d).after == v7 && SkipFrom(v5, d).result.Ok?;
    assert SkipFrom(v4, d).after == v7 && SkipFrom(v4, d).result.Ok?;
    assert SkipFrom(v3, d).after == v7 && SkipFrom(v3, d).result.Ok?;
    assert SkipFrom(v2, d).after == v7 && SkipFrom(v2, d).result.Ok?;
    assert SkipFrom(v1, d).after == v7 && SkipFrom(v1, d).result.Ok?;
    assert SkipFrom(v, d).after == v7 && SkipFrom(v, d).result.Ok?;
    assert u == u[..7] + rest;
  }

  // ---------------------------------------------------------------------
  // The cursor itself

  class Deserializer {
    /** Number of start tags consumed and not yet closed. */
    var depth: nat
    /** What the owned `EventReader` answers, one item per `next` call. */
    const input: seq<ReaderItem>
    /** How many answers of the reader have been consumed. */
    var pos: nat
    /** The event held back by the last `peek`, if any. */
    var peeked: Option<XmlEvent>

    ghost predicate Valid()
      reads this
    {
      && pos <= |input|
      && (peeked.Some? ==> !Skipped(peeked.value))
      && NeverBelowZero(depth, Upcoming())
    }

    /** The events the cursor will deliver: the buffered one, then the
        reader's remaining visible events. */
    function Upcoming(): seq<XmlEvent>
      reads this
      requires pos <= |input|
    {
      (if peeked.Some? then [peeked.value] else []) + Visible(input[pos..])
    }

    function Current(): View
      reads this
      requires pos <= |input|
    {
      View(depth, Upcoming(), EndingOf(input[pos..]))
    }

    /** `new`: a cursor at depth 0 with an empty lookahead buffer over a
        reader that never yields an end tag without its start tag. */
    constructor (reader: seq<ReaderItem>)
      requires NeverBelowZero(0, Visible(reader))
      ensures Valid()
      ensures depth == 0 && peeked == None && input == reader && pos == 0
      ensures Current() == View(0, Visible(reader), EndingOf(reader))
    {
      depth := 0;
      input := reader;
      pos := 0;
      peeked := None;
      new;
      assert reader[0..] == reader;
      assert Upcoming() == Visible(reader);
    }

    /** One call of the reader's `next`: an event is consumed, an error is
        not (the reader keeps answering with it). */
    method ReaderNext() returns (r: ReaderItem)
      requires pos <= |input|
      modifies this`pos
      ensures pos <= |input|
      ensures old(pos) == |input| ==> r == Err(UnexpectedEof) && pos == old(pos)
      ensures old(pos) < |input| ==> r == input[old(pos)]
      ensures pos == if r.Ok? then old(pos) + 1 else old(pos)
    {
      if pos == |input| {
        r := Err(UnexpectedEof);
      } else {
        r := input[pos];
        if r.Ok? {
          pos := pos + 1;
        }
      }
    }

    /** `inner_next`: reads past document-start, processing-instruction and
        comment events and returns the first other answer of the reader. */
    method InnerNext() returns (r: Result<XmlEvent, ReaderError>)
      requires pos <= |input|
      modifies this`pos
      ensures old(pos) <= pos <= |input|
      ensures r.Ok? <==> Visible(input[old(pos)..]) != []
      ensures r.Ok? ==> !Skipped(r.value) && [r.value] + Visible(input[pos..]) == Visible(input[old(pos)..])
      ensures r.Err? ==> r.error == EndingOf(input[old(pos)..]) && Visible(input[pos..]) == []
      ensures EndingOf(input[pos..]) == EndingOf(input[old(pos)..])
    {
      while true
        invariant old(pos) <= pos <= |input|
        invariant Visible(input[pos..]) == Visible(input[old(pos)..])
        invariant EndingOf(input[pos..]) == EndingOf(input[old(pos)..])
        decreases |input| - pos
      {
        ghost var before := pos;
        r := ReaderNext();
        if r.Ok? {
          assert input[before..][1..] == input[pos..];
        }
        if !(r.Ok? && Skipped(r.value)) {
          return;
        }
      }
    }

    /** `peek`: fills the buffer if it is empty, and returns the buffered
        event. Neither the depth nor what will be delivered changes. */
    method Peek() returns (r: Result<XmlEvent, DeError>)
      requires Valid()
      modifies this
      ensures Valid()
      ensures Outcome(r, Current()) == PeekOf(old(Current()))
      ensures depth == old(depth)
      ensures r.Ok? ==> peeked == Some(r.value)
      ensures old(peeked).Some? ==> r == Ok(old(peeked).value) && pos == old(pos) && peeked == old(peeked)
      ensures old(peeked).None? && r.Ok? ==>
        Visible(input[old(pos)..]) == [r.value] + Visible(input[pos..])
    {
      if peeked.None? {
        var next := InnerNext();
        if next.Err? {
          r := Err(Transport(next.error));
          return;
        }
        peeked := Some(next.value);
        assert Upcoming() == old(Upcoming());
      }
      match peeked {
        case Some(e) => r := Ok(e);
        case None => r := Err(CouldNotPeek);
      }
    }

    /** The first step of `next_event`: the buffered event if there is one,
        taken out of the buffer, else the next event the reader yields. */
    method TakeNext() returns (r: Result<XmlEvent, ReaderError>)
      requires Valid()
      modifies this`pos, this`peeked
      ensures pos <= |input| && peeked == None
      ensures EndingOf(input[pos..]) == old(EndingOf(input[pos..]))
      ensures r.Ok? ==> [r.value] + Upcoming() == old(Upcoming())
      ensures r.Err? ==> r.error == old(EndingOf(input[pos..])) && Upcoming() == [] == old(Upcoming())
      ensures old(peeked).Some? ==> r == Ok(old(peeked).value) && pos == old(pos)
    {
      match peeked {
        case Some(e) =>
          r := Ok(e);
          peeked := None;
        case None =>
          r := InnerNext();
      }
    }

    /** `next_event`: the buffered event if there is one, else a fresh one;
        the buffer is left empty and the depth follows the event. */
    method NextEvent() returns (r: Result<XmlEvent, DeError>)
      requires Valid()
      modifies this
      ensures Valid()
      ensures Outcome(r, Current()) == NextOf(old(Current()))
      ensures peeked == None
      ensures old(peeked).Some? ==> r == Ok(old(peeked).value) && pos == old(pos)
    {
      ghost var before := Current();
      var fetched := TakeNext();
      if fetched.Err? {
        r := Err(Transport(fetched.error));
        return;
      }
      var next := fetched.value;
      NextOfFirst(before, next, Upcoming());
      match next {
        case StartElement(_, _, _) =>
          depth := depth + 1;
        case EndElement(_) =>
          depth := depth - 1;
        case _ =>
      }
      r := Ok(next);
    }

    /** `next_start_element_event`. */
    method NextStartElementEvent() returns (r: Result<(Name, Namespace, seq<Attribute>), DeError>)
      requires Valid()
      modifies this
      ensures Valid()
      ensures Outcome(r, Current()) == StartOf(old(Current()))
    {
      var next := NextEvent();
      match next
      case Err(x) => r := Err(x);
      case Ok(StartElement(name, attributes, namespace)) => r := Ok((name, namespace, attributes));
      case Ok(e) => r := Err(UnexpectedEvent(e));
    }

    /** `next_end_element_event`. */
    method NextEndElementEvent() returns (r: Result<Name, DeError>)
      requires Valid()
      modifies this
      ensures Valid()
      ensures Outcome(r, Current()) == EndOf(old(Current()))
    {
      var next := NextEvent();
      match next
      case Err(x) => r := Err(x);
      case Ok(EndElement(name)) => r := Ok(name);
      case Ok(e) => r := Err(UnexpectedEvent(e));
    }

    /** `skip_element`, with the callback's view of it returned as `visited`:
        the events it would have been handed, in order. */
    method SkipElement() returns (r: Result<(), DeError>, visited: seq<XmlEvent>)
      requires Valid()
      modifies this
      ensures Valid()
      ensures SkipRun(visited, r, Current()) == SkipFrom(old(Current()), old(depth))
    {
      var entry := depth;
      ghost var whole := SkipFrom(Current(), entry);
      visited := [];
      r := Ok(());
      while depth >= entry
        invariant Valid()
        invariant var rest := SkipFrom(Current(), entry);
          visited + rest.visited == whole.visited && rest.result == whole.result && rest.after == whole.after
        decreases |Upcoming()|
      {
        var next := NextEvent();
        if next.Err? {
          r := Err(next.error);
          return;
        }
        visited := visited + [next.value];
      }
    }

    /** `depth`: the number of elements open. */
    method Depth() returns (d: nat)
      requires Valid()
      ensures d == Current().depth
    {
      d := depth;
    }

    /** `read_inner_value`: the body is given by its effect on the cursor
        (see `BodyRun`); its reads are performed here, one `next_event` each. */
    method ReadInnerValue<T>(body: View -> BodyRun<T>) returns (r: Result<T, DeError>)
      requires Valid()
      modifies this
      ensures Valid()
      ensures Outcome(r, Current()) == ReadInnerOf(old(Current()), body)
    {
      var start := NextStartElementEvent();
      if start.Err? {
        r := Err(start.error);
        return;
      }
      var run := body(Current());
      ghost var bodyStart := Current();
      var i := 0;
      while i < run.consumed
        invariant Valid()
        invariant i <= run.consumed
        invariant Consume(Current(), run.consumed - i) == Consume(bodyStart, run.consumed)
      {
        var next := NextEvent();
        if next.Err? {
          r := Err(next.error);
          return;
        }
        i := i + 1;
      }
      if run.result.Err? {
        r := Err(run.result.error);
        return;
      }
      var end := ExpectEndElement(start.value.0);
      if end.Err? {
        r := Err(end.error);
        return;
      }
      r := Ok(run.result.value);
    }

    /** `expect_end_element`. */
    method ExpectEndElement(start: Name) returns (r: Result<(), DeError>)
      requires Valid()
      modifies this
      ensures Valid()
      ensures Outcome(r, Current()) == ExpectEndOf(old(Current()), start)
    {
      var end := NextEndElementEvent();
      if end.Err? {
        r := Err(end.error);
        return;
      }
      if end.value != start {
        r := Err(ElementTags(start, end.value));
        return;
      }
      r := Ok(());
    }
  }
}
