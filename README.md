# yaserde deserialization core, modelled in Dafny

This project models two components of yaserde, an XML binding library for
Rust:

- **The event cursor** (`Deserializer` in `yaserde/src/de/deserializer.rs`).
  It wraps the xml-rs pull parser (`EventReader`) and adds three things:
  - one-event lookahead (`peek`);
  - filtering of document-start, processing-instruction and comment events;
  - bookkeeping of the nesting depth.
  On top of these it offers kind-checked reads, start/end tag matching
  (`expect_end_element`, `read_inner_value`) and subtree skipping
  (`skip_element`).
- **The field-binding descriptor** (`YaSerdeAttribute` in
  `yaserde_derive/src/common/attribute.rs`). It is the record that the
  derive macros build from a field's or type's `#[yaserde(...)]`
  annotations. Around it sit the two naming rules (`xml_element_name`,
  `prefix_namespace`) and the namespace guard that `get_namespace_matching`
  emits into generated code.

Files:

- `wrappers.dfy` (`Wrappers`): `Option` and `Result`.
- `xml.dfy` (`Xml`): the xml-rs event vocabulary. Names are structural
  records. The module also holds the depth arithmetic (`Step`,
  `DepthAfter`, `StaysAtLeast`) and `Visible`, which gives the events that
  the cursor's fetch layer delivers from what the reader answers.
- `deserializer.dfy` (`De`): the cursor. Each operation is first stated on
  a value, `View`. A view holds three things: the depth, the events still to
  be delivered in order, and the failure that follows them. The
  `Deserializer` class keeps the source's own state: `depth`, the `peeked`
  buffer, and the reader's answers with a read position. `Peek`,
  `NextEvent`, `NextStartElementEvent`, `NextEndElementEvent`,
  `SkipElement`, `ReadInnerValue` and `ExpectEndElement` are each proved to
  act on `Current()` as their `View` function says. `ReaderNext`,
  `InnerNext` and `TakeNext` work below that level; their contracts speak
  of the read position, the buffer and the visible events directly. The
  lemmas about the `View` functions state what the source promises.
- `attribute.dfy` (`Common`): token trees, the descriptor, `get_value`,
  `set_value` and `parse`. Here `parse` is an imperative method with the
  source's two loops, proved equal to the fold `ParseOf`. The module also
  holds the naming rules and the guard.

How the reader is modelled: its answers are a sequence of
`Result<XmlEvent, ReaderError>`.
- An event answer is consumed.
- An error answer is not consumed. xml-rs keeps repeating its error once it
  has produced one, and the model matches that.
- A read past the end is the transport failure `UnexpectedEof`.

Three behaviours of the code that the model keeps:
- `skip_element` stops once the depth drops below its entry depth. Entered
  in front of a child element, it therefore consumes the rest of the
  enclosing element, including its end tag, and ends one level up.
- The namespace check emitted by `get_namespace_matching` reports a
  mismatch as the message `bad namespace for <name>, found <namespace>`.
- A valued annotation key always takes the next two tokens, whatever they
  are; the value is set only when they are `=` and a literal.

## Model

| member | source | states |
|---|---|---|
| Xml.Visible | yaserde/src/de/deserializer.rs:51-64 | the fetch layer never delivers a document-start, processing-instruction or comment event, and delivers at most one event per reader answer |
| Xml.Step | yaserde/src/de/deserializer.rs:74-82 | one event moves the depth by +1 for a start tag, -1 for an end tag and 0 for any other event |
| Xml.NestedDepth | yaserde/src/de/deserializer.rs:74-82 | after the N start tags of N nested elements the depth has grown by N; after their N end tags it is back where it started, never having dropped below it |
| De.PeekOf | yaserde/src/de/deserializer.rs:38-49 | peek returns the next event to be delivered, or the stream's transport failure when none is left, and changes nothing |
| De.PeekThenNext | yaserde/src/de/deserializer.rs:38-72 | peeking twice gives the same answer, and a read after a successful peek delivers the peeked event |
| De.NextOf | yaserde/src/de/deserializer.rs:66-86 | next_event delivers the first upcoming event and removes exactly that one; depth moves +1 on a start tag, -1 on an end tag, 0 otherwise; with no event left it fails with the transport error and changes nothing; depth never underflows |
| De.StartOf | yaserde/src/de/deserializer.rs:88-95 | succeeds iff the next event is a start tag, returning its name, namespace and attributes; any other event fails with UnexpectedEvent(that event), which stays consumed and has moved the depth; with no event left it fails with the transport error |
| De.EndOf | yaserde/src/de/deserializer.rs:97-104 | succeeds iff the next event is an end tag, returning its name; any other event fails with UnexpectedEvent(that event), consumed; with no event left it fails with the transport error |
| De.ExpectEndOf | yaserde/src/de/deserializer.rs:130-139 | succeeds iff the next event is the end tag of the given name; an end tag with another name fails with ElementTags(expected, found); any other event fails with UnexpectedEvent(that event); with no event left it fails with the transport error |
| De.Consume | yaserde/src/de/deserializer.rs:66-86 | successive next_event calls as a body makes them: they never add events or change the stream's closing failure, and a failure can only be the transport error with no event left |
| De.ReadInnerOf | yaserde/src/de/deserializer.rs:120-128 | read_inner_value with no event left fails with the transport error; a first event that is not a start tag fails with UnexpectedEvent(that event), consumed; every call consumes at least one event when there is one |
| De.SkipFrom | yaserde/src/de/deserializer.rs:106-114 | skip_element's loop hands the consumed events out in order, leaving exactly the rest of the stream; a failure is the transport error with nothing left; below the entry depth it consumes nothing |
| De.ConsumeTakesPrefix | yaserde/src/de/deserializer.rs:66-82 | k reads remove exactly the next k events, with none dropped or repeated, and move the depth by their combined effect; asking for more than remain consumes everything and fails with the transport error |
| De.SkipElementSpec | yaserde/src/de/deserializer.rs:106-114 | skip_element entered at depth d hands every consumed event to the callback in order; it succeeds iff the stream holds the end tag of the element open at entry, stopping right after it at depth d-1, the depth never below d before it; otherwise it consumes everything and fails; at depth 0 it never succeeds |
| De.SkipFromCharacterised | yaserde/src/de/deserializer.rs:106-114 | the same characterisation for any entry floor at or below the current depth |
| De.SkipFromDepth | yaserde/src/de/deserializer.rs:106-114 | the depth after skipping is the entry depth moved by the skipped events |
| De.SkipElementStopsAboveEntry | yaserde/src/de/deserializer.rs:106-114 | in front of `<x><y/><z/></x></p>` inside `<p>`, skip_element consumes all seven events including `</p>` and ends one level above its entry depth |
| De.ReadInnerValueSucceeds | yaserde/src/de/deserializer.rs:120-128 | read_inner_value succeeds iff the next event is a start tag, the body succeeds after reading only existing events, and the following event is the end tag with the start tag's name; the value is the body's and the cursor sits right after that end tag |
| De.ReadInnerValueBodyFails | yaserde/src/de/deserializer.rs:120-128 | when the body fails, its error is returned and no end tag is read |
| De.ReadInnerValueMismatch | yaserde/src/de/deserializer.rs:120-139 | when the body stops before an end tag with another name, the error is ElementTags(start name, end name) |
| De.ReadInnerValueUnclosed | yaserde/src/de/deserializer.rs:120-139 | when the body stops in front of an event that is not an end tag, the error is UnexpectedEvent(that event) |
| De.ReadInnerValueRunsOut | yaserde/src/de/deserializer.rs:120-139 | when the body succeeds but no event is left for the end tag, the error is the transport error and the stream is used up |
| De.InnerRun | yaserde/src/de/deserializer.rs:120-128 | a body that is itself one read_inner_value call returns that call's result, and replaying its reported count of plain reads from the same view ends exactly where that call ends |
| De.ReadInnerReplay | yaserde/src/de/deserializer.rs:120-128 | read_inner_value only ever consumes a prefix of the stream: replaying that many plain reads from the same view reaches the view it leaves behind |
| De.ConsumeThen | yaserde/src/de/deserializer.rs:66-86 | reading `a` events and then `b` more is the same as reading `a + b` events, depth and ending included |
| De.ConsumeOverrun | yaserde/src/de/deserializer.rs:66-86 | asking for more reads than there are events ends in the same view as reading exactly the events there are |
| De.ReadInnerValueNested | yaserde/src/de/deserializer.rs:120-128 | `<a><b>text</b></a>` read with a body that is itself read_inner_value on `<b>text</b>` yields the inner text and leaves the cursor after `</a>` at its starting depth |
| De.ReadInnerValueWrongEnd | yaserde/src/de/deserializer.rs:120-139 | `<a>text</c>` fails with ElementTags(a, c) |
| De.Deserializer.constructor | yaserde/src/de/deserializer.rs:19-25 | a new cursor has depth 0, an empty lookahead buffer, and will deliver the reader's visible events in order |
| De.Deserializer.ReaderNext | yaserde/src/de/deserializer.rs:53 | one call of the reader's next: an event is consumed, an error is returned without being consumed, past the end comes UnexpectedEof |
| De.Deserializer.InnerNext | yaserde/src/de/deserializer.rs:51-64 | inner_next loops past filtered events and returns the first visible event (removing it and nothing visible before it) or the reader's error, which it returns unchanged |
| De.Deserializer.TakeNext | yaserde/src/de/deserializer.rs:67-71 | takes the buffered event when there is one, reading nothing, else the next visible event from the reader; the buffer is empty afterwards and the taken event is exactly the first of those that were upcoming; on a reader error nothing was upcoming |
| De.Deserializer.Peek | yaserde/src/de/deserializer.rs:38-49 | acts as PeekOf; the depth never changes; a full buffer is returned without reading input; an empty buffer is filled with exactly the next visible event |
| De.Deserializer.NextEvent | yaserde/src/de/deserializer.rs:66-86 | acts as NextOf; the buffered event is returned first when there is one; the buffer is empty afterwards |
| De.Deserializer.NextStartElementEvent | yaserde/src/de/deserializer.rs:88-95 | acts as StartOf |
| De.Deserializer.NextEndElementEvent | yaserde/src/de/deserializer.rs:97-104 | acts as EndOf |
| De.Deserializer.SkipElement | yaserde/src/de/deserializer.rs:106-114 | acts as SkipFrom entered at the current depth; `visited` is what the callback receives |
| De.Deserializer.Depth | yaserde/src/de/deserializer.rs:116-118 | returns the number of open elements |
| De.Deserializer.ReadInnerValue | yaserde/src/de/deserializer.rs:120-128 | acts as ReadInnerOf |
| De.Deserializer.ExpectEndElement | yaserde/src/de/deserializer.rs:130-139 | acts as ExpectEndOf |
| Common.StripQuotes | yaserde_derive/src/common/attribute.rs:27 | the result holds no double quote and is no longer than the input; quote-free text is returned unchanged |
| Common.StripQuotesKeepsOthers | yaserde_derive/src/common/attribute.rs:27 | every character other than a double quote is kept, each as often as in the input |
| Common.StripQuotesAppend | yaserde_derive/src/common/attribute.rs:27 | quotes are removed piece by piece, so the remaining characters keep their order |
| Common.UnquoteLiteral | yaserde_derive/src/common/attribute.rs:27 | a string literal `"s"` without quotes inside gives back exactly `s` |
| Common.Split | yaserde_derive/src/common/attribute.rs:70 | splitting always yields at least one part and no part longer than the text |
| Common.SplitJoin | yaserde_derive/src/common/attribute.rs:70 | splitting a namespace value at ": " loses nothing: joining the parts gives the value back |
| Common.SplitPrefixed | yaserde_derive/src/common/attribute.rs:70-72 | `prefix: uri` splits into exactly [prefix, uri] when neither contains the separator |
| Common.SplitWithoutSeparator | yaserde_derive/src/common/attribute.rs:70-75 | a value without the separator is a single part |
| Common.SplitPartsSeparatorFree | yaserde_derive/src/common/attribute.rs:70 | no part of a split contains the separator, and the first part is a prefix of the text: together with SplitJoin the text is cut at every occurrence of `: ` |
| Common.SplitAtFirst | yaserde_derive/src/common/attribute.rs:70 | a text whose leading piece has no separator is cut right after that piece, the rest being split the same way |
| Common.ExtraSeparatorIgnored | yaserde_derive/src/common/attribute.rs:69-77 | a namespace value `p: q: r` with separator-free pieces splits into three parts and leaves the namespace table unchanged |
| Common.GetValue | yaserde_derive/src/common/attribute.rs:22-31 | always pulls the next two tokens (fewer only at the end); yields the literal's unquoted text iff they are `=` and a literal, None otherwise |
| Common.AddNamespace | yaserde_derive/src/common/attribute.rs:68-78 | two parts insert Some(prefix) to uri, one part inserts None to the value, three or more parts and an absent value leave the table unchanged; an insert overwrites |
| Common.SetValue | yaserde_derive/src/common/attribute.rs:53-97 | a flag key sets its flag and no flag is ever cleared; a valued key overwrites its field with get_value's result (None when no `= "..."` follows) and advances past two tokens; unknown identifiers and non-identifiers change nothing and consume nothing |
| Common.ScanTokens | yaserde_derive/src/common/attribute.rs:43-45 | scanning an argument list never clears a flag |
| Common.Contributes | yaserde_derive/src/common/attribute.rs:37-40 | an attribute contributes iff its path is the single identifier `yaserde` and its first token is a parenthesised group |
| Common.ApplyAttr | yaserde_derive/src/common/attribute.rs:37-47 | an attribute that is not `yaserde` with a parenthesised first group leaves the record unchanged, and none clears a flag |
| Common.Parse | yaserde_derive/src/common/attribute.rs:34-51 | parse equals the fold ParseOf over the attributes; no attributes give the default record |
| Common.ParseOf | yaserde_derive/src/common/attribute.rs:34-51 | with no contributing attribute the record is the default |
| Common.Contributing | yaserde_derive/src/common/attribute.rs:37-41 | keeps only attributes whose path is `yaserde` and whose first token is a parenthesised group |
| Common.OnlyYaserdeAttributesCount | yaserde_derive/src/common/attribute.rs:37-41 | dropping every other attribute leaves parse's result unchanged |
| Common.FlagsNeverReset | yaserde_derive/src/common/attribute.rs:53-95 | a flag set by some attribute stays set whatever attributes follow |
| Common.ParseAttributeFlag | yaserde_derive/src/tests/common/attribute.rs:27-75 | `#[yaserde(attribute)]` gives the default record with `attribute` set |
| Common.ParseIgnoresSerde | yaserde_derive/src/tests/common/attribute.rs:77-125 | `#[serde(flatten)]` gives the default record |
| Common.ValuedKeySwallowsTwoTokens | yaserde_derive/src/common/attribute.rs:22-31 | in `#[yaserde(rename, attribute)]` the valued key swallows `, attribute`, so the record stays the default |
| Common.ParseWithValues | yaserde_derive/src/tests/common/attribute.rs:127-181 | `attribute, flatten, default_namespace = "ns", namespace = "ns: uri"` sets both flags, the default namespace and the single entry Some(ns) to uri; prefix_namespace then gives "" |
| Common.LaterNamespaceOverwrites | yaserde_derive/src/common/attribute.rs:68-78 | two `namespace` entries for the same prefix: the later URI wins |
| Common.EntriesOverwrite | yaserde_derive/src/common/attribute.rs:68-78 | two adjacent `namespace = "prefix: uri"` entries for the same prefix, separated by one comma and ending the argument list, scanned from whatever state the earlier entries left: the later URI is the one recorded |
| Common.XmlElementName | yaserde_derive/src/common/attribute.rs:99-101 | the renamed name when `rename` is set, the identifier otherwise |
| Common.RenameNamesElement | yaserde_derive/src/common/attribute.rs:82-84 | `rename = "lit"` makes the element name the literal without its quotes |
| Common.PrefixNamespace | yaserde_derive/src/common/attribute.rs:103-112 | "" exactly when the prefix equals the default namespace (both None included) or no prefix is set; otherwise the prefix followed by ":" |
| Common.ConfiguredPrefix | yaserde_derive/src/common/attribute.rs:121-125 | the type's own prefix when take_root_prefix is set, the caller's otherwise |
| Common.MatchArmsIsLookup | yaserde_derive/src/common/attribute.rs:127-137 | the emitted match has one arm exactly for the URI declared for the configured prefix, and none when that prefix is undeclared |
| Common.NamespaceGuard | yaserde_derive/src/common/attribute.rs:114-150 | the configured prefix is the type's own when take_root_prefix is set, else the caller's; an absent namespace passes; a present one passes iff it equals the URI declared for the configured prefix, otherwise BadNamespace(element name, found namespace) |

## Left out

- `Deserializer::new_from_reader` and its parser configuration (whitespace trimming, CDATA as text, coalescing) belong to xml-rs. Their output is the model's input sequence.
- The `log::debug!` call in `next_event` is instrumentation.
- Error display text and the error-stack context wrapping are left out. The model keeps only the innermost cause. `ElementNameError` is not used by the modelled code.
- `yaserde/src/de/from.rs` (opening files, building readers) and `yaserde_derive/src/lib.rs` (the proc-macro entry points) are left out; both are I/O or code generation.
- The token output of `get_namespace_matching` (`quote!`) is left out. `NamespaceGuard` states what the emitted code does when it runs, and `GuardError.Message` gives its message.
- De.Deserializer.ReadInnerValue: the body closure is modelled by its effect: how many events it reads through the cursor and what it returns. A body that only reads through the cursor is fully described this way. A body with other side effects is not.
- De.Deserializer.SkipElement: the callback is modelled by the sequence of events it receives (`visited`). Side effects of the callback are not modelled.
- De.Deserializer.constructor: the constructor requires that the reader never yields an end tag without a matching start tag. In Rust, `depth -= 1` on a `usize` of 0 panics in debug builds and wraps in release builds; the model rules that case out instead of modelling it. xml-rs itself rejects unmatched end tags.
- The reader's input is finite, and a read past its end is a transport failure. xml-rs instead keeps answering with `EndDocument` after the document ends. So `skip_element` entered at depth 0 would loop forever in the source; in the model it ends with a failure.
- Common.Contributes: an attribute path is its list of segments. A leading `::` and generic arguments on the path are not modelled. A token's punctuation spacing and span are not modelled either.
- Common.StripQuotes: a literal is its source text, so raw strings and escape sequences are not interpreted. The source does the same: it removes quote characters from the literal's printed form.
