/** The field-binding descriptor built from a field's or type's
    `#[yaserde(...)]` annotations, the two naming rules derived from it, and
    the meaning of the namespace guard that the derive macros emit. */
module Common {
  import opened Wrappers

  datatype Delimiter = Parenthesis | Brace | Bracket | NoDelimiter

  /** A token of an annotation's argument list. A literal keeps its source
      text, quotes included (`"example"`). */
  datatype TokenTree =
    | Ident(name: string)
    | Punct(ch: char)
    | Literal(text: string)
    | Group(delimiter: Delimiter, stream: seq<TokenTree>)

  /** An outer attribute `#[path tokens]`; the path is given by its segments. */
  datatype Attr = Attr(path: seq<string>, tokens: seq<TokenTree>)

  datatype YaSerdeAttribute = YaSerdeAttribute(
    attribute: bool,
    default: Option<string>,
    defaultNamespace: Option<string>,
    flatten: bool,
    namespaces: map<Option<string>, string>,
    prefix: Option<string>,
    rename: Option<string>,
    skipSerializing: bool,
    skipSerializingIf: Option<string>,
    text: bool)

  /** The record before any annotation is read. */
  function Default(): YaSerdeAttribute {
    YaSerdeAttribute(false, None, None, false, map[], None, None, false, None, false)
  }

  /** The separator between prefix and URI in a `namespace` value. */
  const NamespaceSeparator: string := ": "

  // ---------------------------------------------------------------------
  // String helpers

  /** `s` with every double quote removed. */
  function StripQuotes(s: string): (r: string)
    ensures '"' !in r
    ensures |r| <= |s|
    ensures '"' !in s ==> r == s
  {
    if s == [] then []
    else (if s[0] == '"' then [] else [s[0]]) + StripQuotes(s[1..])
  }

  /** Removing quotes keeps every other character, each as often as in `s`. */
  lemma {:induction false} StripQuotesKeepsOthers(s: string)
    ensures multiset(StripQuotes(s)) == multiset(s)['"' := 0]
    decreases |s|
  {
    if s != [] {
      StripQuotesKeepsOthers(s[1..]);
      assert s == [s[0]] + s[1..];
    }
  }

  /** `sep` occurs somewhere in `s`. */
  predicate Contains(s: string, sep: string)
    decreases |s|
  {
    |sep| <= |s| && (s[..|sep|] == sep || Contains(s[1..], sep))
  }

  /** `s` cut at every occurrence of `sep`, scanning left to right. */
  function Split(s: string, sep: string): (parts: seq<string>)
    requires |sep| > 0
    ensures |parts| >= 1
    ensures forall i :: 0 <= i < |parts| ==> |parts[i]| <= |s|
    decreases |s|
  {
    if |s| < |sep| then [s]
    else if s[..|sep|] == sep then [""] + Split(s[|sep|..], sep)
    else
      var rest := Split(s[1..], sep);
      [[s[0]] + rest[0]] + rest[1..]
  }

  /** `parts` glued together with `sep` between neighbours. */
  function Join(parts: seq<string>, sep: string): string
    requires |parts| >= 1
    decreases |parts|
  {
    if |parts| == 1 then parts[0] else parts[0] + sep + Join(parts[1..], sep)
  }

  lemma JoinCons(first: string, parts: seq<string>, sep: string)
    requires |parts| >= 1
    ensures Join([first] + parts, sep) == first + sep + Join(parts, sep)
  {
    assert ([first] + parts)[1..] == parts;
  }

  /** Splitting loses nothing: gluing the parts back gives the original text. */
  lemma {:induction false} SplitJoin(s: string, sep: string)
    requires |sep| > 0
    ensures Join(Split(s, sep), sep) == s
    decreases |s|
  {
    if |s| < |sep| {
    } else if s[..|sep|] == sep {
      var tail := Split(s[|sep|..], sep);
      assert Split(s, sep) == [""] + tail;
      SplitJoin(s[|sep|..], sep);
      JoinCons("", tail, sep);
      assert s == sep + s[|sep|..];
    } else {
      var rest := Split(s[1..], sep);
      var head := [s[0]] + rest[0];
      assert Split(s, sep) == [head] + rest[1..];
      SplitJoin(s[1..], sep);
      if |rest| == 1 {
        assert [head] + rest[1..] == [head];
      } else {
        JoinCons(head, rest[1..], sep);
        assert rest == [rest[0]] + rest[1..];
        JoinCons(rest[0], rest[1..], sep);
      }
      assert s == [s[0]] + s[1..];
    }
  }

  /** Text without the separator is one part. */
  lemma {:induction false} SplitWithoutSeparator(s: string)
    requires !Contains(s, NamespaceSeparator)
    ensures Split(s, NamespaceSeparator) == [s]
    decreases |s|
  {
    if |s| >= 2 {
      SplitWithoutSeparator(s[1..]);
      assert [s[0]] + s[1..] == s;
    }
  }

  /** No part contains the separator, so together with `SplitJoin` the text
      is cut at every occurrence of it; the first part starts the text. */
  lemma {:induction false} SplitPartsSeparatorFree(s: string, sep: string)
    requires |sep| > 0
    ensures forall i :: 0 <= i < |Split(s, sep)| ==> !Contains(Split(s, sep)[i], sep)
    ensures s[..|Split(s, sep)[0]|] == Split(s, sep)[0]
    decreases |s|
  {
    var parts := Split(s, sep);
    if |s| < |sep| {
      assert parts == [s];
    } else if s[..|sep|] == sep {
      SplitPartsSeparatorFree(s[|sep|..], sep);
      assert parts == [""] + Split(s[|sep|..], sep);
    } else {
      var rest := Split(s[1..], sep);
      SplitPartsSeparatorFree(s[1..], sep);
      var head := [s[0]] + rest[0];
      assert parts == [head] + rest[1..];
      assert head[1..] == rest[0];
      assert s[..|head|] == head by {
        assert s == [s[0]] + s[1..];
      }
      if |sep| <= |head| {
        assert head[..|sep|] == s[..|sep|];
      }
      forall i | 0 <= i < |parts|
        ensures !Contains(parts[i], sep)
      {
        if i > 0 {
          assert parts[i] == rest[i];
        }
      }
    }
  }

  /** A text whose first piece `prefix` has no separator is cut right after
      `prefix`. */
  lemma {:induction false} SplitAtFirst(prefix: string, rest: string)
    requires !Contains(prefix, NamespaceSeparator)
    ensures Split(prefix + NamespaceSeparator + rest, NamespaceSeparator)
         == [prefix] + Split(rest, NamespaceSeparator)
    decreases |prefix|
  {
    var s := prefix + NamespaceSeparator + rest;
    if prefix == [] {
      assert s[..2] == NamespaceSeparator && s[2..] == rest;
    } else {
      assert s[1..] == prefix[1..] + NamespaceSeparator + rest;
      if |prefix| >= 2 {
        assert s[..2] == prefix[..2];
        assert !Contains(prefix[1..], NamespaceSeparator);
      } else {
        assert s[..2] == [prefix[0], ':'];
      }
      SplitAtFirst(prefix[1..], rest);
      assert [prefix[0]] + prefix[1..] == prefix;
    }
  }

  /** `prefix: uri` splits into exactly the prefix and the URI when neither
      contains the separator. */
  lemma SplitPrefixed(prefix: string, uri: string)
    requires !Contains(prefix, NamespaceSeparator) && !Contains(uri, NamespaceSeparator)
    ensures Split(prefix + NamespaceSeparator + uri, NamespaceSeparator) == [prefix, uri]
  {
    SplitAtFirst(prefix, uri);
    SplitWithoutSeparator(uri);
  }

  /** A text without spaces cannot contain the separator. */
  lemma {:induction false} NoSpaceNoSeparator(s: string)
    requires ' ' !in s
    ensures !Contains(s, NamespaceSeparator)
    decreases |s|
  {
    if |s| >= 2 {
      assert s[1] in s;
      NoSpaceNoSeparator(s[1..]);
    }
  }

  /** Removing quotes works piece by piece, so the order of the remaining
      characters is kept. */
  lemma {:induction false} StripQuotesAppend(s: string, t: string)
    ensures StripQuotes(s + t) == StripQuotes(s) + StripQuotes(t)
    decreases |s|
  {
    if s != [] {
      assert (s + t)[0] == s[0] && (s + t)[1..] == s[1..] + t;
      StripQuotesAppend(s[1..], t);
    } else {
      assert s + t == t;
    }
  }

  /** The text of a string literal `"s"` without its quotes is `s`. */
  lemma UnquoteLiteral(s: string)
    requires '"' !in s
    ensures StripQuotes("\"" + s + "\"") == s
  {
    StripQuotesAppend("\"" + s, "\"");
    StripQuotesAppend("\"", s);
    assert StripQuotes("\"") == StripQuotes([]) == [];
  }

  // ---------------------------------------------------------------------
  // Parsing

  /** `get_value`: pulls the next two tokens of the argument list (as many
      as there are, up to two) and yields the literal's text without its
      quotes when they are `=` and a literal. */
  function GetValue(tokens: seq<TokenTree>, next: nat): (r: (Option<string>, nat))
    requires next <= |tokens|
    ensures r.1 == if next + 2 <= |tokens| then next + 2 else |tokens|
    ensures r.0.Some? <==> next + 2 <= |tokens| && tokens[next] == Punct('=') && tokens[next + 1].Literal?
    ensures r.0.Some? ==> r.0.value == StripQuotes(tokens[next + 1].text) && '"' !in r.0.value
  {
    var first: Option<TokenTree> := if next < |tokens| then Some(tokens[next]) else None;
    var afterFirst := if next < |tokens| then next + 1 else next;
    var second: Option<TokenTree> := if afterFirst < |tokens| then Some(tokens[afterFirst]) else None;
    var afterSecond := if afterFirst < |tokens| then afterFirst + 1 else afterFirst;
    match (first, second)
    case (Some(Punct(op)), Some(Literal(value))) =>
      if op == '=' then (Some(StripQuotes(value)), afterSecond) else (None, afterSecond)
    case _ => (None, afterSecond)
  }

  /** The namespace table after a `namespace` entry whose value is `value`. */
  function AddNamespace(namespaces: map<Option<string>, string>, value: Option<string>): (r: map<Option<string>, string>)
    ensures value.None? ==> r == namespaces
    ensures value.Some? && |Split(value.value, NamespaceSeparator)| == 2 ==>
      var parts := Split(value.value, NamespaceSeparator); r == namespaces[Some(parts[0]) := parts[1]]
    ensures value.Some? && |Split(value.value, NamespaceSeparator)| == 1 ==>
      r == namespaces[None := value.value]
    ensures value.Some? && |Split(value.value, NamespaceSeparator)| > 2 ==> r == namespaces
  {
    match value
    case None => namespaces
    case Some(namespace) =>
      var parts := Split(namespace, NamespaceSeparator);
      if |parts| == 2 then namespaces[Some(parts[0]) := parts[1]]
      else if |parts| == 1 then
        SplitJoin(namespace, NamespaceSeparator);
        namespaces[None := parts[0]]
      else namespaces
  }

  /** A `namespace` value with two separators, `p: q: r`, is ignored. */
  lemma ExtraSeparatorIgnored(namespaces: map<Option<string>, string>, p: string, q: string, r: string)
    requires !Contains(p, NamespaceSeparator) && !Contains(q, NamespaceSeparator)
    requires !Contains(r, NamespaceSeparator)
    ensures AddNamespace(namespaces, Some(p + NamespaceSeparator + q + NamespaceSeparator + r)) == namespaces
  {
    assert p + NamespaceSeparator + q + NamespaceSeparator + r
        == p + NamespaceSeparator + (q + NamespaceSeparator + r);
    SplitAtFirst(p, q + NamespaceSeparator + r);
    SplitPrefixed(q, r);
  }

  /** The keys `set_value` recognises. */
  const Keys: set<string> := {"attribute", "default", "default_namespace", "flatten", "namespace",
                              "prefix", "rename", "skip_serializing", "skip_serializing_if", "text"}

  /** The keys that take a `= "value"`. */
  const ValuedKeys: set<string> := {"default", "default_namespace", "namespace", "prefix", "rename",
                                    "skip_serializing_if"}

  /** `set_value`: applies one item of the argument list to the record.
      `next` is the position of the argument iterator after `item`; the
      result carries the record and the iterator position after the call. */
  function SetValue(a: YaSerdeAttribute, item: TokenTree, tokens: seq<TokenTree>, next: nat)
    : (r: (YaSerdeAttribute, nat))
    requires next <= |tokens|
    ensures next <= r.1 <= |tokens|
    ensures !(item.Ident? && item.name in Keys) ==> r == (a, next)
    ensures item.Ident? && item.name in Keys - ValuedKeys ==> r.1 == next
    ensures item.Ident? && item.name in ValuedKeys ==> r.1 == GetValue(tokens, next).1
    // flags are only ever set, never cleared
    ensures a.attribute ==> r.0.attribute
    ensures a.flatten ==> r.0.flatten
    ensures a.skipSerializing ==> r.0.skipSerializing
    ensures a.text ==> r.0.text
    ensures r.0.attribute == (a.attribute || item == Ident("attribute"))
    ensures r.0.flatten == (a.flatten || item == Ident("flatten"))
    ensures r.0.skipSerializing == (a.skipSerializing || item == Ident("skip_serializing"))
    ensures r.0.text == (a.text || item == Ident("text"))
    // a flag key sets its flag and changes nothing else
    ensures item == Ident("attribute") ==> r.0 == a.(attribute := true)
    ensures item == Ident("flatten") ==> r.0 == a.(flatten := true)
    ensures item == Ident("skip_serializing") ==> r.0 == a.(skipSerializing := true)
    ensures item == Ident("text") ==> r.0 == a.(text := true)
    // a valued key overwrites its field, with None when no `= "..."` follows
    ensures item == Ident("rename") ==> r.0 == a.(rename := GetValue(tokens, next).0)
    ensures item == Ident("prefix") ==> r.0 == a.(prefix := GetValue(tokens, next).0)
    ensures item == Ident("default") ==> r.0 == a.(default := GetValue(tokens, next).0)
    ensures item == Ident("default_namespace") ==> r.0 == a.(defaultNamespace := GetValue(tokens, next).0)
    ensures item == Ident("skip_serializing_if") ==> r.0 == a.(skipSerializingIf := GetValue(tokens, next).0)
    ensures item == Ident("namespace") ==>
      r.0 == a.(namespaces := AddNamespace(a.namespaces, GetValue(tokens, next).0))
  {
    match item
    case Ident(name) =>
      if name == "attribute" then (a.(attribute := true), next)
      else if name == "default" then
        var v := GetValue(tokens, next); (a.(default := v.0), v.1)
      else if name == "default_namespace" then
        var v := GetValue(tokens, next); (a.(defaultNamespace := v.0), v.1)
      else if name == "flatten" then (a.(flatten := true), next)
      else if name == "namespace" then
        var v := GetValue(tokens, next); (a.(namespaces := AddNamespace(a.namespaces, v.0)), v.1)
      else if name == "prefix" then
        var v := GetValue(tokens, next); (a.(prefix := v.0), v.1)
      else if name == "rename" then
        var v := GetValue(tokens, next); (a.(rename := v.0), v.1)
      else if name == "skip_serializing" then (a.(skipSerializing := true), next)
      else if name == "skip_serializing_if" then
        var v := GetValue(tokens, next); (a.(skipSerializingIf := v.0), v.1)
      else if name == "text" then (a.(text := true), next)
      else (a, next)
    case _ => (a, next)
  }

  /** The `while let` loop of `parse` over one argument list, from position `next`. */
  function ScanTokens(a: YaSerdeAttribute, tokens: seq<TokenTree>, next: nat): (r: YaSerdeAttribute)
    requires next <= |tokens|
    ensures a.attribute ==> r.attribute
    ensures a.flatten ==> r.flatten
    ensures a.skipSerializing ==> r.skipSerializing
    ensures a.text ==> r.text
    decreases |tokens| - next
  {
    if next == |tokens| then a
    else
      var s := SetValue(a, tokens[next], tokens, next + 1);
      ScanTokens(s.0, tokens, s.1)
  }

  /** The path `yaserde`, a single identifier. */
  predicate IsYaserde(path: seq<string>) {
    path == ["yaserde"]
  }

  /** The argument list an attribute contributes: the stream of its first
      token when that is a parenthesised group and the path is `yaserde`. */
  predicate Contributes(attr: Attr)
    ensures Contributes(attr) <==>
      && attr.path == ["yaserde"]
      && |attr.tokens| > 0
      && attr.tokens[0].Group?
      && attr.tokens[0].delimiter.Parenthesis?
  {
    && IsYaserde(attr.path)
    && |attr.tokens| > 0
    && attr.tokens[0].Group?
    && attr.tokens[0].delimiter == Parenthesis
  }

  /** One iteration of `parse`'s loop over the attributes. */
  function ApplyAttr(a: YaSerdeAttribute, attr: Attr): (r: YaSerdeAttribute)
    ensures !Contributes(attr) ==> r == a
    ensures a.attribute ==> r.attribute
    ensures a.flatten ==> r.flatten
    ensures a.skipSerializing ==> r.skipSerializing
    ensures a.text ==> r.text
  {
    if Contributes(attr) then ScanTokens(a, attr.tokens[0].stream, 0) else a
  }

  /** The descriptor `parse` builds from `attrs`, read left to right. */
  function ParseOf(attrs: seq<Attr>): (r: YaSerdeAttribute)
    ensures Contributing(attrs) == [] ==> r == Default()
    decreases |attrs|
  {
    if attrs == [] then Default() else ApplyAttr(ParseOf(attrs[..|attrs| - 1]), attrs[|attrs| - 1])
  }

  /** `parse`: scans every `yaserde` attribute's parenthesised argument list
      item by item into one record that starts as `Default()`. */
  method Parse(attrs: seq<Attr>) returns (attribute: YaSerdeAttribute)
    ensures attribute == ParseOf(attrs)
    ensures attrs == [] ==> attribute == Default()
  {
    attribute := Default();
    for k := 0 to |attrs|
      invariant attribute == ParseOf(attrs[..k])
    {
      var attr := attrs[k];
      ghost var before := attribute;
      if IsYaserde(attr.path) && |attr.tokens| > 0 {
        match attr.tokens[0] {
          case Group(delimiter, stream) =>
            if delimiter == Parenthesis {
              var next := 0;
              while next < |stream|
                invariant next <= |stream|
                invariant ScanTokens(attribute, stream, next) == ScanTokens(before, stream, 0)
                decreases |stream| - next
              {
                var item := stream[next];
                var s := SetValue(attribute, item, stream, next + 1);
                attribute, next := s.0, s.1;
              }
            }
          case _ =>
        }
      }
      assert attrs[..k + 1][..k] == attrs[..k];
    }
    assert attrs[..|attrs|] == attrs;
  }

  // ---------------------------------------------------------------------
  // Properties of parsing

  /** Only `yaserde` attributes whose first token is a parenthesised group
      count: dropping every other attribute leaves the result unchanged. */
  function Contributing(attrs: seq<Attr>): (r: seq<Attr>)
    ensures forall i :: 0 <= i < |r| ==> Contributes(r[i])
    decreases |attrs|
  {
    if attrs == [] then []
    else Contributing(attrs[..|attrs| - 1]) + (if Contributes(attrs[|attrs| - 1]) then [attrs[|attrs| - 1]] else [])
  }

  lemma {:induction false} OnlyYaserdeAttributesCount(attrs: seq<Attr>)
    ensures ParseOf(Contributing(attrs)) == ParseOf(attrs)
    decreases |attrs|
  {
    if attrs != [] {
      var init := attrs[..|attrs| - 1];
      var last := attrs[|attrs| - 1];
      OnlyYaserdeAttributesCount(init);
      if Contributes(last) {
        var c := Contributing(init) + [last];
        assert c[..|c| - 1] == Contributing(init);
      } else {
        assert Contributing(attrs) == Contributing(init) + [];
        assert Contributing(init) + [] == Contributing(init);
        assert ParseOf(attrs) == ApplyAttr(ParseOf(init), last);
      }
    }
  }

  /** A flag, once set by some attribute, stays set whatever follows. */
  lemma {:induction false} FlagsNeverReset(attrs: seq<Attr>, more: seq<Attr>)
    ensures var a, b := ParseOf(attrs), ParseOf(attrs + more);
      && (a.attribute ==> b.attribute) && (a.flatten ==> b.flatten)
      && (a.skipSerializing ==> b.skipSerializing) && (a.text ==> b.text)
    decreases |more|
  {
    if more != [] {
      var all := attrs + more;
      var shorter := more[..|more| - 1];
      FlagsNeverReset(attrs, shorter);
      assert all[..|all| - 1] == attrs + shorter;
      assert ParseOf(all) == ApplyAttr(ParseOf(attrs + shorter), all[|all| - 1]);
    } else {
      assert attrs + more == attrs;
    }
  }

  /** An attribute `#[yaserde(items)]`. */
  function Yaserde(items: seq<TokenTree>): Attr {
    Attr(["yaserde"], [Group(Parenthesis, items)])
  }

  /** The record of `#[yaserde(attribute)]`. */
  lemma ParseAttributeFlag()
    ensures ParseOf([Yaserde([Ident("attribute")])]) == Default().(attribute := true)
  {
    var a := Yaserde([Ident("attribute")]);
    assert [a][..0] == [];
  }

  /** `#[serde(flatten)]` is not a `yaserde` attribute and leaves the default record. */
  lemma ParseIgnoresSerde()
    ensures ParseOf([Attr(["serde"], [Group(Parenthesis, [Ident("flatten")])])]) == Default()
  {
    var a := Attr(["serde"], [Group(Parenthesis, [Ident("flatten")])]);
    assert [a][..0] == [];
  }

  /** A valued key that is not followed by `= "..."` sets its field to None
      and swallows the next two tokens: in `rename, attribute` the
      `attribute` flag is never seen. */
  lemma ValuedKeySwallowsTwoTokens()
    ensures ParseOf([Yaserde([Ident("rename"), Punct(','), Ident("attribute")])]) == Default()
  {
    var items := [Ident("rename"), Punct(','), Ident("attribute")];
    var a := Yaserde(items);
    assert [a][..0] == [];
    assert SetValue(Default(), items[0], items, 1) == (Default(), 3);
  }

  /** The argument list `attribute, flatten, default_namespace = "ns",
      namespace = "ns: uri"`. */
  function WithValues(ns: string, uri: string): seq<TokenTree> {
    [Ident("attribute"), Punct(','), Ident("flatten"), Punct(','),
     Ident("default_namespace"), Punct('='), Literal("\"" + ns + "\""), Punct(','),
     Ident("namespace"), Punct('='), Literal("\"" + ns + ": " + uri + "\"")]
  }

  lemma DefaultNamespaceStep(a: YaSerdeAttribute, ns: string, uri: string)
    requires '"' !in ns
    ensures var items := WithValues(ns, uri);
      SetValue(a, items[4], items, 5) == (a.(defaultNamespace := Some(ns)), 7)
  {
    UnquoteLiteral(ns);
  }

  lemma NamespaceStep(a: YaSerdeAttribute, ns: string, uri: string)
    requires ' ' !in ns && ' ' !in uri && '"' !in ns && '"' !in uri
    ensures var items := WithValues(ns, uri);
      SetValue(a, items[8], items, 9) == (a.(namespaces := a.namespaces[Some(ns) := uri]), 11)
  {
    var items := WithValues(ns, uri);
    var value := ns + ": " + uri;
    assert '"' !in value;
    UnquoteLiteral(value);
    assert items[10] == Literal("\"" + value + "\"");
    assert GetValue(items, 9) == (Some(value), 11);
    assert value == ns + NamespaceSeparator + uri;
    NoSpaceNoSeparator(ns);
    NoSpaceNoSeparator(uri);
    SplitPrefixed(ns, uri);
    assert AddNamespace(a.namespaces, Some(value)) == a.namespaces[Some(ns) := uri];
  }

  /** The record of `#[yaserde(attribute, flatten, default_namespace = "ns",
      namespace = "ns: uri")]`, for any prefix and URI free of spaces and
      quotes (`ns` = example, `uri` = http://example.org in the source's
      test); its prefix is unset, so no prefix is written. */
  lemma ParseWithValues(ns: string, uri: string)
    requires ' ' !in ns && ' ' !in uri && '"' !in ns && '"' !in uri
    ensures var a := ParseOf([Yaserde(WithValues(ns, uri))]);
      && a == Default().(attribute := true, flatten := true, defaultNamespace := Some(ns),
                         namespaces := map[Some(ns) := uri])
      && PrefixNamespace(a) == ""
  {
    var items := WithValues(ns, uri);
    var attr := Yaserde(items);
    assert [attr][..0] == [];
    var a0 := Default();
    var a2 := a0.(attribute := true);
    var a4 := a2.(flatten := true);
    var a7 := a4.(defaultNamespace := Some(ns));
    var a11 := a7.(namespaces := map[Some(ns) := uri]);
    DefaultNamespaceStep(a4, ns, uri);
    NamespaceStep(a7, ns, uri);
    assert ScanTokens(a0, items, 0) == ScanTokens(a2, items, 1) == ScanTokens(a2, items, 2);
    assert ScanTokens(a2, items, 2) == ScanTokens(a4, items, 3) == ScanTokens(a4, items, 4);
    assert ScanTokens(a4, items, 4) == ScanTokens(a7, items, 7) == ScanTokens(a7, items, 8);
    assert ScanTokens(a7, items, 8) == ScanTokens(a11, items, 11) == a11;
  }

  /** `= "value"` at position `k` yields `value`. */
  lemma GetQuoted(tokens: seq<TokenTree>, k: nat, value: string)
    requires k + 2 <= |tokens| && '"' !in value
    requires tokens[k] == Punct('=') && tokens[k + 1] == Literal("\"" + value + "\"")
    ensures GetValue(tokens, k) == (Some(value), k + 2)
  {
    UnquoteLiteral(value);
  }

  /** A `namespace = "prefix: uri"` entry at position `k` binds `prefix` to `uri`. */
  lemma PrefixedEntryStep(a: YaSerdeAttribute, items: seq<TokenTree>, k: nat, prefix: string, uri: string)
    requires k + 3 <= |items|
    requires items[k] == Ident("namespace") && items[k + 1] == Punct('=')
    requires items[k + 2] == Literal("\"" + (prefix + NamespaceSeparator + uri) + "\"")
    requires !Contains(prefix, NamespaceSeparator) && !Contains(uri, NamespaceSeparator)
    requires '"' !in prefix && '"' !in uri
    ensures SetValue(a, items[k], items, k + 1) == (a.(namespaces := a.namespaces[Some(prefix) := uri]), k + 3)
  {
    var value := prefix + NamespaceSeparator + uri;
    assert '"' !in value;
    GetQuoted(items, k + 1, value);
    SplitPrefixed(prefix, uri);
    assert AddNamespace(a.namespaces, Some(value)) == a.namespaces[Some(prefix) := uri];
    assert "namespace" in ValuedKeys;
  }

  /** The scanning loop passes over a `namespace = "prefix: uri"` entry. */
  lemma ScanEntry(a: YaSerdeAttribute, items: seq<TokenTree>, k: nat, prefix: string, uri: string)
    requires k + 3 <= |items|
    requires items[k] == Ident("namespace") && items[k + 1] == Punct('=')
    requires items[k + 2] == Literal("\"" + (prefix + NamespaceSeparator + uri) + "\"")
    requires !Contains(prefix, NamespaceSeparator) && !Contains(uri, NamespaceSeparator)
    requires '"' !in prefix && '"' !in uri
    ensures ScanTokens(a, items, k) == ScanTokens(a.(namespaces := a.namespaces[Some(prefix) := uri]), items, k + 3)
  {
    PrefixedEntryStep(a, items, k, prefix, uri);
  }

  /** The scanning loop passes over a comma. */
  lemma ScanComma(a: YaSerdeAttribute, items: seq<TokenTree>, k: nat)
    requires k < |items| && items[k] == Punct(',')
    ensures ScanTokens(a, items, k) == ScanTokens(a, items, k + 1)
  {
  }

  /** Two entries `namespace = "prefix: first", namespace = "prefix: second"`
      from position `k` to the end: the later one wins. */
  lemma {:induction false} EntriesOverwrite(a: YaSerdeAttribute, items: seq<TokenTree>, k: nat,
                                            prefix: string, first: string, second: string)
    requires |items| == k + 7
    requires items[k] == Ident("namespace") && items[k + 1] == Punct('=')
    requires items[k + 2] == Literal("\"" + (prefix + NamespaceSeparator + first) + "\"")
    requires items[k + 3] == Punct(',')
    requires items[k + 4] == Ident("namespace") && items[k + 5] == Punct('=')
    requires items[k + 6] == Literal("\"" + (prefix + NamespaceSeparator + second) + "\"")
    requires !Contains(prefix, NamespaceSeparator) && '"' !in prefix
    requires !Contains(first, NamespaceSeparator) && !Contains(second, NamespaceSeparator)
    requires '"' !in first && '"' !in second
    ensures ScanTokens(a, items, k).namespaces == a.namespaces[Some(prefix) := second]
  {
    var a3 := a.(namespaces := a.namespaces[Some(prefix) := first]);
    var a7 := a3.(namespaces := a3.namespaces[Some(prefix) := second]);
    ScanEntry(a, items, k, prefix, first);
    ScanComma(a3, items, k + 3);
    ScanEntry(a3, items, k + 4, prefix, second);
    assert ScanTokens(a7, items, k + 7) == a7;
  }

  lemma PrefixPLiteral(uri: string)
    ensures "\"p: " + uri + "\"" == "\"" + ("p" + NamespaceSeparator + uri) + "\""
  {
    assert "\"p: " == "\"" + "p" + NamespaceSeparator;
  }

  /** Two `namespace` entries for the same prefix: the later one wins. */
  lemma LaterNamespaceOverwrites(a: YaSerdeAttribute, first: string, second: string)
    requires !Contains(first, NamespaceSeparator) && !Contains(second, NamespaceSeparator)
    requires '"' !in first && '"' !in second
    ensures var items := [Ident("namespace"), Punct('='), Literal("\"p: " + first + "\""), Punct(','),
                          Ident("namespace"), Punct('='), Literal("\"p: " + second + "\"")];
      ScanTokens(a, items, 0).namespaces == a.namespaces[Some("p") := second]
  {
    var items := [Ident("namespace"), Punct('='), Literal("\"p: " + first + "\""), Punct(','),
                  Ident("namespace"), Punct('='), Literal("\"p: " + second + "\"")];
    PrefixPLiteral(first);
    PrefixPLiteral(second);
    EntriesOverwrite(a, items, 0, "p", first, second);
  }

  // ---------------------------------------------------------------------
  // Naming rules and the namespace guard

  /** `xml_element_name`: the renamed name if there is one, else the field's
      or type's own identifier. */
  function XmlElementName(a: YaSerdeAttribute, ident: string): (r: string)
    ensures a.rename.Some? ==> r == a.rename.value
    ensures a.rename.None? ==> r == ident
  {
    match a.rename
    case Some(name) => name
    case None => ident
  }

  /** `rename = "..."` gives the element its name, quotes removed. */
  lemma RenameNamesElement(literal: string, ident: string)
    ensures XmlElementName(ParseOf([Yaserde([Ident("rename"), Punct('='), Literal(literal)])]), ident)
         == StripQuotes(literal)
  {
    var items := [Ident("rename"), Punct('='), Literal(literal)];
    var a := Yaserde(items);
    assert [a][..0] == [];
    assert ScanTokens(Default(), items, 0) == ScanTokens(Default().(rename := Some(StripQuotes(literal))), items, 3);
  }

  /** `prefix_namespace`: no prefix is written when the type's prefix is its
      default namespace or when it has none; otherwise the prefix and a colon. */
  function PrefixNamespace(a: YaSerdeAttribute): (r: string)
    ensures r == "" <==> a.defaultNamespace == a.prefix || a.prefix.None?
    ensures r != "" ==> r == a.prefix.value + ":"
  {
    if a.defaultNamespace == a.prefix then ""
    else match a.prefix
      case Some(p) => p + ":"
      case None => ""
  }

  /** The prefix whose namespace the guard checks: the type's own prefix when
      the caller asks for the root prefix, else the one the caller passes. */
  function ConfiguredPrefix(a: YaSerdeAttribute, prefix: Option<string>, takeRootPrefix: bool): (r: Option<string>)
    ensures takeRootPrefix ==> r == a.prefix
    ensures !takeRootPrefix ==> r == prefix
  {
    if takeRootPrefix then a.prefix else prefix
  }

  /** The URIs the emitted `match` accepts: one arm per namespace entry
      whose prefix is the configured one. */
  function MatchArms(namespaces: map<Option<string>, string>, configured: Option<string>): set<string> {
    set p | p in namespaces && p == configured :: namespaces[p]
  }

  /** There is an arm exactly for the URI declared for the configured prefix. */
  lemma MatchArmsIsLookup(namespaces: map<Option<string>, string>, configured: Option<string>)
    ensures MatchArms(namespaces, configured)
         == if configured in namespaces then {namespaces[configured]} else {}
  {
    if configured in namespaces {
      assert namespaces[configured] in MatchArms(namespaces, configured);
    }
  }

  datatype GuardError = BadNamespace(elementName: string, found: string) {
    /** The message the emitted code returns. */
    function Message(): string {
      "bad namespace for " + elementName + ", found " + found
    }
  }

  /** The check emitted by `get_namespace_matching`, on the element's
      observed namespace (if any) and its name. */
  function NamespaceGuard(a: YaSerdeAttribute, prefix: Option<string>, takeRootPrefix: bool,
                          elementNamespace: Option<string>, elementName: string): (r: Result<(), GuardError>)
    ensures elementNamespace.None? ==> r.Ok?
    ensures elementNamespace.Some? ==>
      var configured := ConfiguredPrefix(a, prefix, takeRootPrefix);
      (r.Ok? <==> configured in a.namespaces && a.namespaces[configured] == elementNamespace.value)
    ensures r.Err? ==> r.error == BadNamespace(elementName, elementNamespace.value)
  {
    match elementNamespace
    case None => Ok(())
    case Some(namespace) =>
      var configured := ConfiguredPrefix(a, prefix, takeRootPrefix);
      MatchArmsIsLookup(a.namespaces, configured);
      if namespace in MatchArms(a.namespaces, configured) then Ok(())
      else Err(BadNamespace(elementName, namespace))
  }
}
