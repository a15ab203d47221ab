/**
  What the interface parser reads: a renderer for the grammar, whose
  whitespace between tokens is given by a layout, and the proof that the
  parser reads back every rendered construct, together with the rejection
  rules for identifiers, data types and duplicate names.
*/
module ParserRoundTrip {
  import opened Wrappers
  import opened Interface
  import opened Parser

  /** Every character of `w` may continue an identifier. */
  predicate AllIdentChars(w: string)
  {
    forall i :: 0 <= i < |w| ==> IsIdentChar(w[i])
  }

  /** `g` is whitespace only: text that `multispace0` skips. */
  predicate IsBlank(g: string)
  {
    forall i :: 0 <= i < |g| ==> IsMultispace(g[i])
  }

  /** Whitespace before a token is skipped. */
  lemma {:induction false} SkipBlank(g: string, u: Input)
    requires IsBlank(g) && AtToken(u)
    ensures Multispace0(g + u) == u
  {
    if g == [] {
      assert g + u == u;
    } else {
      assert (g + u)[0] == g[0] && IsMultispace(g[0]);
      assert (g + u)[1..] == g[1..] + u;
      assert IsBlank(g[1..]) by {
        assert forall i :: 0 <= i < |g| - 1 ==> g[1..][i] == g[i + 1];
      }
      SkipBlank(g[1..], u);
      assert Multispace0(g + u) == Multispace0(g[1..] + u);
    }
  }

  /**
    A non-empty run of whitespace before a token is skipped by `multispace0`
    and by `multispace1`, and it ends any word written before it.
  */
  lemma {:induction false} GapReads(g: string, u: Input)
    requires IsBlank(g) && g != [] && AtToken(u)
    ensures Multispace0(g + u) == u
    ensures Multispace1(g + u) == Some(u)
    ensures AtWordEnd(g + u)
  {
    SkipBlank(g, u);
    assert (g + u)[1..] == g[1..] + u;
    assert forall i :: 0 <= i < |g| - 1 ==> g[1..][i] == g[i + 1];
    SkipBlank(g[1..], u);
  }

  /** `tag(t)` consumes exactly `t`. */
  lemma {:induction false} TagReads(t: string, u: Input)
    ensures Tag(t, t + u) == Some(u)
  {
    assert (t + u)[..|t|] == t;
    assert (t + u)[|t|..] == u;
  }

  /** The run of identifier characters stops exactly at the end of a word made of them. */
  lemma {:induction false} IdentRunOfWord(w: string, rest: Input)
    requires AllIdentChars(w) && AtWordEnd(rest)
    ensures IdentRun(w + rest) == |w|
  {
    if w != [] {
      assert (w + rest)[1..] == w[1..] + rest;
      IdentRunOfWord(w[1..], rest);
    } else {
      assert w + rest == rest;
    }
  }

  /** An identifier followed by anything that cannot extend it is read back whole. */
  lemma {:induction false} IdentifierRoundTrip(id: Identifier, rest: Input)
    requires IsIdentifierName(id.name) && AtWordEnd(rest)
    ensures ParseIdentifier(id.name + rest) == Some((id, rest))
  {
    var s := id.name + rest;
    assert s[1..] == id.name[1..] + rest;
    IdentRunOfWord(id.name[1..], rest);
    assert s[..|id.name|] == id.name;
    assert s[|id.name|..] == rest;
  }

  /**
    The reserved words are never identifiers: where a reserved word stands
    as a whole word, `parse_identifier` fails.
  */
  lemma {:induction false} ReservedWordRejected(w: string, rest: Input)
    requires w in ReservedWords && AtWordEnd(rest)
    ensures ParseIdentifier(w + rest).None?
  {
    var s := w + rest;
    assert AllIdentChars(w) by {
      assert w == "struct" || w == "service" || w == "self" || w == "mut" || w == "crate" || w == "super" || w == "Self";
    }
    assert s[1..] == w[1..] + rest;
    IdentRunOfWord(w[1..], rest);
    assert s[..|w|] == w;
  }

  /** A longer word that merely starts with a reserved word is an identifier. */
  lemma {:induction false} ReservedPrefixIsIdentifier()
    ensures ParseIdentifier("selfish;") == Some((Identifier("selfish"), ";"))
    ensures ParseIdentifier("self;").None?
  {
    IdentifierRoundTrip(Identifier("selfish"), ";");
    assert "selfish" + ";" == "selfish;";
    ReservedWordRejected("self", ";");
    assert "self" + ";" == "self;";
  }

  /** `s` starts with the three characters `i32`. */
  predicate StartsWithI32(name: string)
  {
    |name| >= 3 && name[..3] == "i32"
  }

  /** A data type the renderer can write so that it is read back as itself. */
  predicate RenderableDataType(t: DataType)
  {
    t.Struct? ==> IsIdentifierName(t.structName.name) && !StartsWithI32(t.structName.name)
  }

  /** A return type the renderer can write so that it is read back as itself. */
  predicate RenderableReturnType(t: ReturnType)
  {
    match t
    case ServiceRef(name) => IsIdentifierName(name.name)
    case Data(d) => RenderableDataType(d)
  }

  /** A parameter or field the renderer can write so that it is read back as itself. */
  predicate RenderableTyped(p: (Identifier, DataType))
  {
    IsIdentifierName(p.0.name) && RenderableDataType(p.1)
  }

  /** A method the renderer can write so that it is read back as itself. */
  predicate RenderableMethod(m: (Identifier, Method))
  {
    && IsIdentifierName(m.0.name)
    && (forall i :: 0 <= i < |m.1.nonSelfParams| ==> RenderableTyped(m.1.nonSelfParams[i]))
    && RenderableReturnType(m.1.returnType)
  }

  /**
    Where a written file puts whitespace: `space` between the tokens of a
    definition's header, a field, a parameter or a signature; `member`
    before each field or method; `close` before a closing brace; `lead`
    before the first definition, `between` before each later one, and
    `trail` at the end of the file.
  */
  datatype Layout = Layout(space: string, member: string, close: string, lead: string, between: string, trail: string)

  /**
    Every gap is whitespace, and the gaps that separate two words or two
    list items are not empty.
  */
  predicate ValidLayout(l: Layout)
  {
    && IsBlank(l.space) && IsBlank(l.member) && IsBlank(l.close)
    && IsBlank(l.lead) && IsBlank(l.between) && IsBlank(l.trail)
    && l.space != [] && l.member != [] && l.between != []
  }

  /*
    The renderers write a construct in front of the text `rest` that follows
    it, with the whitespace that the layout gives.
  */

  /** A data type, then `rest`. */
  function RenderDataType(t: DataType, rest: Input): (r: Input)
    ensures RenderableDataType(t) ==> |r| > |rest| && IsAlphabetic(r[0])
  {
    match t
    case I32 => "i32" + rest
    case Struct(name) => name.name + rest
  }

  /** A return type, then `rest`. */
  function RenderReturnType(l: Layout, t: ReturnType, rest: Input): (r: Input)
    ensures RenderableReturnType(t) ==> |r| > |rest| && (r[0] == '&' || IsAlphabetic(r[0]))
  {
    match t
    case ServiceRef(name) => "&" + (l.space + ("service" + (l.space + (name.name + rest))))
    case Data(d) => RenderDataType(d, rest)
  }

  /** A parameter after the receiver, `, name : type`, then `rest`. */
  function RenderParameter(l: Layout, p: (Identifier, DataType), rest: Input): (r: Input)
    ensures |r| > 0 && r[0] == ','
  {
    "," + (l.space + (p.0.name + (l.space + (":" + (l.space + RenderDataType(p.1, rest))))))
  }

  /** A struct field, `name : type ,`, then `rest`. */
  function RenderField(l: Layout, f: (Identifier, DataType), rest: Input): (r: Input)
    ensures IsIdentifierName(f.0.name) ==> |r| > 0 && IsAlphabetic(r[0])
  {
    f.0.name + (l.space + (":" + (l.space + RenderDataType(f.1, l.space + ("," + rest)))))
  }

  /** The items in order, the first after the gap `first` and each later one after `gap`, then `rest`. */
  function RenderList<T>(render: (Layout, T, Input) -> Input, l: Layout, xs: seq<T>, first: string, gap: string, rest: Input): Input
    decreases |xs|
  {
    if xs == [] then rest else first + render(l, xs[0], RenderList(render, l, xs[1..], gap, gap, rest))
  }

  /** A method, `name ( & self params ) -> type ;`, then `rest`. */
  function RenderMethod(l: Layout, m: (Identifier, Method), rest: Input): (r: Input)
    ensures IsIdentifierName(m.0.name) ==> |r| > 0 && IsAlphabetic(r[0])
  {
    var sp := l.space;
    var r := m.0.name + (sp + ("(" + (sp + ("&" + (sp + ("self" +
      RenderList(RenderParameter, l, m.1.nonSelfParams, sp, sp,
        sp + (")" + (sp + ("->" + (sp + RenderReturnType(l, m.1.returnType, sp + (";" + rest)))))))))))));
    assert m.0.name != [] ==> r[0] == m.0.name[0];
    r
  }

  /**
    A definition as written in the file: its fields or methods form a list,
    which parsing turns into a map.
  */
  datatype Item =
    | StructItem(name: Identifier, fields: seq<(Identifier, DataType)>)
    | ServiceItem(name: Identifier, methods: seq<(Identifier, Method)>)

  /** A definition the renderer can write so that it is read back. */
  predicate RenderableItem(item: Item)
  {
    && IsIdentifierName(item.name.name)
    && match item
       case StructItem(_, fields) => forall i :: 0 <= i < |fields| ==> RenderableTyped(fields[i])
       case ServiceItem(_, methods) => forall i :: 0 <= i < |methods| ==> RenderableMethod(methods[i])
  }

  /** A definition, `struct name { fields }` or `service name { methods }`, then `rest`. */
  function RenderItem(l: Layout, item: Item, rest: Input): (r: Input)
    ensures |r| > 0 && r[0] == 's'
  {
    match item
    case StructItem(name, fields) =>
      var r := "struct" + (l.space + (name.name + (l.space + ("{" +
        RenderList(RenderField, l, fields, l.member, l.member, l.close + ("}" + rest))))));
      assert r[0] == "struct"[0];
      r
    case ServiceItem(name, methods) =>
      var r := "service" + (l.space + (name.name + (l.space + ("{" +
        RenderList(RenderMethod, l, methods, l.member, l.member, l.close + ("}" + rest))))));
      assert r[0] == "service"[0];
      r
  }

  /** What the parser makes of a written definition: `None` when a field or method name repeats. */
  function ItemDefinition(item: Item): Option<Definition>
  {
    match item
    case StructItem(name, fields) =>
      var fieldMap :- UniqueMap(fields);
      Some(StructDefinition(name, StructDef(fieldMap)))
    case ServiceItem(name, methods) =>
      var methodMap :- UniqueMap(methods);
      Some(ServiceDefinition(name, ServiceDef(methodMap)))
  }

  /** A whole interface file. */
  function RenderDocument(l: Layout, items: seq<Item>): Input
  {
    RenderList(RenderItem, l, items, l.lead, l.between, l.trail)
  }

  /** `i32` is tried before an identifier: `i32x` is an identifier, but as a data type it reads as `i32`. */
  lemma {:induction false} I32IsTriedFirst(rest: Input)
    requires AtWordEnd(rest)
    ensures ParseIdentifier("i32x" + rest) == Some((Identifier("i32x"), rest))
    ensures ParseDataType("i32x" + rest) == Some((I32, "x" + rest))
  {
    IdentifierRoundTrip(Identifier("i32x"), rest);
    assert "i32x" + rest == "i32" + ("x" + rest);
    TagReads("i32", "x" + rest);
  }

  /** A field name, a colon and the whitespace around it are read, up to the type. */
  lemma {:induction false} FieldHeadReads(l: Layout, name: Identifier, typeText: Input)
    requires ValidLayout(l)
    requires IsIdentifierName(name.name) && AtToken(typeText)
    ensures var afterColon: Input := l.space + typeText;
            var colon: Input := ":" + afterColon;
            var afterName: Input := l.space + colon;
            && ParseIdentifier(name.name + afterName) == Some((name, afterName))
            && Multispace0(afterName) == colon && Tag(":", colon) == Some(afterColon)
            && Multispace0(afterColon) == typeText
  {
    var afterColon: Input := l.space + typeText;
    var colon: Input := ":" + afterColon;
    var afterName: Input := l.space + colon;
    GapReads(l.space, colon);
    IdentifierRoundTrip(name, afterName);
    TagReads(":", afterColon);
    SkipBlank(l.space, typeText);
  }

  /** `i32` is read as the built-in type, whatever follows it. */
  lemma {:induction false} I32Reads(u: Input)
    ensures ParseDataType("i32" + u) == Some((I32, u))
  {
    TagReads("i32", u);
  }

  /** Text that continues a word holds no space to skip and no comma. */
  lemma {:induction false} NoCommaInWord(u: Input)
    requires u != [] && IsIdentChar(u[0])
    ensures Multispace0(u) == u && Tag(",", u).None?
  {
  }

  /**
    So a field whose type names a struct spelled with `i32` and more is
    rejected: the parser reads `i32` and then finds the rest of the name
    where the comma should be.
  */
  lemma {:induction false} I32PrefixedFieldTypeRejected(l: Layout, field: (Identifier, DataType), rest: Input)
    requires ValidLayout(l)
    requires IsIdentifierName(field.0.name) && field.1.Struct?
    requires IsIdentifierName(field.1.structName.name)
    requires StartsWithI32(field.1.structName.name) && |field.1.structName.name| > 3
    ensures ParseStructField(RenderField(l, field, rest)).None?
  {
    var n := field.1.structName.name;
    var afterWord: Input := l.space + ("," + rest);
    var afterType: Input := n[3..] + afterWord;
    var typeText: Input := n + afterWord;
    assert typeText == "i32" + afterType by {
      assert n == n[..3] + n[3..];
    }
    I32Reads(afterType);
    FieldHeadReads(l, field.0, typeText);
    assert afterType[0] == n[3];
    NoCommaInWord(afterType);
    var afterColon: Input := l.space + typeText;
    var colon: Input := ":" + afterColon;
    var afterName: Input := l.space + colon;
    assert RenderField(l, field, rest) == field.0.name + afterName;
    StructFieldFailsAtComma(field.0.name + afterName, afterName, colon, afterColon, typeText, I32, afterType);
  }

  /** `parse_struct_field` fails when the comma is missing after the type. */
  lemma {:induction false} StructFieldFailsAtComma(s: Input, afterName: Input, colon: Input, afterColon: Input, typeText: Input, t: DataType, afterType: Input)
    requires ParseIdentifier(s).Some? && ParseIdentifier(s).value.1 == afterName
    requires Multispace0(afterName) == colon && Tag(":", colon) == Some(afterColon)
    requires Multispace0(afterColon) == typeText && ParseDataType(typeText) == Some((t, afterType))
    requires Tag(",", Multispace0(afterType)).None?
    ensures ParseStructField(s).None?
  {
  }

  /** A data type is read back as itself, whatever follows it that cannot extend a word. */
  lemma {:induction false} DataTypeRoundTrip(t: DataType, rest: Input)
    requires RenderableDataType(t) && AtWordEnd(rest)
    ensures ParseDataType(RenderDataType(t, rest)) == Some((t, rest))
  {
    match t
    case I32 =>
      TagReads("i32", rest);
    case Struct(name) =>
      IdentifierRoundTrip(name, rest);
  }

  /** `ParseServiceType` is its steps in sequence. */
  lemma {:induction false} ServiceTypeSteps(s: Input, afterAmp: Input, keyword: Input, afterKeyword: Input, word: Input)
    requires Tag("&", s) == Some(afterAmp)
    requires Multispace0(afterAmp) == keyword
    requires Tag("service", keyword) == Some(afterKeyword)
    requires Multispace1(afterKeyword) == Some(word)
    ensures ParseServiceType(s) == ParseIdentifier(word)
  {
  }

  /** After `&`, whitespace, `service` and whitespace, a reference to a service is whatever identifier follows. */
  lemma {:induction false} ServiceKeywordReads(l: Layout, word: Input)
    requires ValidLayout(l) && AtToken(word)
    ensures ParseServiceType("&" + (l.space + ("service" + (l.space + word)))) == ParseIdentifier(word)
  {
    var afterKeyword: Input := l.space + word;
    var keyword: Input := "service" + afterKeyword;
    var afterAmp: Input := l.space + keyword;
    TagReads("&", afterAmp);
    SkipBlank(l.space, keyword);
    TagReads("service", afterKeyword);
    GapReads(l.space, word);
    ServiceTypeSteps("&" + afterAmp, afterAmp, keyword, afterKeyword, word);
  }

  /** `& service Name` is read back as a reference to the service `Name`. */
  lemma {:induction false} ServiceRefRoundTrip(l: Layout, name: Identifier, rest: Input)
    requires ValidLayout(l)
    requires IsIdentifierName(name.name) && AtWordEnd(rest)
    ensures ParseServiceType(RenderReturnType(l, ServiceRef(name), rest)) == Some((name, rest))
  {
    var word: Input := name.name + rest;
    assert word[0] == name.name[0];
    ServiceKeywordReads(l, word);
    IdentifierRoundTrip(name, rest);
  }

  /** A data type is never read as a reference to a service: it does not start with `&`. */
  lemma {:induction false} DataIsNotServiceRef(d: DataType, rest: Input)
    requires RenderableDataType(d)
    ensures ParseServiceType(RenderDataType(d, rest)).None?
  {
    var text := RenderDataType(d, rest);
    assert text[0] != '&';
    assert !("&" <= text);
  }

  /** A return type is read back as itself, whatever follows it that cannot extend a word. */
  lemma {:induction false} ReturnTypeRoundTrip(l: Layout, t: ReturnType, rest: Input)
    requires ValidLayout(l)
    requires RenderableReturnType(t) && AtWordEnd(rest)
    ensures ParseReturnType(RenderReturnType(l, t, rest)) == Some((t, rest))
  {
    match t
    case ServiceRef(name) =>
      ServiceRefRoundTrip(l, name, rest);
    case Data(d) =>
      DataTypeRoundTrip(d, rest);
      DataIsNotServiceRef(d, rest);
  }

  /** `p` reads the rendered `x` back as `y`, whatever follows that cannot extend a word. */
  ghost predicate ReadsBack<T, U>(p: Input -> ParseResult<U>, render: (Layout, T, Input) -> Input, l: Layout, x: T, y: U)
  {
    forall rest {:trigger render(l, x, rest)} :: AtWordEnd(rest) ==> AtToken(render(l, x, rest)) && p(render(l, x, rest)) == Some((y, rest))
  }

  /** Every success of `p` consumes input, as every parser of the grammar does. */
  ghost predicate Consumes<U>(p: Input -> ParseResult<U>)
  {
    forall u :: p(u).Some? ==> |p(u).value.1| < |u|
  }

  /** One item read by `many0`, followed by the rest of the list. */
  lemma {:induction false} Many0Step<U>(p: Input -> ParseResult<U>, s: Input, y: U, afterItem: Input, ys: seq<U>, last: Input)
    requires p(s) == Some((y, afterItem))
    requires |Multispace0(afterItem)| < |s|
    requires Many0Terminated(p, Multispace0(afterItem)) == Some((ys, last))
    ensures Many0Terminated(p, s) == Some(([y] + ys, last))
  {
  }

  /** A rendered list after a non-empty gap ends any word written before it. */
  lemma {:induction false} ListAfterGap<T>(render: (Layout, T, Input) -> Input, l: Layout, xs: seq<T>, gap: string, t: Input)
    requires IsBlank(gap) && gap != []
    requires xs != [] || AtWordEnd(t)
    ensures AtWordEnd(RenderList(render, l, xs, gap, gap, t))
  {
    if xs != [] {
      assert RenderList(render, l, xs, gap, gap, t)[0] == gap[0];
    }
  }

  /**
    The first item of a rendered list is read back after the whitespace
    before it, up to the rest of the list.
  */
  lemma {:induction false} FirstItemReads<T, U>(p: Input -> ParseResult<U>, render: (Layout, T, Input) -> Input, l: Layout,
                                                x: T, y: U, first: string, tail: Input)
    requires ReadsBack(p, render, l, x, y) && IsBlank(first) && AtWordEnd(tail)
    ensures Multispace0(first + render(l, x, tail)) == render(l, x, tail)
    ensures p(render(l, x, tail)) == Some((y, tail))
  {
    SkipBlank(first, render(l, x, tail));
  }

  /** A parser that consumes input leaves less than it was given. */
  lemma {:induction false} ConsumesAt<U>(p: Input -> ParseResult<U>, s: Input)
    requires Consumes(p) && p(s).Some?
    ensures |p(s).value.1| < |s|
  {
  }

  /** An item read after the whitespace before it, followed by a list that reads back. */
  lemma {:induction false} Many0Cons<U>(p: Input -> ParseResult<U>, padded: Input, s: Input, y: U, tail: Input, ys: seq<U>, last: Input)
    requires Multispace0(padded) == s
    requires p(s) == Some((y, tail)) && |tail| < |s|
    requires Many0Padded(p, tail) == Some((ys, last))
    ensures Many0Padded(p, padded) == Some(([y] + ys, last))
  {
    Many0Step(p, s, y, tail, ys, last);
  }

  /** Items that read back still read back once the first of them is taken off. */
  lemma ReadsBackTail<T, U>(p: Input -> ParseResult<U>, render: (Layout, T, Input) -> Input, l: Layout,
                            xs: seq<T>, ys: seq<U>, n: nat)
    requires 0 < n <= |xs| && n <= |ys|
    requires forall i :: 0 <= i < n ==> ReadsBack(p, render, l, xs[i], ys[i])
    ensures forall i :: 0 <= i < n - 1 ==> ReadsBack(p, render, l, xs[1..][i], ys[1..][i])
  {
    forall i | 0 <= i < n - 1
      ensures ReadsBack(p, render, l, xs[1..][i], ys[1..][i])
    {
      assert xs[1..][i] == xs[i + 1] && ys[1..][i] == ys[i + 1];
    }
  }

  /** Each item of `xs` reads back as the item of `ys` at the same position. */
  ghost predicate AllReadBack<T, U>(p: Input -> ParseResult<U>, render: (Layout, T, Input) -> Input, l: Layout,
                                    xs: seq<T>, ys: seq<U>)
    decreases |xs|
  {
    && |xs| == |ys|
    && (xs != [] ==> ReadsBack(p, render, l, xs[0], ys[0]) && AllReadBack(p, render, l, xs[1..], ys[1..]))
  }

  /** Items that read back one by one read back as a list. */
  lemma {:induction false} AllReadBackOf<T, U>(p: Input -> ParseResult<U>, render: (Layout, T, Input) -> Input, l: Layout,
                                               xs: seq<T>, ys: seq<U>)
    requires |xs| == |ys|
    requires forall i :: 0 <= i < |xs| ==> ReadsBack(p, render, l, xs[i], ys[i])
    ensures AllReadBack(p, render, l, xs, ys)
    decreases |xs|
  {
    if xs != [] {
      ReadsBackTail(p, render, l, xs, ys, |xs|);
      AllReadBackOf(p, render, l, xs[1..], ys[1..]);
    }
  }

  /** An item that reads back, after whitespace, followed by a list that reads back. */
  lemma {:induction false} Many0ItemStep<T, U>(p: Input -> ParseResult<U>, render: (Layout, T, Input) -> Input, l: Layout,
                                               x: T, y: U, first: string, tail: Input, ys: seq<U>, last: Input)
    requires ReadsBack(p, render, l, x, y) && Consumes(p) && IsBlank(first) && AtWordEnd(tail)
    requires Many0Padded(p, tail) == Some((ys, last))
    ensures Many0Padded(p, first + render(l, x, tail)) == Some(([y] + ys, last))
  {
    var item := render(l, x, tail);
    assert Multispace0(first + item) == item && p(item) == Some((y, tail)) && |tail| < |item| by {
      FirstItemReads(p, render, l, x, y, first, tail);
      ConsumesAt(p, item);
    }
    Many0Cons(p, first + item, item, y, tail, ys, last);
  }

  /**
    `many0_padded_by_multispace` reads a rendered list back item by item
    and stops, after the whitespace that ends the list, where the item
    parser fails.
  */
  lemma {:induction false} Many0RoundTrip<T, U>(p: Input -> ParseResult<U>, render: (Layout, T, Input) -> Input, l: Layout,
                                                xs: seq<T>, ys: seq<U>, first: string, gap: string, t: Input)
    requires AllReadBack(p, render, l, xs, ys)
    requires Consumes(p)
    requires IsBlank(first) && IsBlank(gap) && gap != []
    requires AtWordEnd(t) && p(Multispace0(t)).None?
    ensures Many0Padded(p, RenderList(render, l, xs, first, gap, t)) == Some((ys, Multispace0(t)))
    decreases |xs|
  {
    if xs != [] {
      var tail := RenderList(render, l, xs[1..], gap, gap, t);
      Many0RoundTrip(p, render, l, xs[1..], ys[1..], gap, gap, t);
      ListAfterGap(render, l, xs[1..], gap, t);
      Many0ItemStep(p, render, l, xs[0], ys[0], first, tail, ys[1..], Multispace0(t));
      assert ys == [ys[0]] + ys[1..];
    }
  }

  /** `p` fails on the rendered `x`, whatever follows it. */
  ghost predicate Rejects<T, U>(p: Input -> ParseResult<U>, render: (Layout, T, Input) -> Input, l: Layout, x: T)
  {
    forall rest :: AtToken(render(l, x, rest)) && p(render(l, x, rest)).None?
  }

  /** A list whose first item the parser rejects is read as no items, after the whitespace before it. */
  lemma {:induction false} Many0StopsAtFirst<T, U>(p: Input -> ParseResult<U>, render: (Layout, T, Input) -> Input, l: Layout,
                                                   x: T, first: string, tail: Input)
    requires Rejects(p, render, l, x) && IsBlank(first)
    ensures Many0Padded(p, first + render(l, x, tail)) == Some(([], render(l, x, tail)))
  {
    assert AtToken(render(l, x, tail)) && p(render(l, x, tail)).None?;
    SkipBlank(first, render(l, x, tail));
  }

  /** The items read before the one that stops the list, one more of them in front. */
  lemma {:induction false} Many0StopsLater<T, U>(p: Input -> ParseResult<U>, render: (Layout, T, Input) -> Input, l: Layout,
                                                 xs: seq<T>, ys: seq<U>, k: nat, first: string, gap: string, t: Input)
    requires 0 < k < |xs| && AllReadBack(p, render, l, xs[..k], ys)
    requires Consumes(p)
    requires IsBlank(first) && IsBlank(gap) && gap != []
    requires Many0Padded(p, RenderList(render, l, xs[1..], gap, gap, t)) ==
      Some((ys[1..], render(l, xs[1..][k - 1], RenderList(render, l, xs[1..][k..], gap, gap, t))))
    ensures Many0Padded(p, RenderList(render, l, xs, first, gap, t)) ==
      Some((ys, render(l, xs[k], RenderList(render, l, xs[k + 1..], gap, gap, t))))
  {
    var tail := RenderList(render, l, xs[1..], gap, gap, t);
    assert ReadsBack(p, render, l, xs[0], ys[0]) by {
      assert xs[..k][0] == xs[0];
    }
    assert xs[1..][k - 1] == xs[k] && xs[1..][k..] == xs[k + 1..];
    assert AtWordEnd(tail) by {
      ListAfterGap(render, l, xs[1..], gap, t);
    }
    Many0ItemStep(p, render, l, xs[0], ys[0], first, tail, ys[1..], render(l, xs[k], RenderList(render, l, xs[k + 1..], gap, gap, t)));
    assert ys == [ys[0]] + ys[1..];
  }

  /**
    `many0_padded_by_multispace` stops at the first item it cannot read:
    the items before it are returned and the input from that item on is
    left over.
  */
  lemma {:induction false} Many0StopsAt<T, U>(p: Input -> ParseResult<U>, render: (Layout, T, Input) -> Input, l: Layout,
                                              xs: seq<T>, ys: seq<U>, k: nat, first: string, gap: string, t: Input)
    requires k < |xs| && AllReadBack(p, render, l, xs[..k], ys)
    requires Rejects(p, render, l, xs[k])
    requires Consumes(p)
    requires IsBlank(first) && IsBlank(gap) && gap != []
    ensures Many0Padded(p, RenderList(render, l, xs, first, gap, t)) ==
      Some((ys, render(l, xs[k], RenderList(render, l, xs[k + 1..], gap, gap, t))))
    decreases k
  {
    if k == 0 {
      var tail := RenderList(render, l, xs[1..], gap, gap, t);
      assert Many0Padded(p, first + render(l, xs[0], tail)) == Some(([], render(l, xs[0], tail))) by {
        Many0StopsAtFirst(p, render, l, xs[0], first, tail);
      }
      assert RenderList(render, l, xs, first, gap, t) == first + render(l, xs[0], tail);
    } else {
      assert AllReadBack(p, render, l, xs[1..][..k - 1], ys[1..]) && Rejects(p, render, l, xs[1..][k - 1]) by {
        assert xs[..k][1..] == xs[1..][..k - 1] && xs[1..][k - 1] == xs[k];
      }
      Many0StopsAt(p, render, l, xs[1..], ys[1..], k - 1, gap, gap, t);
      Many0StopsLater(p, render, l, xs, ys, k, first, gap, t);
    }
  }

  /** `ParseParameter` is its steps in sequence. */
  lemma {:induction false} ParameterSteps(s: Input, afterComma: Input, afterName: Input, afterColon: Input, name: Identifier, t: DataType, rest: Input)
    requires Tag(",", s) == Some(afterComma)
    requires ParseIdentifier(Multispace0(afterComma)) == Some((name, afterName))
    requires Tag(":", Multispace0(afterName)) == Some(afterColon)
    requires ParseDataType(Multispace0(afterColon)) == Some((t, rest))
    ensures ParseParameter(s) == Some(((name, t), rest))
  {
  }

  /** A parameter's comma, the whitespace after it, and its name and colon are read, up to the type. */
  lemma {:induction false} ParameterHeadReads(l: Layout, name: Identifier, typeText: Input)
    requires ValidLayout(l)
    requires IsIdentifierName(name.name) && AtToken(typeText)
    ensures var afterColon: Input := l.space + typeText;
            var afterName: Input := l.space + (":" + afterColon);
            var afterComma: Input := l.space + (name.name + afterName);
            && Tag(",", "," + afterComma) == Some(afterComma)
            && ParseIdentifier(Multispace0(afterComma)) == Some((name, afterName))
            && Tag(":", Multispace0(afterName)) == Some(afterColon)
            && Multispace0(afterColon) == typeText
  {
    var afterColon: Input := l.space + typeText;
    var afterName: Input := l.space + (":" + afterColon);
    var nameText: Input := name.name + afterName;
    var afterComma: Input := l.space + nameText;
    TagReads(",", afterComma);
    assert nameText[0] == name.name[0];
    SkipBlank(l.space, nameText);
    FieldHeadReads(l, name, typeText);
  }

  /** A parameter `, name : type` is read back as itself. */
  lemma {:induction false} ParameterRoundTrip(l: Layout, param: (Identifier, DataType), rest: Input)
    requires ValidLayout(l)
    requires RenderableTyped(param) && AtWordEnd(rest)
    ensures ParseParameter(RenderParameter(l, param, rest)) == Some((param, rest))
  {
    var typeText: Input := RenderDataType(param.1, rest);
    var afterColon: Input := l.space + typeText;
    var afterName: Input := l.space + (":" + afterColon);
    var afterComma: Input := l.space + (param.0.name + afterName);
    ParameterHeadReads(l, param.0, typeText);
    DataTypeRoundTrip(param.1, rest);
    ParameterSteps("," + afterComma, afterComma, afterName, afterColon, param.0, param.1, rest);
  }

  /** The parameters after the receiver are read back in order, up to the closing parenthesis. */
  lemma {:induction false} ParametersRoundTrip(l: Layout, params: seq<(Identifier, DataType)>, t: Input)
    requires ValidLayout(l)
    requires forall i :: 0 <= i < |params| ==> RenderableTyped(params[i])
    requires t != [] && t[0] == ')'
    ensures Many0Padded(ParseParameter, RenderList(RenderParameter, l, params, l.space, l.space, l.space + t)) == Some((params, t))
  {
    forall i | 0 <= i < |params|
      ensures ReadsBack(ParseParameter, RenderParameter, l, params[i], params[i])
    {
      forall rest | AtWordEnd(rest)
        ensures AtToken(RenderParameter(l, params[i], rest))
        ensures ParseParameter(RenderParameter(l, params[i], rest)) == Some((params[i], rest))
      {
        ParameterRoundTrip(l, params[i], rest);
      }
    }
    GapReads(l.space, t);
    assert ParseParameter(t).None?;
    AllReadBackOf(ParseParameter, RenderParameter, l, params, params);
    Many0RoundTrip(ParseParameter, RenderParameter, l, params, params, l.space, l.space, l.space + t);
  }

  /** `ParseStructField` is its steps in sequence. */
  lemma {:induction false} StructFieldSteps(s: Input, afterName: Input, afterColon: Input, afterType: Input, name: Identifier, t: DataType, rest: Input)
    requires ParseIdentifier(s) == Some((name, afterName))
    requires Tag(":", Multispace0(afterName)) == Some(afterColon)
    requires ParseDataType(Multispace0(afterColon)) == Some((t, afterType))
    requires Tag(",", Multispace0(afterType)) == Some(rest)
    ensures ParseStructField(s) == Some(((name, t), rest))
  {
  }

  /** The whitespace and comma that end a field are read. */
  lemma {:induction false} FieldCommaReads(l: Layout, rest: Input)
    requires ValidLayout(l)
    ensures AtWordEnd(l.space + ("," + rest))
    ensures Tag(",", Multispace0(l.space + ("," + rest))) == Some(rest)
  {
    GapReads(l.space, "," + rest);
    TagReads(",", rest);
  }

  /** A struct field `name : type ,` is read back as itself, whatever follows. */
  lemma {:induction false} StructFieldRoundTrip(l: Layout, field: (Identifier, DataType), rest: Input)
    requires ValidLayout(l)
    requires RenderableTyped(field)
    ensures ParseStructField(RenderField(l, field, rest)) == Some((field, rest))
  {
    var afterType: Input := l.space + ("," + rest);
    var typeText: Input := RenderDataType(field.1, afterType);
    var afterColon: Input := l.space + typeText;
    var afterName: Input := l.space + (":" + afterColon);
    FieldCommaReads(l, rest);
    FieldHeadReads(l, field.0, typeText);
    DataTypeRoundTrip(field.1, afterType);
    StructFieldSteps(field.0.name + afterName, afterName, afterColon, afterType, field.0, field.1, rest);
  }

  /** `ParseMethod` is its steps in sequence. */
  lemma {:induction false} MethodSteps(s: Input, a1: Input, a2: Input, a3: Input, a4: Input, a5: Input, a6: Input, a7: Input, a8: Input,
                    name: Identifier, params: seq<(Identifier, DataType)>, rt: ReturnType, rest: Input)
    requires ParseIdentifier(s) == Some((name, a1))
    requires Tag("(", Multispace0(a1)) == Some(a2)
    requires Tag("&", Multispace0(a2)) == Some(a3)
    requires Tag("self", Multispace0(a3)) == Some(a4)
    requires Many0Padded(ParseParameter, a4) == Some((params, a5))
    requires Tag(")", a5) == Some(a6)
    requires Tag("->", Multispace0(a6)) == Some(a7)
    requires ParseReturnType(Multispace0(a7)) == Some((rt, a8))
    requires Tag(";", Multispace0(a8)) == Some(rest)
    ensures ParseMethod(s) == Some(((name, Method(params, rt)), rest))
  {
  }

  /** After the opening parenthesis, `& self` is read step by step. */
  lemma {:induction false} ReceiverReads(l: Layout, a4: Input)
    requires ValidLayout(l)
    ensures var a3: Input := l.space + ("self" + a4);
            var a2: Input := l.space + ("&" + a3);
            && Tag("&", Multispace0(a2)) == Some(a3)
            && Tag("self", Multispace0(a3)) == Some(a4)
  {
    var selfText: Input := "self" + a4;
    var a3: Input := l.space + selfText;
    var amp: Input := "&" + a3;
    SkipBlank(l.space, amp);
    TagReads("&", a3);
    SkipBlank(l.space, selfText);
    TagReads("self", a4);
  }

  /** The head of a rendered method, its name through `& self`, is read step by step. */
  lemma {:induction false} MethodHeadReads(l: Layout, name: Identifier, a4: Input)
    requires ValidLayout(l)
    requires IsIdentifierName(name.name)
    ensures var a3: Input := l.space + ("self" + a4);
            var a2: Input := l.space + ("&" + a3);
            var a1: Input := l.space + ("(" + a2);
            && ParseIdentifier(name.name + a1) == Some((name, a1))
            && Tag("(", Multispace0(a1)) == Some(a2)
            && Tag("&", Multispace0(a2)) == Some(a3)
            && Tag("self", Multispace0(a3)) == Some(a4)
  {
    var a3: Input := l.space + ("self" + a4);
    var a2: Input := l.space + ("&" + a3);
    var open: Input := "(" + a2;
    var a1: Input := l.space + open;
    GapReads(l.space, open);
    IdentifierRoundTrip(name, a1);
    TagReads("(", a2);
    ReceiverReads(l, a4);
  }

  /** After the parameters, `) ->` is read step by step. */
  lemma {:induction false} MethodArrowReads(l: Layout, a7: Input)
    requires ValidLayout(l)
    ensures var a6: Input := l.space + ("->" + a7);
            && Tag(")", ")" + a6) == Some(a6)
            && Tag("->", Multispace0(a6)) == Some(a7)
  {
    var arrow: Input := "->" + a7;
    var a6: Input := l.space + arrow;
    TagReads(")", a6);
    SkipBlank(l.space, arrow);
    TagReads("->", a7);
  }

  /** A return type after whitespace is read back as itself. */
  lemma {:induction false} SpacedReturnTypeReads(l: Layout, rt: ReturnType, rest: Input)
    requires ValidLayout(l)
    requires RenderableReturnType(rt) && AtWordEnd(rest)
    ensures ParseReturnType(Multispace0(l.space + RenderReturnType(l, rt, rest))) == Some((rt, rest))
  {
    var typeText: Input := RenderReturnType(l, rt, rest);
    SkipBlank(l.space, typeText);
    ReturnTypeRoundTrip(l, rt, rest);
  }

  /** A closing `;` after whitespace is read. */
  lemma {:induction false} SpacedSemicolonReads(l: Layout, rest: Input)
    requires ValidLayout(l)
    ensures Tag(";", Multispace0(l.space + (";" + rest))) == Some(rest)
    ensures AtWordEnd(l.space + (";" + rest))
  {
    var semicolon: Input := ";" + rest;
    GapReads(l.space, semicolon);
    TagReads(";", rest);
  }

  /** A method is read back as itself, receiver dropped and parameters in order, whatever follows. */
  lemma {:induction false} MethodRoundTrip(l: Layout, m: (Identifier, Method), rest: Input)
    requires ValidLayout(l)
    requires RenderableMethod(m)
    ensures ParseMethod(RenderMethod(l, m, rest)) == Some((m, rest))
  {
    var sp := l.space;
    var name, params, rt := m.0, m.1.nonSelfParams, m.1.returnType;
    var a8: Input := sp + (";" + rest);
    var a7: Input := sp + RenderReturnType(l, rt, a8);
    var a6: Input := sp + ("->" + a7);
    var close: Input := ")" + a6;
    var a4: Input := RenderList(RenderParameter, l, params, sp, sp, sp + close);
    var a3: Input := sp + ("self" + a4);
    var a2: Input := sp + ("&" + a3);
    var a1: Input := sp + ("(" + a2);
    MethodHeadReads(l, name, a4);
    ParametersRoundTrip(l, params, close);
    MethodArrowReads(l, a7);
    SpacedSemicolonReads(l, rest);
    SpacedReturnTypeReads(l, rt, a8);
    MethodSteps(name.name + a1, a1, a2, a3, a4, close, a6, a7, a8, name, params, rt, rest);
  }

  /** After the whitespace before a closing brace, the item parsers find nothing to read. */
  lemma {:induction false} ClosingBraceReads(l: Layout, rest: Input)
    requires ValidLayout(l)
    ensures AtWordEnd(l.close + ("}" + rest))
    ensures Multispace0(l.close + ("}" + rest)) == "}" + rest
    ensures Tag("}", "}" + rest) == Some(rest)
  {
    var closing: Input := "}" + rest;
    if l.close == [] {
      assert l.close + closing == closing;
    } else {
      GapReads(l.close, closing);
    }
    SkipBlank(l.close, closing);
    TagReads("}", rest);
  }

  /** The fields of a struct are read back in order, up to the closing brace. */
  lemma {:induction false} FieldsRoundTrip(l: Layout, fields: seq<(Identifier, DataType)>, rest: Input)
    requires ValidLayout(l)
    requires forall i :: 0 <= i < |fields| ==> RenderableTyped(fields[i])
    ensures Many0Padded(ParseStructField, RenderList(RenderField, l, fields, l.member, l.member, l.close + ("}" + rest)))
         == Some((fields, "}" + rest))
  {
    forall i | 0 <= i < |fields|
      ensures ReadsBack(ParseStructField, RenderField, l, fields[i], fields[i])
    {
      forall after | AtWordEnd(after)
        ensures AtToken(RenderField(l, fields[i], after))
        ensures ParseStructField(RenderField(l, fields[i], after)) == Some((fields[i], after))
      {
        StructFieldRoundTrip(l, fields[i], after);
      }
    }
    ClosingBraceReads(l, rest);
    assert ParseStructField("}" + rest).None?;
    AllReadBackOf(ParseStructField, RenderField, l, fields, fields);
    Many0RoundTrip(ParseStructField, RenderField, l, fields, fields, l.member, l.member, l.close + ("}" + rest));
  }

  /** The methods of a service are read back in order, up to the closing brace. */
  lemma {:induction false} MethodsRoundTrip(l: Layout, methods: seq<(Identifier, Method)>, rest: Input)
    requires ValidLayout(l)
    requires forall i :: 0 <= i < |methods| ==> RenderableMethod(methods[i])
    ensures Many0Padded(ParseMethod, RenderList(RenderMethod, l, methods, l.member, l.member, l.close + ("}" + rest)))
         == Some((methods, "}" + rest))
  {
    forall i | 0 <= i < |methods|
      ensures ReadsBack(ParseMethod, RenderMethod, l, methods[i], methods[i])
    {
      forall after | AtWordEnd(after)
        ensures AtToken(RenderMethod(l, methods[i], after))
        ensures ParseMethod(RenderMethod(l, methods[i], after)) == Some((methods[i], after))
      {
        MethodRoundTrip(l, methods[i], after);
      }
    }
    ClosingBraceReads(l, rest);
    assert ParseMethod("}" + rest).None?;
    AllReadBackOf(ParseMethod, RenderMethod, l, methods, methods);
    Many0RoundTrip(ParseMethod, RenderMethod, l, methods, methods, l.member, l.member, l.close + ("}" + rest));
  }

  /** A keyword and the whitespace after it are read. */
  lemma {:induction false} KeywordSpaceReads(l: Layout, keyword: string, u: Input)
    requires ValidLayout(l) && AtToken(u)
    ensures Tag(keyword, keyword + (l.space + u)) == Some(l.space + u)
    ensures Multispace1(l.space + u) == Some(u)
  {
    TagReads(keyword, l.space + u);
    GapReads(l.space, u);
  }

  /** The name of a definition and the opening brace after it are read. */
  lemma {:induction false} NameBraceReads(l: Layout, name: Identifier, body: Input)
    requires ValidLayout(l)
    requires IsIdentifierName(name.name)
    ensures var afterName: Input := l.space + ("{" + body);
            && ParseIdentifier(name.name + afterName) == Some((name, afterName))
            && Tag("{", Multispace0(afterName)) == Some(body)
  {
    var open: Input := "{" + body;
    var afterName: Input := l.space + open;
    GapReads(l.space, open);
    IdentifierRoundTrip(name, afterName);
    TagReads("{", body);
  }

  /** `ParseStruct` is its steps in sequence; it fails when a field name repeats. */
  lemma {:induction false} StructSteps(s: Input, afterKeyword: Input, afterSpace: Input, afterName: Input, afterOpen: Input,
                                       name: Identifier, fields: seq<(Identifier, DataType)>, afterFields: Input, rest: Input)
    requires Tag("struct", s) == Some(afterKeyword)
    requires Multispace1(afterKeyword) == Some(afterSpace)
    requires ParseIdentifier(afterSpace) == Some((name, afterName))
    requires Tag("{", Multispace0(afterName)) == Some(afterOpen)
    requires Many0Padded(ParseStructField, afterOpen) == Some((fields, afterFields))
    requires Tag("}", afterFields) == Some(rest)
    ensures ParseStruct(s) ==
      if UniqueMap(fields).Some? then Some(((name, StructDef(UniqueMap(fields).value)), rest)) else None
  {
  }

  /** `ParseService` is its steps in sequence; it fails when a method name repeats. */
  lemma {:induction false} ServiceSteps(s: Input, afterKeyword: Input, afterSpace: Input, afterName: Input, afterOpen: Input,
                                        name: Identifier, methods: seq<(Identifier, Method)>, afterMethods: Input, rest: Input)
    requires Tag("service", s) == Some(afterKeyword)
    requires Multispace1(afterKeyword) == Some(afterSpace)
    requires ParseIdentifier(afterSpace) == Some((name, afterName))
    requires Tag("{", Multispace0(afterName)) == Some(afterOpen)
    requires Many0Padded(ParseMethod, afterOpen) == Some((methods, afterMethods))
    requires Tag("}", afterMethods) == Some(rest)
    ensures ParseService(s) ==
      if UniqueMap(methods).Some? then Some(((name, ServiceDef(UniqueMap(methods).value)), rest)) else None
  {
  }

  /** A rendered struct is read back, unless two of its fields share a name. */
  lemma {:induction false} StructRoundTrip(l: Layout, name: Identifier, fields: seq<(Identifier, DataType)>, rest: Input)
    requires ValidLayout(l)
    requires RenderableItem(StructItem(name, fields))
    ensures ParseStruct(RenderItem(l, StructItem(name, fields), rest)) ==
      if UniqueMap(fields).Some? then Some(((name, StructDef(UniqueMap(fields).value)), rest)) else None
  {
    var closing: Input := "}" + rest;
    var body: Input := RenderList(RenderField, l, fields, l.member, l.member, l.close + closing);
    var afterName: Input := l.space + ("{" + body);
    var afterSpace: Input := name.name + afterName;
    var afterKeyword: Input := l.space + afterSpace;
    assert afterSpace[0] == name.name[0];
    KeywordSpaceReads(l, "struct", afterSpace);
    NameBraceReads(l, name, body);
    FieldsRoundTrip(l, fields, rest);
    TagReads("}", rest);
    assert RenderItem(l, StructItem(name, fields), rest) == "struct" + afterKeyword;
    StructSteps("struct" + afterKeyword, afterKeyword, afterSpace, afterName, body, name, fields, closing, rest);
  }

  /** A rendered service is read back, unless two of its methods share a name. */
  lemma {:induction false} ServiceRoundTrip(l: Layout, name: Identifier, methods: seq<(Identifier, Method)>, rest: Input)
    requires ValidLayout(l)
    requires RenderableItem(ServiceItem(name, methods))
    ensures ParseService(RenderItem(l, ServiceItem(name, methods), rest)) ==
      if UniqueMap(methods).Some? then Some(((name, ServiceDef(UniqueMap(methods).value)), rest)) else None
  {
    var closing: Input := "}" + rest;
    var body: Input := RenderList(RenderMethod, l, methods, l.member, l.member, l.close + closing);
    var afterName: Input := l.space + ("{" + body);
    var afterSpace: Input := name.name + afterName;
    var afterKeyword: Input := l.space + afterSpace;
    assert afterSpace[0] == name.name[0];
    KeywordSpaceReads(l, "service", afterSpace);
    NameBraceReads(l, name, body);
    MethodsRoundTrip(l, methods, rest);
    TagReads("}", rest);
    assert RenderItem(l, ServiceItem(name, methods), rest) == "service" + afterKeyword;
    ServiceSteps("service" + afterKeyword, afterKeyword, afterSpace, afterName, body, name, methods, closing, rest);
  }

  /** Neither keyword is a prefix of a text that starts with the other. */
  lemma {:induction false} KeywordsDiffer(u: Input)
    ensures Tag("service", "struct" + u).None?
    ensures Tag("struct", "service" + u).None?
  {
    assert ("struct" + u)[1] == 't';
    assert ("service" + u)[1] == 'e';
  }

  /** `alt` takes the struct when one is read, and otherwise the service, if any. */
  lemma {:induction false} DefinitionSteps(s: Input)
    ensures ParseDefinition(s) ==
      if ParseStruct(s).Some? then
        var ((name, def), rest) := ParseStruct(s).value;
        Some((StructDefinition(name, def), rest))
      else if ParseService(s).Some? then
        var ((name, def), rest) := ParseService(s).value;
        Some((ServiceDefinition(name, def), rest))
      else None
  {
  }

  /** A rendered struct is read as a struct definition, never as a service. */
  lemma {:induction false} StructItemRoundTrip(l: Layout, name: Identifier, fields: seq<(Identifier, DataType)>, rest: Input)
    requires ValidLayout(l)
    requires RenderableItem(StructItem(name, fields))
    ensures var item := StructItem(name, fields);
            ParseDefinition(RenderItem(l, item, rest)) ==
              if ItemDefinition(item).Some? then Some((ItemDefinition(item).value, rest)) else None
  {
    var afterKeyword: Input := l.space + (name.name + (l.space + ("{" +
      RenderList(RenderField, l, fields, l.member, l.member, l.close + ("}" + rest)))));
    var text: Input := "struct" + afterKeyword;
    assert RenderItem(l, StructItem(name, fields), rest) == text;
    StructRoundTrip(l, name, fields, rest);
    KeywordsDiffer(afterKeyword);
    DefinitionSteps(text);
  }

  /** A rendered service is read as a service definition, never as a struct. */
  lemma {:induction false} ServiceItemRoundTrip(l: Layout, name: Identifier, methods: seq<(Identifier, Method)>, rest: Input)
    requires ValidLayout(l)
    requires RenderableItem(ServiceItem(name, methods))
    ensures var item := ServiceItem(name, methods);
            ParseDefinition(RenderItem(l, item, rest)) ==
              if ItemDefinition(item).Some? then Some((ItemDefinition(item).value, rest)) else None
  {
    var afterKeyword: Input := l.space + (name.name + (l.space + ("{" +
      RenderList(RenderMethod, l, methods, l.member, l.member, l.close + ("}" + rest)))));
    var text: Input := "service" + afterKeyword;
    assert RenderItem(l, ServiceItem(name, methods), rest) == text;
    ServiceRoundTrip(l, name, methods, rest);
    KeywordsDiffer(afterKeyword);
    DefinitionSteps(text);
  }

  /**
    A rendered definition is read back as the definition it stands for, and
    is rejected exactly when a field or method name repeats inside it.
  */
  lemma {:induction false} ItemRoundTrip(l: Layout, item: Item, rest: Input)
    requires ValidLayout(l)
    requires RenderableItem(item)
    ensures ParseDefinition(RenderItem(l, item, rest)) ==
      if ItemDefinition(item).Some? then Some((ItemDefinition(item).value, rest)) else None
  {
    match item
    case StructItem(name, fields) => StructItemRoundTrip(l, name, fields, rest);
    case ServiceItem(name, methods) => ServiceItemRoundTrip(l, name, methods, rest);
  }

  /** Each written definition reads back as the definition given for it. */
  lemma {:induction false} ItemsReadBack(l: Layout, items: seq<Item>, defs: seq<Definition>)
    requires ValidLayout(l)
    requires |items| == |defs|
    requires forall i :: 0 <= i < |items| ==> RenderableItem(items[i]) && ItemDefinition(items[i]) == Some(defs[i])
    ensures forall i :: 0 <= i < |items| ==> ReadsBack(ParseDefinition, RenderItem, l, items[i], defs[i])
  {
    forall i | 0 <= i < |items|
      ensures ReadsBack(ParseDefinition, RenderItem, l, items[i], defs[i])
    {
      forall rest | AtWordEnd(rest)
        ensures AtToken(RenderItem(l, items[i], rest))
        ensures ParseDefinition(RenderItem(l, items[i], rest)) == Some((defs[i], rest))
      {
        ItemRoundTrip(l, items[i], rest);
      }
    }
  }

  /** The whitespace at the end of a file is skipped, and nothing is left. */
  lemma {:induction false} TrailReads(l: Layout)
    requires ValidLayout(l)
    ensures AtWordEnd(l.trail) && Multispace0(l.trail) == []
  {
    assert l.trail + [] == l.trail;
    SkipBlank(l.trail, []);
  }

  /**
    A written interface file, in any valid layout, is read back: all of it
    is consumed, and the result is the interface its definitions build, or
    failure when two structs or two services share a name.
  */
  lemma {:induction false} DocumentRoundTrip(l: Layout, items: seq<Item>, defs: seq<Definition>)
    requires ValidLayout(l)
    requires |items| == |defs|
    requires forall i :: 0 <= i < |items| ==> RenderableItem(items[i]) && ItemDefinition(items[i]) == Some(defs[i])
    ensures ParseInterface(RenderDocument(l, items)) ==
      if InterfaceOf(defs).Some? then Some((InterfaceOf(defs).value, [])) else None
  {
    ItemsReadBack(l, items, defs);
    TrailReads(l);
    DefinitionSteps([]);
    AllReadBackOf(ParseDefinition, RenderItem, l, items, defs);
    Many0RoundTrip(ParseDefinition, RenderItem, l, items, defs, l.lead, l.between, l.trail);
  }

  /**
    A definition with a repeated field or method name makes the whole file
    fail, whatever comes after it.
  */
  lemma {:induction false} DocumentRejectsInvalidItem(l: Layout, items: seq<Item>, defs: seq<Definition>, k: nat)
    requires ValidLayout(l)
    requires k < |items| && |defs| == k
    requires forall i :: 0 <= i < |items| ==> RenderableItem(items[i])
    requires forall i :: 0 <= i < k ==> ItemDefinition(items[i]) == Some(defs[i])
    requires ItemDefinition(items[k]).None?
    ensures ParseInterface(RenderDocument(l, items)).None?
  {
    ItemsReadBack(l, items[..k], defs);
    forall rest
      ensures AtToken(RenderItem(l, items[k], rest)) && ParseDefinition(RenderItem(l, items[k], rest)).None?
    {
      ItemRoundTrip(l, items[k], rest);
    }
    assert Rejects(ParseDefinition, RenderItem, l, items[k]);
    AllReadBackOf(ParseDefinition, RenderItem, l, items[..k], defs);
    Many0StopsAt(ParseDefinition, RenderItem, l, items, defs, k, l.lead, l.between, l.trail);
  }

  /** A definition is rejected exactly when a field or method name repeats inside it. */
  lemma {:induction false} ItemDefinitionIffDistinct(item: Item)
    ensures ItemDefinition(item).Some? <==>
      match item
      case StructItem(_, fields) => DistinctNames(fields)
      case ServiceItem(_, methods) => DistinctNames(methods)
  {
    match item
    case StructItem(_, fields) => UniqueMapIffDistinct(fields);
    case ServiceItem(_, methods) => UniqueMapIffDistinct(methods);
  }

  /**
    A written file is accepted exactly when no two structs share a name and
    no two services share a name; a struct and a service may share one.
  */
  lemma {:induction false} DocumentAcceptedIff(l: Layout, items: seq<Item>, defs: seq<Definition>)
    requires ValidLayout(l)
    requires |items| == |defs|
    requires forall i :: 0 <= i < |items| ==> RenderableItem(items[i]) && ItemDefinition(items[i]) == Some(defs[i])
    ensures ParseInterface(RenderDocument(l, items)).Some? <==>
      DistinctNames(StructEntries(defs)) && DistinctNames(ServiceEntries(defs))
  {
    DocumentRoundTrip(l, items, defs);
    InterfaceOfSeparatesKinds(defs);
    UniqueMapIffDistinct(StructEntries(defs));
    UniqueMapIffDistinct(ServiceEntries(defs));
  }
}
