/**
  Concrete interface files: the sample document of the parser's own test,
  and small files showing which name clashes are rejected.
*/
module ParserExamples {
  import opened Wrappers
  import opened Interface
  import opened Parser
  import opened ParserRoundTrip

  function Foo(): Identifier { Identifier("Foo") }
  function MyService(): Identifier { Identifier("MyService") }

  /** `struct Foo { x : i32 , y : Foo , }` */
  function FooItem(): Item
  {
    StructItem(Foo(), [(Identifier("x"), I32), (Identifier("y"), Struct(Foo()))])
  }

  /** The three methods of `MyService`, in the order they are written. */
  function MyServiceMethods(): seq<(Identifier, Method)>
  {
    [ (Identifier("foo"), Method([], Data(I32))),
      (Identifier("bar"), Method([(Identifier("arg1"), I32), (Identifier("arg2"), Struct(Foo()))], Data(Struct(Foo())))),
      (Identifier("baz"), Method([], ServiceRef(MyService()))) ]
  }

  /** The sample document: the struct `Foo`, then the service `MyService`. */
  function SampleItems(): seq<Item>
  {
    [FooItem(), ServiceItem(MyService(), MyServiceMethods())]
  }

  /** The interface the sample document is expected to denote. */
  function SampleInterface(): RpcInterface
  {
    RpcInterface(
      map[Foo() := StructDef(map[Identifier("x") := I32, Identifier("y") := Struct(Foo())])],
      map[MyService() := ServiceDef(map[
        Identifier("foo") := Method([], Data(I32)),
        Identifier("bar") := Method([(Identifier("arg1"), I32), (Identifier("arg2"), Struct(Foo()))], Data(Struct(Foo()))),
        Identifier("baz") := Method([], ServiceRef(MyService()))])])
  }

  /** A word of letters and digits that starts with a letter is a name unless it is reserved. */
  lemma {:induction false} WordIsName(w: string)
    requires w != [] && IsAlphabetic(w[0])
    requires forall i :: 0 <= i < |w| ==> IsAlphanumeric(w[i])
    requires w !in ReservedWords
    ensures IsIdentifierName(w)
  {
  }

  /** Every name in the sample document is a name the parser accepts. */
  lemma SampleNames()
    ensures IsIdentifierName("Foo") && IsIdentifierName("MyService")
    ensures IsIdentifierName("x") && IsIdentifierName("y")
    ensures IsIdentifierName("foo") && IsIdentifierName("bar") && IsIdentifierName("baz")
    ensures IsIdentifierName("arg1") && IsIdentifierName("arg2")
  {
    WordIsName("Foo");
    WordIsName("MyService");
    WordIsName("x");
    WordIsName("y");
    WordIsName("foo");
    WordIsName("bar");
    WordIsName("baz");
    WordIsName("arg1");
    WordIsName("arg2");
  }

  /** The struct of the sample document can be written and read back. */
  lemma FooRenderable()
    ensures RenderableItem(FooItem())
  {
    SampleNames();
    assert !StartsWithI32("Foo");
  }

  /** The service of the sample document can be written and read back. */
  lemma MyServiceRenderable()
    ensures RenderableItem(ServiceItem(MyService(), MyServiceMethods()))
  {
    SampleNames();
    assert !StartsWithI32("Foo");
    var methods := MyServiceMethods();
    assert RenderableMethod(methods[0]);
    assert RenderableTyped(methods[1].1.nonSelfParams[0]);
    assert RenderableTyped(methods[1].1.nonSelfParams[1]);
    assert RenderableMethod(methods[1]);
    assert RenderableMethod(methods[2]);
  }

  /** The struct of the sample document denotes `Foo` with its two fields. */
  lemma FooDefinition()
    ensures ItemDefinition(FooItem()) == Some(StructDefinition(Foo(), SampleInterface().structs[Foo()]))
  {
    var fields := FooItem().fields;
    assert fields[..1] == [fields[0]];
    assert UniqueMap(fields[..1]) == Some(map[Identifier("x") := I32]);
    assert Identifier("y") != Identifier("x");
  }

  /** The service of the sample document denotes `MyService` with its three methods. */
  lemma MyServiceDefinition()
    ensures ItemDefinition(ServiceItem(MyService(), MyServiceMethods())) ==
      Some(ServiceDefinition(MyService(), SampleInterface().services[MyService()]))
  {
    var methods := MyServiceMethods();
    assert methods[..1] == [methods[0]];
    assert UniqueMap(methods[..1]) == Some(map[methods[0].0 := methods[0].1]);
    assert methods[..2][..1] == methods[..1];
    assert methods[1].0 != methods[0].0;
    assert UniqueMap(methods[..2]) == Some(map[methods[0].0 := methods[0].1, methods[1].0 := methods[1].1]);
    assert methods[2].0 != methods[0].0 && methods[2].0 != methods[1].0;
  }

  /** The definitions of the sample document, in the order they are written. */
  function SampleDefinitions(): seq<Definition>
  {
    [ StructDefinition(Foo(), SampleInterface().structs[Foo()]),
      ServiceDefinition(MyService(), SampleInterface().services[MyService()]) ]
  }

  /** Gathering the sample definitions into maps gives the expected interface. */
  lemma SampleInterfaceOf()
    ensures InterfaceOf(SampleDefinitions()) == Some(SampleInterface())
  {
    var defs := SampleDefinitions();
    assert defs[..1] == [defs[0]];
    assert InterfaceOf(defs[..1]) == Some(RpcInterface(SampleInterface().structs, map[]));
  }

  /** The layout of the parser's own test: one line per definition header, member and closing brace, indented. */
  function TestLayout(): Layout
  {
    Layout(" ", "\n                ", "\n            ", "\n            ", "\n\n            ", "\n        ")
  }

  /** The input of the parser's own test, character for character, one line after another. */
  function TestInput(): string
  {
    "\n            struct Foo {" +
    ("\n                x : i32 ," +
    ("\n                y : Foo ," +
    ("\n            }" +
    ("\n\n            service MyService {" +
    ("\n                foo ( & self ) -> i32 ;" +
    ("\n                bar ( & self , arg1 : i32 , arg2 : Foo ) -> Foo ;" +
    ("\n                baz ( & self ) -> & service MyService ;" +
    ("\n            }" +
    "\n        "))))))))
  }

  /** The test's layout is valid: whitespace only, with the separating gaps non-empty. */
  lemma TestLayoutValid()
    ensures ValidLayout(TestLayout())
  {
  }

  /** A field after the gap before it is its pieces joined, then `rest`. */
  lemma FieldJoined(l: Layout, f: (Identifier, DataType), typeName: string, line: string, rest: Input)
    requires RenderDataType(f.1, l.space + ("," + rest)) == typeName + (l.space + ("," + rest))
    requires l.member + f.0.name + l.space + ":" + l.space + typeName + l.space + "," == line
    ensures l.member + RenderField(l, f, rest) == line + rest
  {
  }

  /** A parameter after the gap before it is its pieces joined, then `rest`. */
  lemma ParameterJoined(l: Layout, param: (Identifier, DataType), typeName: string, text: string, rest: Input)
    requires RenderDataType(param.1, rest) == typeName + rest
    requires l.space + "," + l.space + param.0.name + l.space + ":" + l.space + typeName == text
    ensures l.space + RenderParameter(l, param, rest) == text + rest
  {
  }

  /** The lines of the fields of `Foo`, and its header, as the test writes them. */
  lemma FooStructLiterals()
    ensures TestLayout().member + "x" + " " + ":" + " " + "i32" + " " + "," == "\n                x : i32 ,"
    ensures TestLayout().member + "y" + " " + ":" + " " + "Foo" + " " + "," == "\n                y : Foo ,"
    ensures "struct" + " " + "Foo" + " " + "{" == "struct Foo {"
  {
  }

  /** The parameters of `bar` as the test writes them. */
  lemma BarParameterLiterals()
    ensures " " + "," + " " + "arg1" + " " + ":" + " " + "i32" == " , arg1 : i32"
    ensures " " + "," + " " + "arg2" + " " + ":" + " " + "Foo" == " , arg2 : Foo"
    ensures " , arg1 : i32" + " , arg2 : Foo" == " , arg1 : i32 , arg2 : Foo"
  {
  }

  /** The struct `Foo` as the test writes it, up to the closing brace. */
  lemma FooItemText(rest: Input)
    ensures RenderItem(TestLayout(), FooItem(), rest) ==
      "struct Foo {" + ("\n                x : i32 ," + ("\n                y : Foo ," + ("\n            }" + rest)))
  {
    var l := TestLayout();
    var fields := FooItem().fields;
    var closing := "\n            }" + rest;
    var yLine := "\n                y : Foo ," + closing;
    FooStructLiterals();
    DocumentLiterals();
    GapJoined(l.close, "}", "\n            }", rest);
    FieldJoined(l, fields[1], "Foo", "\n                y : Foo ,", closing);
    FieldJoined(l, fields[0], "i32", "\n                x : i32 ,", yLine);
    assert fields[1..][1..] == [];
    var body := RenderList(RenderField, l, fields, l.member, l.member, l.close + ("}" + rest));
    assert body == l.member + RenderField(l, fields[0], l.member + RenderField(l, fields[1], l.close + ("}" + rest)));
    HeaderJoined("struct", "Foo", "struct Foo {", body);
  }

  /** The parameters of `bar`, as the test writes them. */
  lemma BarParametersText(rest: Input)
    ensures RenderList(RenderParameter, TestLayout(), MyServiceMethods()[1].1.nonSelfParams, " ", " ", rest) ==
      " , arg1 : i32 , arg2 : Foo" + rest
  {
    var l := TestLayout();
    var params := MyServiceMethods()[1].1.nonSelfParams;
    BarParameterLiterals();
    ParameterJoined(l, params[1], "Foo", " , arg2 : Foo", rest);
    ParameterJoined(l, params[0], "i32", " , arg1 : i32", " , arg2 : Foo" + rest);
    GapJoined(" , arg1 : i32", " , arg2 : Foo", " , arg1 : i32 , arg2 : Foo", rest);
    assert params[1..][1..] == [];
  }

  /** The head of a method line up to `self`, then `x`. */
  function MethodHead(name: string, x: Input): Input
  {
    TestLayout().member + (name + (" " + ("(" + (" " + ("&" + (" " + ("self" + x)))))))
  }

  /** The end of a method line after its parameters, for a rendered return type `returned`. */
  function MethodTail(returned: Input): Input
  {
    " " + (")" + (" " + ("->" + (" " + returned))))
  }

  /** The head of a method line is its pieces joined, then `x`. */
  lemma MethodHeadText(name: string, head: string, x: Input)
    requires TestLayout().member + name + " " + "(" + " " + "&" + " " + "self" == head
    ensures MethodHead(name, x) == head + x
  {
  }

  /** The end of a method line is its pieces joined, then `x`. */
  lemma MethodTailText(returned: string, tail: string, x: Input)
    requires " " + ")" + " " + "->" + " " + returned + " " + ";" == tail
    ensures MethodTail(returned + (" " + (";" + x))) == tail + x
  {
  }

  /** A method line is its head, its parameters and its tail. */
  lemma MethodLineJoined(m: (Identifier, Method), returned: string, params: string, head: string, tail: string, line: string, rest: Input)
    requires RenderReturnType(TestLayout(), m.1.returnType, " " + (";" + rest)) == returned + (" " + (";" + rest))
    requires MethodTail(returned + (" " + (";" + rest))) == tail + rest
    requires RenderList(RenderParameter, TestLayout(), m.1.nonSelfParams, " ", " ", tail + rest) == params + (tail + rest)
    requires MethodHead(m.0.name, params + (tail + rest)) == head + (params + (tail + rest))
    requires head + params + tail == line
    ensures TestLayout().member + RenderMethod(TestLayout(), m, rest) == line + rest
  {
  }

  /** How the pieces of a method line join, for a method named `name`. */
  lemma MethodLineLiterals(name: string, returned: string, params: string, head: string, tail: string, line: string)
    requires TestLayout().member + name + " " + "(" + " " + "&" + " " + "self" == head
    requires " " + ")" + " " + "->" + " " + returned + " " + ";" == tail
    requires head + params + tail == line
    ensures forall x: Input :: MethodHead(name, x) == head + x
    ensures forall x: Input :: MethodTail(returned + (" " + (";" + x))) == tail + x
  {
    forall x: Input
      ensures MethodHead(name, x) == head + x
    {
      MethodHeadText(name, head, x);
    }
    forall x: Input
      ensures MethodTail(returned + (" " + (";" + x))) == tail + x
    {
      MethodTailText(returned, tail, x);
    }
  }

  /** The pieces of the line of `foo` join as the test writes it. */
  lemma FooMethodLiterals()
    ensures TestLayout().member + "foo" + " " + "(" + " " + "&" + " " + "self" == "\n                foo ( & self"
    ensures " " + ")" + " " + "->" + " " + "i32" + " " + ";" == " ) -> i32 ;"
    ensures "\n                foo ( & self" + "" + " ) -> i32 ;" == "\n                foo ( & self ) -> i32 ;"
  {
  }

  /** The head and the tail of the line of `bar`, as the test writes them. */
  lemma BarEndsLiterals()
    ensures TestLayout().member + "bar" + " " + "(" + " " + "&" + " " + "self" == "\n                bar ( & self"
    ensures " " + ")" + " " + "->" + " " + "Foo" + " " + ";" == " ) -> Foo ;"
  {
  }

  /** The pieces of the line of `bar` join as the test writes it. */
  lemma BarLiterals()
    ensures TestLayout().member + "bar" + " " + "(" + " " + "&" + " " + "self" == "\n                bar ( & self"
    ensures " " + ")" + " " + "->" + " " + "Foo" + " " + ";" == " ) -> Foo ;"
    ensures "\n                bar ( & self" + " , arg1 : i32 , arg2 : Foo" + " ) -> Foo ;" ==
      "\n                bar ( & self , arg1 : i32 , arg2 : Foo ) -> Foo ;"
  {
    BarEndsLiterals();
  }

  /** The pieces of the line of `baz` join as the test writes it. */
  lemma BazLiterals()
    ensures TestLayout().member + "baz" + " " + "(" + " " + "&" + " " + "self" == "\n                baz ( & self"
  {
  }

  /** The pieces that close the line of `baz` join as the test writes it. */
  lemma BazEndsLiterals()
    ensures " " + ")" + " " + "->" + " " + "& service MyService" + " " + ";" == " ) -> & service MyService ;"
    ensures "\n                baz ( & self" + "" + " ) -> & service MyService ;" == "\n                baz ( & self ) -> & service MyService ;"
  {
  }

  /** The method `foo` on its own line, as the test writes it. */
  lemma FooLineText(rest: Input)
    ensures TestLayout().member + RenderMethod(TestLayout(), MyServiceMethods()[0], rest) ==
      "\n                foo ( & self ) -> i32 ;" + rest
  {
    var head, tail, line := "\n                foo ( & self", " ) -> i32 ;", "\n                foo ( & self ) -> i32 ;";
    FooMethodLiterals();
    MethodLineLiterals("foo", "i32", "", head, tail, line);
    MethodLineJoined(MyServiceMethods()[0], "i32", "", head, tail, line, rest);
  }

  /** The method `bar` on its own line, as the test writes it. */
  lemma BarLineText(rest: Input)
    ensures TestLayout().member + RenderMethod(TestLayout(), MyServiceMethods()[1], rest) ==
      "\n                bar ( & self , arg1 : i32 , arg2 : Foo ) -> Foo ;" + rest
  {
    var head, tail, line := "\n                bar ( & self", " ) -> Foo ;", "\n                bar ( & self , arg1 : i32 , arg2 : Foo ) -> Foo ;";
    var params := " , arg1 : i32 , arg2 : Foo";
    BarLiterals();
    MethodLineLiterals("bar", "Foo", params, head, tail, line);
    BarParametersText(tail + rest);
    MethodLineJoined(MyServiceMethods()[1], "Foo", params, head, tail, line, rest);
  }

  /** `& service MyService` as the test writes it. */
  lemma ServiceRefText(rest: Input)
    ensures RenderReturnType(TestLayout(), ServiceRef(MyService()), rest) == "& service MyService" + rest
  {
  }

  /** The method `baz` on its own line, as the test writes it. */
  lemma BazLineText(rest: Input)
    ensures TestLayout().member + RenderMethod(TestLayout(), MyServiceMethods()[2], rest) ==
      "\n                baz ( & self ) -> & service MyService ;" + rest
  {
    var head, tail, line := "\n                baz ( & self", " ) -> & service MyService ;", "\n                baz ( & self ) -> & service MyService ;";
    BazLiterals();
    BazEndsLiterals();
    MethodLineLiterals("baz", "& service MyService", "", head, tail, line);
    ServiceRefText(" " + (";" + rest));
    MethodLineJoined(MyServiceMethods()[2], "& service MyService", "", head, tail, line, rest);
  }

  /** The methods of `MyService`, each on its own line, as the test writes them. */
  lemma MethodLinesText(rest: Input)
    ensures RenderList(RenderMethod, TestLayout(), MyServiceMethods(), TestLayout().member, TestLayout().member, rest) ==
      "\n                foo ( & self ) -> i32 ;" +
      ("\n                bar ( & self , arg1 : i32 , arg2 : Foo ) -> Foo ;" +
      ("\n                baz ( & self ) -> & service MyService ;" + rest))
  {
    var methods := MyServiceMethods();
    var bazLine := "\n                baz ( & self ) -> & service MyService ;";
    var barLine := "\n                bar ( & self , arg1 : i32 , arg2 : Foo ) -> Foo ;";
    BazLineText(rest);
    BarLineText(bazLine + rest);
    FooLineText(barLine + (bazLine + rest));
    assert methods[1..][1..][1..] == [];
    assert methods[1..][1..][0] == methods[2];
  }

  /** A gap and the text after it join, whatever follows. */
  lemma GapJoined(g: string, a: string, joined: string, x: Input)
    requires g + a == joined
    ensures g + (a + x) == joined + x
  {
  }

  /** A definition's header, keyword, name and opening brace, then `x`. */
  lemma HeaderJoined(keyword: string, name: string, header: string, x: Input)
    requires keyword + " " + name + " " + "{" == header
    ensures keyword + (" " + (name + (" " + ("{" + x)))) == header + x
  {
  }

  /** The gaps and headers of the test's input, as it writes them. */
  lemma DocumentLiterals()
    ensures TestLayout().close + "}" == "\n            }"
    ensures "service" + " " + "MyService" + " " + "{" == "service MyService {"
    ensures TestLayout().lead + "struct Foo {" == "\n            struct Foo {"
    ensures TestLayout().between + "service MyService {" == "\n\n            service MyService {"
    ensures TestLayout().trail == "\n        "
  {
  }

  /** The service `MyService` as the test writes it, up to the closing brace. */
  lemma MyServiceItemText(rest: Input)
    ensures RenderItem(TestLayout(), ServiceItem(MyService(), MyServiceMethods()), rest) ==
      "service MyService {" +
      ("\n                foo ( & self ) -> i32 ;" +
      ("\n                bar ( & self , arg1 : i32 , arg2 : Foo ) -> Foo ;" +
      ("\n                baz ( & self ) -> & service MyService ;" +
      ("\n            }" + rest))))
  {
    var l := TestLayout();
    var closing := "\n            }" + rest;
    DocumentLiterals();
    GapJoined(l.close, "}", "\n            }", rest);
    MethodLinesText(closing);
    var body := RenderList(RenderMethod, l, MyServiceMethods(), l.member, l.member, l.close + ("}" + rest));
    HeaderJoined("service", "MyService", "service MyService {", body);
  }

  /** The test's input is the sample document in the test's layout. */
  lemma TestInputRendered()
    ensures RenderDocument(TestLayout(), SampleItems()) == TestInput()
  {
    var l := TestLayout();
    var items := SampleItems();
    DocumentLiterals();
    MyServiceItemText(l.trail);
    var serviceText := RenderItem(l, items[1], l.trail);
    var serviceRest := serviceText[|"service MyService {"|..];
    assert serviceText == "service MyService {" + serviceRest;
    GapJoined(l.between, "service MyService {", "\n\n            service MyService {", serviceRest);
    FooItemText(l.between + serviceText);
    var fooText := RenderItem(l, items[0], l.between + serviceText);
    var fooRest := fooText[|"struct Foo {"|..];
    assert fooText == "struct Foo {" + fooRest;
    GapJoined(l.lead, "struct Foo {", "\n            struct Foo {", fooRest);
    assert items[1..][1..] == [];
    assert items[1..][0] == items[1];
  }

  /** The sample document in the test's layout is read in full as the expected interface. */
  lemma SampleRenderedParses()
    ensures ParseInterface(RenderDocument(TestLayout(), SampleItems())) == Some((SampleInterface(), []))
  {
    TestLayoutValid();
    FooRenderable();
    MyServiceRenderable();
    FooDefinition();
    MyServiceDefinition();
    SampleInterfaceOf();
    DocumentRoundTrip(TestLayout(), SampleItems(), SampleDefinitions());
  }

  /**
    The input of the parser's own test, newlines and indentation included,
    is read in full as exactly the interface that test expects.
  */
  lemma SampleDocumentParses()
    ensures ParseInterface(TestInput()) == Some((SampleInterface(), []))
  {
    TestInputRendered();
    SampleRenderedParses();
  }

  /** `struct Foo { }` and `service Foo { }` may stand in the same file, in any layout: they live in separate maps. */
  lemma StructAndServiceMayShareName(l: Layout)
    requires ValidLayout(l)
    ensures ParseInterface(RenderDocument(l, [StructItem(Foo(), []), ServiceItem(Foo(), [])])) ==
      Some((RpcInterface(map[Foo() := StructDef(map[])], map[Foo() := ServiceDef(map[])]), []))
  {
    SampleNames();
    var defs := [StructDefinition(Foo(), StructDef(map[])), ServiceDefinition(Foo(), ServiceDef(map[]))];
    assert defs[..1] == [defs[0]];
    DocumentRoundTrip(l, [StructItem(Foo(), []), ServiceItem(Foo(), [])], defs);
  }

  /** Two structs named `Foo` make the file fail, however it is laid out. */
  lemma DuplicateStructRejected(l: Layout)
    requires ValidLayout(l)
    ensures ParseInterface(RenderDocument(l, [StructItem(Foo(), []), StructItem(Foo(), [])])).None?
  {
    SampleNames();
    var def := StructDefinition(Foo(), StructDef(map[]));
    var defs := [def, def];
    assert defs[..1] == [def];
    DocumentRoundTrip(l, [StructItem(Foo(), []), StructItem(Foo(), [])], defs);
  }

  /** A struct whose field `x` is declared twice makes the file fail, whatever the types and the layout. */
  lemma DuplicateFieldRejected(l: Layout)
    requires ValidLayout(l)
    ensures ParseInterface(RenderDocument(l, [StructItem(Foo(), [(Identifier("x"), I32), (Identifier("x"), Struct(Foo()))])])).None?
  {
    SampleNames();
    var item := StructItem(Foo(), [(Identifier("x"), I32), (Identifier("x"), Struct(Foo()))]);
    assert !StartsWithI32("Foo");
    assert RenderableItem(item);
    ItemDefinitionIffDistinct(item);
    assert !DistinctNames(item.fields);
    DocumentRejectsInvalidItem(l, [item], [], 0);
  }
}
