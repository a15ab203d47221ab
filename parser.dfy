/**
  The parser of RPC interface files (rusty_rpc_macro/src/parser.rs), a nom
  combinator parser for this grammar:

    document   := definition*            (whitespace around and between)
    definition := "struct" ident "{" (ident ":" data-type ",")* "}"
                | "service" ident "{" method* "}"
    method     := ident "(" "&" "self" ("," ident ":" data-type)* ")" "->" return-type ";"
    return-type:= "&" "service" ident | data-type
    data-type  := "i32" | ident

  Every parser takes the input and yields the value it read with the input
  left over, or `None` where nom reports an error. The input is a byte
  string; here each byte is a `char`.
*/
module Parser {
  import opened Wrappers
  import opened Interface

  type Input = seq<char>

  /** The result of a nom parser: the value and the rest of the input, or an error. */
  type ParseResult<T> = Option<(T, Input)>

  /** nom's `is_alphabetic`: an ASCII letter. */
  predicate IsAlphabetic(c: char)
  {
    'A' <= c <= 'Z' || 'a' <= c <= 'z'
  }

  /** nom's `is_alphanumeric`: an ASCII letter or digit. */
  predicate IsAlphanumeric(c: char)
  {
    IsAlphabetic(c) || '0' <= c <= '9'
  }

  /** A character that may continue an identifier. */
  predicate IsIdentChar(c: char)
  {
    IsAlphanumeric(c) || c == '_'
  }

  /** The characters that nom's `multispace0` and `multispace1` skip. */
  predicate IsMultispace(c: char)
  {
    c == ' ' || c == '\t' || c == '\r' || c == '\n'
  }

  /** `s` does not start with a character that could extend an identifier. */
  predicate AtWordEnd(s: Input)
  {
    s == [] || !IsIdentChar(s[0])
  }

  /** `s` does not start with whitespace. */
  predicate AtToken(s: Input)
  {
    s == [] || !IsMultispace(s[0])
  }

  /** The words that the grammar reserves; none of them is an identifier. */
  const ReservedWords: set<string> := {"struct", "service", "self", "mut", "crate", "super", "Self"}

  /** The spelling of an identifier: a letter, then letters, digits or `_`, and not a reserved word. */
  predicate IsIdentifierName(name: string)
  {
    && name != []
    && IsAlphabetic(name[0])
    && (forall i :: 1 <= i < |name| ==> IsIdentChar(name[i]))
    && name !in ReservedWords
  }

  /** nom's `multispace0`: skip all leading whitespace. */
  function Multispace0(s: Input): (r: Input)
    ensures |r| <= |s| && r == s[|s| - |r|..] && AtToken(r)
    ensures forall i :: 0 <= i < |s| - |r| ==> IsMultispace(s[i])
  {
    if s != [] && IsMultispace(s[0]) then
      var r := Multispace0(s[1..]);
      assert forall i :: 1 <= i < |s| - |r| ==> s[i] == s[1..][i - 1];
      r
    else s
  }

  /** nom's `multispace1`: like `multispace0`, but at least one whitespace character is required. */
  function Multispace1(s: Input): (r: Option<Input>)
    ensures r.Some? <==> s != [] && IsMultispace(s[0])
    ensures r.Some? ==> |r.value| < |s| && AtToken(r.value)
  {
    if s != [] && IsMultispace(s[0]) then Some(Multispace0(s[1..])) else None
  }

  /** nom's `tag`: the input must start with `t`, which is consumed. */
  function Tag(t: string, s: Input): (r: Option<Input>)
    ensures r.Some? <==> t <= s
    ensures r.Some? ==> s == t + r.value
  {
    if t <= s then Some(s[|t|..]) else None
  }

  /** The length of the longest prefix of `s` made of identifier characters. */
  function IdentRun(s: Input): (n: nat)
    ensures n <= |s| && AtWordEnd(s[n..])
    ensures forall i :: 0 <= i < n ==> IsIdentChar(s[i])
  {
    if s != [] && IsIdentChar(s[0]) then
      var n := 1 + IdentRun(s[1..]);
      assert forall i :: 1 <= i < n ==> s[i] == s[1..][i - 1];
      n
    else 0
  }

  /**
    `parse_identifier`: one letter followed by as many letters, digits and
    underscores as there are, rejected when the word read is reserved.
  */
  function ParseIdentifier(s: Input): (r: ParseResult<Identifier>)
    ensures r.None? <==> s == [] || !IsAlphabetic(s[0]) || s[..1 + IdentRun(s[1..])] in ReservedWords
    ensures r.Some? ==>
      && s == r.value.0.name + r.value.1
      && IsIdentifierName(r.value.0.name)
      && AtWordEnd(r.value.1)
  {
    if s != [] && IsAlphabetic(s[0]) then
      var n := 1 + IdentRun(s[1..]);
      assert forall i :: 1 <= i < n ==> s[i] == s[1..][i - 1];
      var word := s[..n];
      if word in ReservedWords then None
      else
        assert s == word + s[n..];
        Some((Identifier(word), s[n..]))
    else None
  }

  /** `parse_data_type`: the literal `i32` is tried first, otherwise a struct named by an identifier. */
  function ParseDataType(s: Input): (r: ParseResult<DataType>)
    ensures "i32" <= s ==> r == Some((I32, s[3..]))
    ensures !("i32" <= s) ==>
      (r.Some? <==> ParseIdentifier(s).Some?) &&
      (r.Some? ==> r.value == (Struct(ParseIdentifier(s).value.0), ParseIdentifier(s).value.1))
    ensures r.Some? ==> |r.value.1| < |s|
  {
    match Tag("i32", s)
    case Some(rest) => Some((I32, rest))
    case None =>
      var (name, rest) :- ParseIdentifier(s);
      Some((Struct(name), rest))
  }

  /** The first alternative of `parse_return_type`: `&`, `service`, at least one space, a service name. */
  function ParseServiceType(s: Input): (r: ParseResult<Identifier>)
    ensures r.Some? ==> |r.value.1| < |s|
  {
    var afterAmp :- Tag("&", s);
    var afterKeyword :- Tag("service", Multispace0(afterAmp));
    var afterSpace :- Multispace1(afterKeyword);
    ParseIdentifier(afterSpace)
  }

  /** `parse_return_type`: a reference to a service if that alternative matches, otherwise a data type. */
  function ParseReturnType(s: Input): (r: ParseResult<ReturnType>)
    ensures ParseServiceType(s).Some? ==>
      r == Some((ServiceRef(ParseServiceType(s).value.0), ParseServiceType(s).value.1))
    ensures ParseServiceType(s).None? ==>
      (r.Some? <==> ParseDataType(s).Some?) &&
      (r.Some? ==> r.value == (Data(ParseDataType(s).value.0), ParseDataType(s).value.1))
    ensures r.Some? ==> |r.value.1| < |s|
  {
    match ParseServiceType(s)
    case Some((name, rest)) => Some((ServiceRef(name), rest))
    case None =>
      var (t, rest) :- ParseDataType(s);
      Some((Data(t), rest))
  }

  /**
    `many0_padded_by_multispace(p)`, that is
    `preceded(multispace0, many0(terminated(p, multispace0)))`.
  */
  function Many0Padded<T>(p: Input -> ParseResult<T>, s: Input): (r: Option<(seq<T>, Input)>)
    ensures r.Some? ==> |r.value.1| <= |s| && AtToken(r.value.1) && p(r.value.1).None?
    ensures (forall t :: p(t).Some? ==> |p(t).value.1| < |t|) ==> r.Some?
  {
    Many0Terminated(p, Multispace0(s))
  }

  /**
    `many0(terminated(p, multispace0))`: apply `p` and skip whitespace until
    `p` fails; like nom's `many0`, fail if an item consumed nothing.
  */
  function Many0Terminated<T>(p: Input -> ParseResult<T>, s: Input): (r: Option<(seq<T>, Input)>)
    ensures r.Some? ==> |r.value.1| <= |s| && p(r.value.1).None?
    ensures r.Some? && AtToken(s) ==> AtToken(r.value.1)
    ensures (forall t :: p(t).Some? ==> |p(t).value.1| < |t|) ==> r.Some?
    decreases |s|
  {
    match p(s)
    case None => Some(([], s))
    case Some((x, rest)) =>
      var next := Multispace0(rest);
      if |next| >= |s| then None
      else
        var (xs, last) :- Many0Terminated(p, next);
        Some(([x] + xs, last))
  }

  /** `parse_parameter` inside `parse_method`: `,` name `:` type, whitespace allowed between. */
  function ParseParameter(s: Input): (r: ParseResult<(Identifier, DataType)>)
    ensures r.Some? ==> |r.value.1| < |s|
  {
    var afterComma :- Tag(",", s);
    var (name, afterName) :- ParseIdentifier(Multispace0(afterComma));
    var afterColon :- Tag(":", Multispace0(afterName));
    var (t, rest) :- ParseDataType(Multispace0(afterColon));
    Some(((name, t), rest))
  }

  /**
    `parse_method`: name `(` `&` `self` parameters `)` `->` return type `;`.
    The receiver is required and not recorded; the other parameters are kept
    in the order they are written.
  */
  function ParseMethod(s: Input): (r: ParseResult<(Identifier, Method)>)
    ensures r.Some? ==> |r.value.1| < |s|
  {
    var (name, afterName) :- ParseIdentifier(s);
    var afterOpen :- Tag("(", Multispace0(afterName));
    var afterAmp :- Tag("&", Multispace0(afterOpen));
    var afterSelf :- Tag("self", Multispace0(afterAmp));
    var (params, afterParams) :- Many0Padded(ParseParameter, afterSelf);
    var afterClose :- Tag(")", afterParams);
    var afterArrow :- Tag("->", Multispace0(afterClose));
    var (returnType, afterType) :- ParseReturnType(Multispace0(afterArrow));
    var rest :- Tag(";", Multispace0(afterType));
    Some(((name, Method(params, returnType)), rest))
  }

  /** `parse_struct_field`: name `:` type `,`. */
  function ParseStructField(s: Input): (r: ParseResult<(Identifier, DataType)>)
    ensures r.Some? ==> |r.value.1| < |s|
  {
    var (name, afterName) :- ParseIdentifier(s);
    var afterColon :- Tag(":", Multispace0(afterName));
    var (t, afterType) :- ParseDataType(Multispace0(afterColon));
    var rest :- Tag(",", Multispace0(afterType));
    Some(((name, t), rest))
  }

  /**
    The map that the closures given to `map_res` in `parse_struct` and
    `parse_service` build: the entries inserted one by one into an empty map,
    or `None` as soon as a name is already there.
  */
  function UniqueMap<V>(entries: seq<(Identifier, V)>): (r: Option<map<Identifier, V>>)
    ensures r.Some? ==> r.value.Keys == set i | 0 <= i < |entries| :: entries[i].0
  {
    if entries == [] then Some(map[])
    else
      var m :- UniqueMap(entries[..|entries| - 1]);
      var (name, value) := entries[|entries| - 1];
      if name in m then None
      else
        assert forall i :: 0 <= i < |entries| - 1 ==> entries[i] == entries[..|entries| - 1][i];
        Some(m[name := value])
  }

  /** `parse_struct`: `struct`, at least one space, name, `{`, fields, `}`; field names must be distinct. */
  function ParseStruct(s: Input): (r: ParseResult<(Identifier, StructDef)>)
    ensures r.Some? ==> |r.value.1| < |s|
  {
    var afterKeyword :- Tag("struct", s);
    var afterSpace :- Multispace1(afterKeyword);
    var (name, afterName) :- ParseIdentifier(afterSpace);
    var afterOpen :- Tag("{", Multispace0(afterName));
    var (fields, afterFields) :- Many0Padded(ParseStructField, afterOpen);
    var rest :- Tag("}", afterFields);
    var fieldMap :- UniqueMap(fields);
    Some(((name, StructDef(fieldMap)), rest))
  }

  /** `parse_service`: `service`, at least one space, name, `{`, methods, `}`; method names must be distinct. */
  function ParseService(s: Input): (r: ParseResult<(Identifier, ServiceDef)>)
    ensures r.Some? ==> |r.value.1| < |s|
  {
    var afterKeyword :- Tag("service", s);
    var afterSpace :- Multispace1(afterKeyword);
    var (name, afterName) :- ParseIdentifier(afterSpace);
    var afterOpen :- Tag("{", Multispace0(afterName));
    var (methods, afterMethods) :- Many0Padded(ParseMethod, afterOpen);
    var rest :- Tag("}", afterMethods);
    var methodMap :- UniqueMap(methods);
    Some(((name, ServiceDef(methodMap)), rest))
  }

  /** The `Definition` enum local to `parse_interface`. */
  datatype Definition =
    | StructDefinition(name: Identifier, structDef: StructDef)
    | ServiceDefinition(name: Identifier, serviceDef: ServiceDef)

  /** `alt((parse_struct, parse_service))`, each wrapped as a `Definition`. */
  function ParseDefinition(s: Input): (r: ParseResult<Definition>)
    ensures r.Some? ==> |r.value.1| < |s|
  {
    match ParseStruct(s)
    case Some(((name, def), rest)) => Some((StructDefinition(name, def), rest))
    case None =>
      var ((name, def), rest) :- ParseService(s);
      Some((ServiceDefinition(name, def), rest))
  }

  /**
    The interface that `definitions_to_interface` builds: each definition
    inserted, in order, into the map of its kind, or `None` as soon as a name
    is already defined in that map.
  */
  function InterfaceOf(defs: seq<Definition>): (r: Option<RpcInterface>)
  {
    if defs == [] then Some(RpcInterface(map[], map[]))
    else
      var acc :- InterfaceOf(defs[..|defs| - 1]);
      match defs[|defs| - 1]
      case StructDefinition(name, def) =>
        if name in acc.structs then None else Some(acc.(structs := acc.structs[name := def]))
      case ServiceDefinition(name, def) =>
        if name in acc.services then None else Some(acc.(services := acc.services[name := def]))
  }

  /** `parse_interface`: definitions padded by whitespace, gathered into maps, then the end of input. */
  function ParseInterface(s: Input): (r: ParseResult<RpcInterface>)
    ensures r.Some? ==> r.value.1 == []
  {
    var (defs, rest) :- Many0Padded(ParseDefinition, s);
    var iface :- InterfaceOf(defs);
    if rest == [] then Some((iface, rest)) else None
  }

  /** No name occurs twice among the entries. */
  predicate DistinctNames<V>(entries: seq<(Identifier, V)>)
  {
    forall i, j :: 0 <= i < j < |entries| ==> entries[i].0 != entries[j].0
  }

  /**
    Building the map fails exactly when a name is repeated; otherwise every
    name maps to the value given with it.
  */
  lemma {:induction false} UniqueMapIffDistinct<V>(entries: seq<(Identifier, V)>)
    ensures UniqueMap(entries).Some? <==> DistinctNames(entries)
    ensures UniqueMap(entries).Some? ==>
      forall i :: 0 <= i < |entries| ==> UniqueMap(entries).value[entries[i].0] == entries[i].1
  {
    if entries != [] {
      var n := |entries| - 1;
      var init := entries[..n];
      var name := entries[n].0;
      UniqueMapIffDistinct(init);
      assert forall i :: 0 <= i < n ==> init[i] == entries[i];
      if UniqueMap(init).Some? {
        var m := UniqueMap(init).value;
        if name in m {
          var k :| 0 <= k < n && init[k].0 == name;
          assert entries[k].0 == entries[n].0;
        } else {
          forall i, j | 0 <= i < j < |entries|
            ensures entries[i].0 != entries[j].0
          {
            if j == n {
              assert entries[i].0 == init[i].0 && init[i].0 in m;
            }
          }
        }
      } else {
        assert !DistinctNames(init);
      }
    }
  }

  /**
    The loop in the closures of `parse_struct` and `parse_service`: insert
    the entries one by one into a map and return at the first duplicate.
  */
  method InsertAll<V>(entries: seq<(Identifier, V)>) returns (r: Option<map<Identifier, V>>)
    ensures r == UniqueMap(entries)
  {
    var m: map<Identifier, V> := map[];
    for i := 0 to |entries|
      invariant UniqueMap(entries[..i]) == Some(m)
    {
      var (name, value) := entries[i];
      assert entries[..i + 1][..i] == entries[..i];
      if name in m {
        UniqueMapIffDistinct(entries[..i + 1]);
        UniqueMapIffDistinct(entries);
        assert forall j :: 0 <= j <= i ==> entries[..i + 1][j] == entries[j];
        return None;
      }
      m := m[name := value];
    }
    assert entries[..|entries|] == entries;
    r := Some(m);
  }

  /** The struct definitions among `defs`, in order, as name and definition. */
  function StructEntries(defs: seq<Definition>): (r: seq<(Identifier, StructDef)>)
    ensures |r| <= |defs|
  {
    if defs == [] then []
    else
      var last := defs[|defs| - 1];
      StructEntries(defs[..|defs| - 1]) + (if last.StructDefinition? then [(last.name, last.structDef)] else [])
  }

  /** The service definitions among `defs`, in order, as name and definition. */
  function ServiceEntries(defs: seq<Definition>): (r: seq<(Identifier, ServiceDef)>)
    ensures |r| <= |defs|
  {
    if defs == [] then []
    else
      var last := defs[|defs| - 1];
      ServiceEntries(defs[..|defs| - 1]) + (if last.ServiceDefinition? then [(last.name, last.serviceDef)] else [])
  }

  /**
    Structs and services live in separate maps: the interface is built
    exactly when the struct names are distinct among themselves and the
    service names are distinct among themselves, and then its two maps are
    those of the struct and service definitions.
  */
  lemma {:induction false} InterfaceOfSeparatesKinds(defs: seq<Definition>)
    ensures InterfaceOf(defs) ==
      if UniqueMap(StructEntries(defs)).Some? && UniqueMap(ServiceEntries(defs)).Some?
      then Some(RpcInterface(UniqueMap(StructEntries(defs)).value, UniqueMap(ServiceEntries(defs)).value))
      else None
  {
    if defs != [] {
      var n := |defs| - 1;
      InterfaceOfSeparatesKinds(defs[..n]);
      var structs := StructEntries(defs[..n]);
      var services := ServiceEntries(defs[..n]);
      match defs[n]
      case StructDefinition(name, def) =>
        assert StructEntries(defs) == structs + [(name, def)];
        assert ServiceEntries(defs) == services;
        assert (structs + [(name, def)])[..|structs|] == structs;
      case ServiceDefinition(name, def) =>
        assert ServiceEntries(defs) == services + [(name, def)];
        assert StructEntries(defs) == structs;
        assert (services + [(name, def)])[..|services|] == services;
    }
  }

  /**
    `definitions_to_interface`: start from two empty maps and insert each
    definition into the map of its kind, returning at the first duplicate.
  */
  method DefinitionsToInterface(defs: seq<Definition>) returns (r: Option<RpcInterface>)
    ensures r == InterfaceOf(defs)
  {
    var output := RpcInterface(map[], map[]);
    for i := 0 to |defs|
      invariant InterfaceOf(defs[..i]) == Some(output)
    {
      assert defs[..i + 1][..i] == defs[..i];
      match defs[i] {
        case StructDefinition(name, def) =>
          if name in output.structs {
            InterfaceFailurePersists(defs, i + 1);
            return None;
          }
          output := output.(structs := output.structs[name := def]);
        case ServiceDefinition(name, def) =>
          if name in output.services {
            InterfaceFailurePersists(defs, i + 1);
            return None;
          }
          output := output.(services := output.services[name := def]);
      }
    }
    assert defs[..|defs|] == defs;
    r := Some(output);
  }

  /** Once a prefix of the definitions holds a duplicate, the whole list fails. */
  lemma {:induction false} InterfaceFailurePersists(defs: seq<Definition>, k: nat)
    requires k <= |defs|
    requires InterfaceOf(defs[..k]).None?
    ensures InterfaceOf(defs).None?
    decreases |defs| - k
  {
    if k < |defs| {
      assert defs[..k + 1][..k] == defs[..k];
      InterfaceFailurePersists(defs, k + 1);
    } else {
      assert defs[..k] == defs;
    }
  }
}
