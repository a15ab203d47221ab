/**
  The abstract syntax of an RPC interface file (rusty_rpc_macro/src/interface.rs):
  a finite map from names to struct definitions and one from names to
  service definitions. Hash maps and ordered maps of the source are both
  finite maps keyed by `Identifier` here.
*/
module Interface {

  /** A name: identifiers are equal exactly when their strings are. */
  datatype Identifier = Identifier(name: string)

  /** The type of a field or parameter: the built-in `i32`, or a struct named by identifier. */
  datatype DataType = I32 | Struct(structName: Identifier)

  /** What a method returns: a reference to a service by name, or plain data. */
  datatype ReturnType = ServiceRef(serviceName: Identifier) | Data(dataType: DataType)

  /** A method taking `& self` and the other parameters, in declaration order, with their types. */
  datatype Method = Method(nonSelfParams: seq<(Identifier, DataType)>, returnType: ReturnType)

  /** A struct definition: each field name has exactly one type. */
  datatype StructDef = StructDef(fields: map<Identifier, DataType>)

  /** A service definition: each method name has exactly one signature. */
  datatype ServiceDef = ServiceDef(methods: map<Identifier, Method>)

  /** A whole interface file: at most one struct and at most one service per name. */
  datatype RpcInterface = RpcInterface(structs: map<Identifier, StructDef>, services: map<Identifier, ServiceDef>)
}
