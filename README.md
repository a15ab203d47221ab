# rusty_rpc core, modelled in Dafny

rusty_rpc is a Rust RPC library. An interface file declares structs and
services, and a procedural macro turns it into client and server code. Over
one connection the server keeps a table of live service objects. The client
names each object by a 64-bit `ServiceId`. It calls methods on these objects,
and it drops them. A method may return a new child service, which keeps its
parent locked until the child is dropped.

This project models three parts of that system and proves properties of them.

- **The interface-file parser** (`rusty_rpc_macro/src/parser.rs`) and the AST it
  builds (`rusty_rpc_macro/src/interface.rs`).
  - Each nom parser is a function from the input to `Option<(value, rest)>`.
    `None` stands for a nom error.
  - The duplicate-name checks are pure specification functions. The source's
    `for` loops over them are methods proved equal to those functions.
  - Every parser has a renderer as its partner. The renderer takes a
    layout, which says what whitespace goes in each gap between tokens.
    Lemmas prove that each parser reads back exactly what the renderer
    writes in any valid layout, then rests at the next token. At document
    level, a file is accepted exactly when its struct names are distinct
    and its service names are distinct.
  - Another lemma shows that the input of the parser's own test, character
    for character with its newlines and indentation, parses to the expected
    interface.
- **The service registry** (`rusty_rpc_lib/src/service_collection.rs` and
  `server_collection.rs`) and its wrapping identity counter
  (`rusty_rpc_lib/src/messages.rs`).
  - Both collections are classes over a map and a counter.
  - `register_service` is a loop that probes identities, proved to return
    the first vacant identity reached by wrapping increments from the counter.
  - Server entries carry the optional guard that a child holds on its
    parent's lock. The invariant `GuardsHeld` says that every guard's parent
    is present and locked, and that no lock is held by two guards. Every
    operation keeps it.
- **`handle_connection`** (`rusty_rpc_lib/src/lib.rs`), as a state
  transition per client message.
  - `Transition`, `Run` and `Serve` are specification functions.
  - The imperative `HandleConnection` is proved to produce the responses,
    the ending and the final registry that `Serve` gives.
  - Lemmas state when a message is an error, when it panics and when it is
    answered. They show that responses come in order and that the registry
    stays consistent. In particular, a service's lock is held exactly while
    it has a live child.
  - A scenario follows the parent/child example client
    (`examples/src/parent_child/client.rs`). Calling the parent while its
    child is alive panics. After the child is dropped, the parent can be
    used again.
  - Dropping a service while its child is alive is a finding (see below).
    The source as written lets the drop through; the model panics, as the
    source's `expect` message intends.

Files and modules:

| file | module | contents |
|---|---|---|
| `wrappers.dfy` | `Wrappers` | `Option` with the failure-propagation members `:-` needs |
| `interface.dfy` | `Interface` | AST datatypes |
| `parser.dfy` | `Parser` | the nom parsers, duplicate detection, `definitions_to_interface` |
| `parser_roundtrip.dfy` | `ParserRoundTrip` | renderers and the parse/render round trips |
| `parser_examples.dfy` | `ParserExamples` | the sample document and small rejected documents |
| `messages.dfy` | `Messages` | `u64`, `ServiceId` with wrapping increment, client and server messages |
| `service_collection.dfy` | `ServiceCollections` | identity probing, and the class `ServiceCollection` |
| `server_collection.dfy` | `ServerCollections` | entries with parent guards, `GuardsHeld`, the class `ServerCollection` |
| `connection.dfy` | `Connection` | `Transition`, `Run`, `Serve`, and the methods implementing them over `ServerCollection` |
| `connection_examples.dfy` | `ConnectionExamples` | the parent/child scenario as whole connections |

## Model

| member | source | states |
|---|---|---|
| Messages.ServiceId.Incremented | rusty_rpc_lib/src/messages.rs:7-9 | an identity below 2^64-1 goes up by one; the largest identity wraps around to 0 |
| ServiceCollections.AdvanceValue | rusty_rpc_lib/src/messages.rs:7-9 | k wrapping increments from `start` land on (start + k) mod 2^64 |
| ServiceCollections.AdvanceShift | rusty_rpc_lib/src/service_collection.rs:35-37 | probing from the incremented identity is probing from the original identity one step later |
| ServiceCollections.ProbeFrom | rusty_rpc_lib/src/service_collection.rs:27-39 | an identity the probe returns is not occupied |
| ServiceCollections.ProbeFromFindsFirstVacant | rusty_rpc_lib/src/service_collection.rs:27-39 | the probe's result is the k-th increment from its start, and every earlier increment is occupied |
| ServiceCollections.ProbeFromExhausted | rusty_rpc_lib/src/service_collection.rs:24-26 | a probe that gives up saw only occupied identities throughout its budget |
| ServiceCollections.IdsBelowCardinality | rusty_rpc_lib/src/service_collection.rs:24-26 | the first n identities form a set of n elements |
| ServiceCollections.AllProbedMeansFull | rusty_rpc_lib/src/service_collection.rs:24-26 | if all 2^64 increments from a start are occupied, then the table holds at least 2^64 services |
| ServiceCollections.FirstVacantIsFirstFree | rusty_rpc_lib/src/service_collection.rs:24-39 | when fewer than 2^64 identities are in use, the loop ends; it yields a vacant identity, and every identity it passes on the way is occupied |
| ServiceCollections.ServiceCollection.constructor | rusty_rpc_lib/src/service_collection.rs:14-19 | the table is empty and the counter is 0 |
| ServiceCollections.ServiceCollection.RegisterService | rusty_rpc_lib/src/service_collection.rs:23-40 | returns the first vacant identity from the counter, which was absent; stores the service under it; the counter moves to one past it (wrapping) |
| ServiceCollections.ServiceCollection.GetServiceArc | rusty_rpc_lib/src/service_collection.rs:43-48 | some value exactly when the identity is registered, and then it is the stored service |
| ServerCollections.SetLockKeepsHolders | rusty_rpc_lib/src/server_collection.rs:30-37 | locking or unlocking an entry changes no entry's guard on its parent |
| ServerCollections.SameHoldersKeepGuardsHeld | rusty_rpc_lib/src/server_collection.rs:30-37 | a table with the same guard holders, whose guarded parents are present and locked, keeps the invariant |
| ServerCollections.LockKeepsGuardsHeld | rusty_rpc_lib/src/lib.rs:91-93 | locking an entry keeps the guard invariant |
| ServerCollections.UnlockKeepsGuardsHeld | rusty_rpc_lib/src/lib.rs:94-97 | unlocking an entry that no child guards keeps the invariant |
| ServerCollections.InsertKeepsGuardsHeld | rusty_rpc_lib/src/server_collection.rs:89-99 | inserting an unlocked entry at a vacant identity keeps the invariant, provided its parent is present, locked by the caller, and guarded by no other child |
| ServerCollections.RemoveKeepsGuardsHeld | rusty_rpc_lib/src/server_collection.rs:107-116 | removing an entry that no child guards keeps the invariant |
| ServerCollections.ServerCollection.constructor | rusty_rpc_lib/src/server_collection.rs:61-66 | the table is empty, the counter is 0, and the guard invariant holds |
| ServerCollections.ServerCollection.GetAndIncrementNextServiceId | rusty_rpc_lib/src/server_collection.rs:68-71 | returns the old counter, which moves to its wrapping successor |
| ServerCollections.ServerCollection.RegisterService | rusty_rpc_lib/src/server_collection.rs:75-104 | returns the first vacant identity from the counter, which was absent; inserts an unlocked entry holding the service and its parent guard; the counter is one past the identity; the guard invariant holds |
| ServerCollections.ServerCollection.RemoveServiceEntryArc | rusty_rpc_lib/src/server_collection.rs:107-116 | some value exactly when the identity was present, and then it is the removed entry; the table loses exactly that identity |
| ServerCollections.ServerCollection.GetServiceEntryArc | rusty_rpc_lib/src/server_collection.rs:118-127 | some value exactly when the identity is present, and then it is its entry |
| ServerCollections.ServerCollection.TryLockEntry | rusty_rpc_lib/src/lib.rs:91-93 | the lock is acquired exactly when it was free; afterwards the entry is locked and nothing else changes |
| ServerCollections.ServerCollection.UnlockEntry | rusty_rpc_lib/src/lib.rs:94-97 | releases the entry's lock and changes nothing else; the invariant holds when no child guards it |
| ServerCollections.ServerCollection.DropEntry | rusty_rpc_lib/src/server_collection.rs:43-53 | dropping an entry releases the lock its parent guard held, if it had one, and changes nothing else |
| Connection.Transition | rusty_rpc_lib/src/lib.rs:69-98 | handling one message adds at most one service to the table |
| Connection.LockedIffLiveChild | rusty_rpc_lib/src/server_collection.rs:30-37 | between messages, a service is locked exactly when some live child holds a guard on it |
| Connection.InsertUnlockedKeepsQuiescent | rusty_rpc_lib/src/server_collection.rs:90-99 | a newly registered, unlocked entry keeps every held lock accounted for by a guard |
| Connection.TransitionKeepsConsistent | rusty_rpc_lib/src/lib.rs:65-101 | a message that is answered leaves the registry consistent: every guard holds the lock of a live entry, no lock is held by two guards, and every held lock is held by a guard |
| Connection.DropServiceOutcome | rusty_rpc_lib/src/lib.rs:70-83 | an unknown identity is an error and one with a live child panics, otherwise the answer is `DropServiceDone` (each case if and only if); after an answer, exactly that identity is gone, the counter is unchanged, and the parent it guarded is unlocked |
| Connection.CallMethodOutcome | rusty_rpc_lib/src/lib.rs:84-97 | an unknown identity is an error; a service with a live child panics (if and only if); otherwise a failed method is an error, a plain return leaves the registry unchanged, and a returned service is registered at a fresh identity, unlocked, guarding its locked parent |
| Connection.RunRespondsInOrder | rusty_rpc_lib/src/lib.rs:65-103 | at most one response per input, the i-th answering the i-th input; the connection ends `Ok` exactly when every input was answered; a read error or a malformed frame ends it with that error |
| Connection.FreshConnectionSeedsRootAtZero | rusty_rpc_lib/src/lib.rs:57-59 | on a fresh collection the root service is registered at identity 0, unlocked, and the counter moves to 1 |
| Connection.RunAfterReply | rusty_rpc_lib/src/lib.rs:65-101 | after an answered message the loop continues from the new registry, and the response is sent first |
| Connection.DropServiceStep | rusty_rpc_lib/src/lib.rs:70-83 | the response and new registry are those `Transition` gives for `DropService` |
| Connection.CallMethodStep | rusty_rpc_lib/src/lib.rs:84-97 | the response and new registry are those `Transition` gives for `CallMethod` with the method's effect |
| Connection.Dispatch | rusty_rpc_lib/src/lib.rs:69-98 | agrees with `Transition`; after an answer the guard invariant and lock ownership still hold |
| Connection.SeedRoot | rusty_rpc_lib/src/lib.rs:57-59 | registers the root service as `Seeded` describes and keeps the invariants |
| Connection.RunKeepsConsistent | rusty_rpc_lib/src/lib.rs:64-103 | a connection that ends without a panic, normally or with an error, leaves the registry consistent |
| Connection.DropAsWritten | rusty_rpc_lib/src/lib.rs:70-83 | as written, dropping any registered service is confirmed, locked or not; an unknown identity is an error; exactly that identity leaves the table |
| Connection.DropAsWrittenLeavesGuardDangling | rusty_rpc_lib/src/lib.rs:77-80 | as written, dropping a service with a live child is confirmed and breaks the guard invariant, where the intended step panics with `StillInUse` |
| Connection.HandleConnection | rusty_rpc_lib/src/lib.rs:50-104 | the responses sent, the way the connection ends and the registry left behind are those `Serve` gives for the inputs; after a normal end the guard invariant and lock ownership hold |
| ConnectionExamples.SeedFresh | rusty_rpc_lib/src/lib.rs:57-59 | a fresh connection seeds its root at identity 0 with counter 1 |
| ConnectionExamples.RootReturnsChild | examples/src/parent_child/client.rs:17 | calling the root, which returns a child, gives the child identity 1 and locks the root |
| ConnectionExamples.ParentLockedWhileChildAlive | rusty_rpc_lib/src/lib.rs:91-93 | a second call on the root while the child lives panics with "somehow in use" after the first answer |
| ConnectionExamples.RootDroppedUnderChildAsWritten | rusty_rpc_lib/src/lib.rs:77-80 | as written, dropping the root while its child lives is confirmed, and the child keeps a guard on the vanished root |
| ConnectionExamples.DroppingLockedRootPanics | rusty_rpc_lib/src/lib.rs:77-80 | in the model, calling the root for a child and then dropping the root answers the call and then panics with `StillInUse` |
| ConnectionExamples.DropChildReleasesRoot | examples/src/parent_child/client.rs:20 | dropping the child removes it and unlocks the root |
| ConnectionExamples.ParentUsableAfterChildDropped | examples/src/parent_child/client.rs:17-24 | create a child, drop it, call the root again: three answers, and the connection ends normally |
| Parser.Multispace0 | rusty_rpc_macro/src/parser.rs:36 | skips exactly a leading run of whitespace and stops at a non-space |
| Parser.Multispace1 | rusty_rpc_macro/src/parser.rs:36 | succeeds exactly when the input starts with whitespace, and then skips the whole run |
| Parser.Tag | rusty_rpc_macro/src/parser.rs:34 | succeeds exactly when the input starts with the tag, and then the rest follows it |
| Parser.IdentRun | rusty_rpc_macro/src/parser.rs:246 | the longest prefix of identifier characters: all of them qualify, and the next one does not |
| Parser.ParseIdentifier | rusty_rpc_macro/src/parser.rs:242-257 | fails exactly when the input does not start with a letter, or the longest word read is reserved; otherwise reads a valid name up to a word end |
| Parser.ParseDataType | rusty_rpc_macro/src/parser.rs:235-240 | `i32` as a prefix is always read as `I32`; otherwise the result is a struct type exactly when an identifier is read |
| Parser.ParseServiceType | rusty_rpc_macro/src/parser.rs:222-231 | consumes input when it succeeds |
| Parser.ParseReturnType | rusty_rpc_macro/src/parser.rs:221-233 | the service-reference alternative wins when it matches; otherwise a data type, exactly when one is read |
| Parser.Many0Padded | rusty_rpc_macro/src/parser.rs:260-268 | stops at a token where the item parser fails; always succeeds when the item parser consumes input |
| Parser.Many0Terminated | rusty_rpc_macro/src/parser.rs:267 | stops where the item parser fails, never moving backwards; always succeeds when the item parser consumes input |
| Parser.ParseParameter | rusty_rpc_macro/src/parser.rs:179-190 | consumes input when it succeeds |
| Parser.ParseMethod | rusty_rpc_macro/src/parser.rs:178-219 | consumes input when it succeeds |
| Parser.ParseStructField | rusty_rpc_macro/src/parser.rs:130-143 | consumes input when it succeeds |
| Parser.UniqueMap | rusty_rpc_macro/src/parser.rs:114-125 | a map that is built has exactly the entries' names as keys |
| Parser.ParseStruct | rusty_rpc_macro/src/parser.rs:102-128 | consumes input when it succeeds |
| Parser.ParseService | rusty_rpc_macro/src/parser.rs:145-176 | consumes input when it succeeds |
| Parser.ParseDefinition | rusty_rpc_macro/src/parser.rs:60-63 | consumes input when it succeeds |
| Parser.ParseInterface | rusty_rpc_macro/src/parser.rs:99 | a successful parse has consumed the whole input |
| Parser.UniqueMapIffDistinct | rusty_rpc_macro/src/parser.rs:114-125 | the map is built exactly when no name repeats, and then each name maps to the value given with it |
| Parser.InsertAll | rusty_rpc_macro/src/parser.rs:157-167 | the insertion loop returns the map that `UniqueMap` describes, or fails at a duplicate |
| Parser.StructEntries | rusty_rpc_macro/src/parser.rs:74-83 | keeps at most as many entries as there are definitions |
| Parser.ServiceEntries | rusty_rpc_macro/src/parser.rs:84-93 | keeps at most as many entries as there are definitions |
| Parser.InterfaceOfSeparatesKinds | rusty_rpc_macro/src/parser.rs:65-97 | the interface is built exactly when the struct names are distinct and the service names are distinct; its maps are those of the two kinds |
| Parser.DefinitionsToInterface | rusty_rpc_macro/src/parser.rs:65-97 | the loop returns the interface that `InterfaceOf` describes |
| Parser.InterfaceFailurePersists | rusty_rpc_macro/src/parser.rs:77-81 | once a prefix of the definitions repeats a name, the whole list fails |
| ParserRoundTrip.IdentifierRoundTrip | rusty_rpc_macro/src/parser.rs:242-257 | a valid name followed by a word end is read back as exactly that identifier |
| ParserRoundTrip.ReservedWordRejected | rusty_rpc_macro/src/parser.rs:251-254 | a reserved word standing alone is not an identifier |
| ParserRoundTrip.ReservedPrefixIsIdentifier | rusty_rpc_macro/src/parser.rs:244-254 | a word that only starts with a reserved word (`selfish`) is an identifier; `self` is not |
| ParserRoundTrip.I32IsTriedFirst | rusty_rpc_macro/src/parser.rs:236-238 | `i32x` is an identifier, yet as a data type it reads as `i32` and leaves `x` |
| ParserRoundTrip.I32PrefixedFieldTypeRejected | rusty_rpc_macro/src/parser.rs:130-143 | a struct field whose type is a struct named `i32…` (longer than `i32`) cannot be parsed |
| ParserRoundTrip.DataTypeRoundTrip | rusty_rpc_macro/src/parser.rs:235-240 | a rendered data type is read back exactly |
| ParserRoundTrip.ServiceRefRoundTrip | rusty_rpc_macro/src/parser.rs:222-231 | a rendered `& service Name` is read back as that service name |
| ParserRoundTrip.DataIsNotServiceRef | rusty_rpc_macro/src/parser.rs:232 | a rendered data type never matches the service-reference alternative |
| ParserRoundTrip.ReturnTypeRoundTrip | rusty_rpc_macro/src/parser.rs:221-233 | a rendered return type is read back exactly |
| ParserRoundTrip.Many0RoundTrip | rusty_rpc_macro/src/parser.rs:267 | a rendered list of items that each read back is read back as the list, stopping where the item parser fails |
| ParserRoundTrip.Many0StopsAt | rusty_rpc_macro/src/parser.rs:267 | the repetition stops at the first item the parser rejects, keeping the items before it |
| ParserRoundTrip.ParameterRoundTrip | rusty_rpc_macro/src/parser.rs:179-190 | a rendered `, name : type` is read back exactly |
| ParserRoundTrip.ParametersRoundTrip | rusty_rpc_macro/src/parser.rs:200 | a rendered parameter list is read back exactly, stopping at `)` |
| ParserRoundTrip.StructFieldRoundTrip | rusty_rpc_macro/src/parser.rs:130-143 | a rendered `name : type ,` is read back exactly |
| ParserRoundTrip.MethodRoundTrip | rusty_rpc_macro/src/parser.rs:178-219 | a rendered method signature is read back exactly, with its parameters in order |
| ParserRoundTrip.FieldsRoundTrip | rusty_rpc_macro/src/parser.rs:110 | a rendered list of fields is read back exactly, stopping at `}` |
| ParserRoundTrip.MethodsRoundTrip | rusty_rpc_macro/src/parser.rs:153 | a rendered list of methods is read back exactly, stopping at `}` |
| ParserRoundTrip.StructRoundTrip | rusty_rpc_macro/src/parser.rs:102-128 | a rendered struct is read as its name and field map when the field names are distinct, and fails otherwise |
| ParserRoundTrip.ServiceRoundTrip | rusty_rpc_macro/src/parser.rs:145-176 | a rendered service is read as its name and method map when the method names are distinct, and fails otherwise |
| ParserRoundTrip.KeywordsDiffer | rusty_rpc_macro/src/parser.rs:60-63 | text after the keyword `struct` never matches `service`, and text after `service` never matches `struct` |
| ParserRoundTrip.DefinitionSteps | rusty_rpc_macro/src/parser.rs:60-63 | a definition is a struct if that alternative matches, otherwise a service if that one matches, otherwise an error |
| ParserRoundTrip.ItemRoundTrip | rusty_rpc_macro/src/parser.rs:60-63 | a rendered struct or service is read back as its definition, or fails exactly when it has a duplicate member name |
| ParserRoundTrip.DocumentRoundTrip | rusty_rpc_macro/src/parser.rs:53-100 | a document rendered in any valid layout parses to the interface that its definitions give, consuming everything; it fails when that interface does not exist |
| ParserRoundTrip.DocumentRejectsInvalidItem | rusty_rpc_macro/src/parser.rs:113-124 | a struct with a repeated field, or a service with a repeated method, makes the whole document fail |
| ParserRoundTrip.ItemDefinitionIffDistinct | rusty_rpc_macro/src/parser.rs:113-124 | a struct or service has a definition exactly when its member names are distinct |
| ParserRoundTrip.DocumentAcceptedIff | rusty_rpc_macro/src/parser.rs:65-97 | a rendered document of well-formed items is accepted exactly when its struct names are distinct and its service names are distinct |
| ParserExamples.SampleDocumentParses | rusty_rpc_macro/src/parser.rs:275-335 | the test's input, the exact string with its newlines and indentation (struct `Foo`, service `MyService`), parses in full to the expected interface |
| ParserExamples.StructAndServiceMayShareName | rusty_rpc_macro/src/parser.rs:74-93 | a struct and a service may share a name |
| ParserExamples.DuplicateStructRejected | rusty_rpc_macro/src/parser.rs:77-81 | two structs named `Foo` make the file fail |
| ParserExamples.DuplicateFieldRejected | rusty_rpc_macro/src/parser.rs:118-122 | a field declared twice makes the file fail, whatever its types |

## Left out

- Byte I/O is not modelled: the length-delimited framing (`Framed`,
  `LengthDelimitedCodec`) and the encoding of messages to bytes. Each input
  is an already-read frame, a read error or a malformed frame. In
  `rusty_rpc_lib/src/messages.rs` the conversions are `todo!()`, and
  `ServerMessage` and `MethodAndArgs` are empty.
- `ClientMessage` is an enum with `DropService` and `CallMethod` variants in
  the model. That is the shape `handle_connection` matches on
  (`rusty_rpc_lib/src/lib.rs:70`, `:84`). The struct with one `service_id`
  in `messages.rs:21-26` is not the shape used. `ServerMessage` takes its
  three variants from the responses built in `lib.rs` and in the macro.
- `handle_connection` calls `remove_service_arc` on a `ServiceCollection`,
  but `service_collection.rs` has no such method. The model dispatches over
  `ServerCollection`, which has both the removal and the parent guards.
- The user's method is code the core cannot see (`parse_and_call_method_locally`).
  Each call's frame carries its effect instead: it failed, it returned a
  value, or it returned a new child service.
- Sending a response (`lib.rs:100`) is assumed to succeed.
- Error messages, and the `eprintln!` calls beside them, are dropped. An
  error is `None` or a `ConnectionError` tag.
- `Arc` reference counts and the per-service `Mutex` are merged into one
  `locked` flag per entry. A child's parent guard is a raw pointer to a
  `MutexGuard` (`server_collection.rs:11-26`). It is not a clone of the
  parent's `Arc`, so `Arc::try_unwrap` in the `DropService` arm
  (`lib.rs:77-80`) succeeds even while a child holds the lock. The model
  panics there instead, as the `expect` message intends; see "## Findings".
  Aliasing of the `Arc` is not modelled.
- The table-level mutex and its `try_lock().expect(...)` in
  `server_collection.rs` never fail in a single-threaded connection. They
  are left out, and so is the atomicity of `fetch_add`.
- `ServerCollections.ServerCollection.DropEntry` does not model the
  `panicking()` test in `Drop for ServerEntry` (`server_collection.rs:45`).
  The model always releases the parent guard; during unwinding the source
  skips that. Unwinding ends the connection anyway.
- `ServiceCollections.ServiceCollection.RegisterService`,
  `ServerCollections.ServerCollection.RegisterService` and `Connection.Transition`
  require fewer than 2^64 registered services. The source loops forever on
  a full table, as its comment says, and the model needs the bound to end
  the probe.
- `Connection.Run`, `Connection.Serve` and `Connection.HandleConnection` also
  require the number of inputs to stay below 2^64. The reason is the same:
  each input adds at most one service.
- The source's `assert_eq!` that the root is at identity 0 is modelled as the
  `RootIdNotZero` panic. `Connection.FreshConnectionSeedsRootAtZero` shows it
  never fires on a fresh collection.
- `Interface.StructDef` and `Interface.ServiceDef` are the source's `Struct`
  and `Service`, renamed so that they do not clash with `DataType.Struct`.
- The source uses `HashMap` in the parser and `BTreeMap` in `interface.rs`.
  Both are a Dafny `map`. Iteration order and the derived `Ord` that the
  `BTreeMap` key needs are not part of the model.
- The parser names the variant `ReturnType::ServiceRef`, while
  `interface.rs` names it `ServiceRefMut`. The model uses `ServiceRef`.
- Input bytes are `char`s. Only ASCII letters, digits, `_` and the four
  whitespace characters matter to the parser.
- Parser.ParseServiceType: its own contract states only that it consumes input. What it reads is stated by `ParserRoundTrip.ServiceRefRoundTrip` and `ParserRoundTrip.DataIsNotServiceRef`.
- Parser.ParseParameter: its own contract states only that it consumes input. What it reads is stated by `ParserRoundTrip.ParameterRoundTrip`.
- Parser.ParseMethod: its own contract states only that it consumes input. What it reads is stated by `ParserRoundTrip.MethodRoundTrip`.
- Parser.ParseStructField: its own contract states only that it consumes input. What it reads is stated by `ParserRoundTrip.StructFieldRoundTrip` and `ParserRoundTrip.I32PrefixedFieldTypeRejected`.
- Parser.ParseStruct: its own contract states only that it consumes input. What it reads is stated by `ParserRoundTrip.StructRoundTrip`.
- Parser.ParseService: its own contract states only that it consumes input. What it reads is stated by `ParserRoundTrip.ServiceRoundTrip`.
- Parser.ParseDefinition: its own contract states only that it consumes input. What it reads is stated by `ParserRoundTrip.DefinitionSteps` and `ParserRoundTrip.ItemRoundTrip`.
- Parser.ParseInterface: its own contract states only that nothing is left over. What it reads is stated by `ParserRoundTrip.DocumentRoundTrip` and `ParserRoundTrip.DocumentAcceptedIff`.
- Parser.StructEntries and Parser.ServiceEntries only bound their length. Their content is used by `Parser.InterfaceOfSeparatesKinds`.
- The round trips cover documents written by the renderer in a valid
  layout. Each gap may be any run of whitespace. The gap inside a
  construct is the same run throughout the document, and it is never
  empty. So documents that leave out optional whitespace (`x:i32,`), or
  that space the tokens of one construct differently, are covered only
  when some layout writes them exactly. The test's input is one that a
  layout writes.
- The renderer covers only struct types whose names do not start with
  `i32`. `ParserRoundTrip.I32PrefixedFieldTypeRejected` shows that the
  parser rejects such a type reference, because `i32` is matched first.
  That is behaviour of the source, kept as written.
- The macro that turns an interface into Rust code, the client side
  (`start_client`), the server's accept loop (`start_server`) and the
  `traits.rs` interfaces are outside this model.

## Findings

| source | as written | input that shows it | evidently intended | confidence | as-written member | corrected member |
|---|---|---|---|---|---|---|
| rusty_rpc_lib/src/lib.rs:77-80 | a child's parent guard (`server_collection.rs:11-26`) does not count as an owner of the parent's `Arc`, so `Arc::try_unwrap` succeeds while a child holds the parent's lock; the parent is dropped, the drop is confirmed, and the child's guard is left dangling | `CallMethod` on the root that returns a child, then `DropService` of the root | the `expect("Client attempted to drop a service that is still in use.")` fires: the connection panics | not executed | Connection.DropAsWrittenLeavesGuardDangling, ConnectionExamples.RootDroppedUnderChildAsWritten | Connection.DropServiceOutcome, Connection.TransitionKeepsConsistent, ConnectionExamples.DroppingLockedRootPanics |
