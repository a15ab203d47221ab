/**
  The server side of one connection: `handle_connection` in
  rusty_rpc_lib/src/lib.rs, over the table of module ServerCollections.
  Reading and writing frames is replaced by a sequence of incoming items and
  the sequence of responses sent; the user's method, which the core cannot
  see, is replaced by the effect that each incoming call carries.
*/
module Connection {
  import opened Wrappers
  import opened Messages
  import opened ServiceCollections
  import opened ServerCollections

  /** What the user's method did: fail, return a value, or return a new child service. */
  datatype MethodEffect<S> =
    | MethodFailed
    | Returned(payload: seq<u8>)
    | ReturnedService(service: S, payload: seq<u8>)

  /** One item read from the framed connection. */
  datatype Incoming<S> =
    | Frame(message: ClientMessage, effect: MethodEffect<S>)
    | ReadError
    | MalformedFrame

  /** The errors that end a connection with `Err`. */
  datatype ConnectionError = ReadFailed | DecodeFailed | InvalidServiceId(id: ServiceId) | MethodError

  /** The `assert_eq!` and `expect` calls that abort the connection's task. */
  datatype PanicReason = RootIdNotZero | StillInUse | SomehowInUse

  /** The result of handling one message. */
  datatype Outcome = Reply(response: ServerMessage) | Fatal(error: ConnectionError) | Panic(reason: PanicReason)

  /** How a connection ends: `Ok(())` when input ends, an error, or a panic. */
  datatype Ending = Finished | Failed(error: ConnectionError) | Panicked(reason: PanicReason)

  /** What a connection did: the responses sent in order, how it ended, and the registry it left behind. */
  datatype Trace<S> = Trace(outputs: seq<ServerMessage>, ending: Ending, final: Registry<S>)

  /** Between two messages, every held lock is held by a child's parent guard. */
  ghost predicate Quiescent<S>(t: Table<S>)
  {
    forall p :: p in t && t[p].locked ==> exists c :: HoldsGuardOn(t, c, p)
  }

  /** The invariant kept between messages: guards consistent and no lock held by anything else. */
  ghost predicate Consistent<S>(reg: Registry<S>)
  {
    GuardsHeld(reg.services) && Quiescent(reg.services)
  }

  /** Some child's parent guard holds the lock of `id`. */
  ghost predicate HasLiveChild<S>(t: Table<S>, id: ServiceId)
  {
    exists c :: HoldsGuardOn(t, c, id)
  }

  /** The table after `child` is registered under `parent`, whose lock the call holds. */
  function WithChild<S>(t: Table<S>, parent: ServiceId, child: ServiceId, service: S): Table<S>
    requires parent in t
  {
    t[parent := t[parent].(locked := true)][child := SharedEntry(ServerEntry(service, Some(parent)), false)]
  }

  /**
    One iteration of the `while let` loop of `handle_connection`, after the
    frame was read and decoded: the response to send, or the error or panic
    that ends the connection, and the registry afterwards.
  */
  function Transition<S>(reg: Registry<S>, message: ClientMessage, effect: MethodEffect<S>): (r: (Outcome, Registry<S>))
    requires |reg.services| < U64_MODULUS
    ensures |r.1.services| <= |reg.services| + 1
  {
    match message
    case DropService(id) =>
      if id !in reg.services then (Fatal(InvalidServiceId(id)), reg)
      else if reg.services[id].locked then (Panic(StillInUse), reg.(services := reg.services - {id}))
      else (Reply(DropServiceDone), reg.(services := ReleaseGuard(reg.services - {id}, reg.services[id].entry)))
    case CallMethod(id, _) =>
      if id !in reg.services then (Fatal(InvalidServiceId(id)), reg)
      else if reg.services[id].locked then (Panic(SomehowInUse), reg)
      else
        match effect
        case MethodFailed => (Fatal(MethodError), reg)
        case Returned(payload) => (Reply(MethodReturn(payload)), reg)
        case ReturnedService(service, payload) =>
          FirstVacantIsFirstFree(reg.services.Keys, reg.next);
          var child := FirstVacant(reg.services.Keys, reg.next).value;
          (Reply(ServiceReturn(child, payload)),
           Registry(WithChild(reg.services, id, child, service), child.Incremented()))
  }

  /**
    The loop of `handle_connection` over the remaining input: the responses
    sent, how it ends, and the registry as the last message left it.
  */
  function Run<S>(reg: Registry<S>, inputs: seq<Incoming<S>>): Trace<S>
    requires |reg.services| + |inputs| < U64_MODULUS
    decreases |inputs|
  {
    if inputs == [] then Trace([], Finished, reg)
    else
      match inputs[0]
      case ReadError => Trace([], Failed(ReadFailed), reg)
      case MalformedFrame => Trace([], Failed(DecodeFailed), reg)
      case Frame(message, effect) =>
        var (outcome, reg') := Transition(reg, message, effect);
        match outcome
        case Reply(response) =>
          var rest := Run(reg', inputs[1..]);
          rest.(outputs := [response] + rest.outputs)
        case Fatal(error) => Trace([], Failed(error), reg')
        case Panic(reason) => Trace([], Panicked(reason), reg')
  }

  /** The registry once the root service is registered. */
  function Seeded<S>(reg: Registry<S>, root: S): (r: (ServiceId, Registry<S>))
    requires |reg.services| < U64_MODULUS
  {
    FirstVacantIsFirstFree(reg.services.Keys, reg.next);
    var rootId := FirstVacant(reg.services.Keys, reg.next).value;
    (rootId, Registry(reg.services[rootId := SharedEntry(ServerEntry(root, None), false)], rootId.Incremented()))
  }

  /** `handle_connection`: seed the root service, insist it got identity 0, then run the loop. */
  function Serve<S>(reg: Registry<S>, root: S, inputs: seq<Incoming<S>>): Trace<S>
    requires |reg.services| + |inputs| + 1 < U64_MODULUS
  {
    var (rootId, seeded) := Seeded(reg, root);
    if rootId != ServiceId(0) then Trace([], Panicked(RootIdNotZero), seeded)
    else Run(seeded, inputs)
  }

  /** Whether `response` is the one the source sends for the incoming frame `item`. */
  predicate Answers<S>(item: Incoming<S>, response: ServerMessage)
  {
    match item
    case Frame(DropService(_), _) => response == DropServiceDone
    case Frame(CallMethod(_, _), Returned(payload)) => response == MethodReturn(payload)
    case Frame(CallMethod(_, _), ReturnedService(_, payload)) => response.ServiceReturn? && response.payload == payload
    case _ => false
  }

  /** In a consistent table, an entry is locked exactly when a child's guard holds its lock. */
  lemma LockedIffLiveChild<S>(t: Table<S>, id: ServiceId)
    requires GuardsHeld(t) && Quiescent(t)
    requires id in t
    ensures t[id].locked <==> HasLiveChild(t, id)
  {
    if HasLiveChild(t, id) {
      var c :| HoldsGuardOn(t, c, id);
    }
  }

  /** Adding an unlocked entry keeps every held lock held by a guard. */
  lemma InsertUnlockedKeepsQuiescent<S>(t: Table<S>, id: ServiceId, e: ServerEntry<S>)
    requires Quiescent(t) && id !in t
    ensures Quiescent(t[id := SharedEntry(e, false)])
  {
    var t' := t[id := SharedEntry(e, false)];
    forall p | p in t' && t'[p].locked
      ensures exists c :: HoldsGuardOn(t', c, p)
    {
      var c :| HoldsGuardOn(t, c, p);
      assert HoldsGuardOn(t', c, p);
    }
  }

  /**
    The nesting invariant survives every message that is answered: parent
    guards stay consistent and every held lock is held by a child's guard.
  */
  lemma TransitionKeepsConsistent<S>(reg: Registry<S>, message: ClientMessage, effect: MethodEffect<S>)
    requires |reg.services| < U64_MODULUS
    requires Consistent(reg)
    ensures Transition(reg, message, effect).0.Reply? ==> Consistent(Transition(reg, message, effect).1)
  {
    var t := reg.services;
    match message
    case DropService(id) =>
      if id in t && !t[id].locked {
        LockedIffLiveChild(t, id);
        RemoveKeepsGuardsHeld(t, id);
        var t1 := t - {id};
        var t2 := ReleaseGuard(t1, t[id].entry);
        if t[id].entry.parentGuard.Some? {
          var p := t[id].entry.parentGuard.value;
          assert HoldsGuardOn(t, id, p);
          forall c
            ensures !HoldsGuardOn(t1, c, p)
          {
            if HoldsGuardOn(t1, c, p) {
              assert HoldsGuardOn(t, c, p);
            }
          }
          UnlockKeepsGuardsHeld(t1, p);
        }
        forall q | q in t2 && t2[q].locked
          ensures exists c :: HoldsGuardOn(t2, c, q)
        {
          var c :| HoldsGuardOn(t, c, q);
          assert c != id;
          assert HoldsGuardOn(t2, c, q);
        }
      }
    case CallMethod(id, _) =>
      if id in t && !t[id].locked && effect.ReturnedService? {
        LockedIffLiveChild(t, id);
        FirstVacantIsFirstFree(t.Keys, reg.next);
        var child := FirstVacant(t.Keys, reg.next).value;
        var t1 := t[id := t[id].(locked := true)];
        SetLockKeepsHolders(t, id, true);
        LockKeepsGuardsHeld(t, id);
        forall c
          ensures !HoldsGuardOn(t1, c, id)
        {
          assert HoldsGuardOn(t1, c, id) <==> HoldsGuardOn(t, c, id);
        }
        InsertKeepsGuardsHeld(t1, child, ServerEntry(effect.service, Some(id)));
        var t2 := WithChild(t, id, child, effect.service);
        assert HoldsGuardOn(t2, child, id);
        forall q | q in t2 && t2[q].locked
          ensures exists c :: HoldsGuardOn(t2, c, q)
        {
          if q != id {
            var c :| HoldsGuardOn(t, c, q);
            assert HoldsGuardOn(t2, c, q);
          }
        }
      }
  }

  /**
    `DropService`: an unknown identity ends the connection with an error; a
    service whose lock a live child holds is a panic; otherwise the entry is
    gone, the lock its own guard held is released, and nothing else changes.
  */
  lemma DropServiceOutcome<S>(reg: Registry<S>, id: ServiceId, effect: MethodEffect<S>)
    requires |reg.services| < U64_MODULUS
    requires Consistent(reg)
    ensures var (outcome, after) := Transition(reg, DropService(id), effect);
      && (outcome == Fatal(InvalidServiceId(id)) <==> id !in reg.services)
      && (outcome == Panic(StillInUse) <==> id in reg.services && HasLiveChild(reg.services, id))
      && (outcome == Reply(DropServiceDone) <==> id in reg.services && !HasLiveChild(reg.services, id))
      && (outcome.Reply? ==>
            && after.services.Keys == reg.services.Keys - {id}
            && after.next == reg.next
            && forall q :: q in after.services ==>
                 && after.services[q].entry == reg.services[q].entry
                 && (after.services[q].locked <==>
                       reg.services[q].locked && reg.services[id].entry.parentGuard != Some(q)))
  {
    if id in reg.services {
      LockedIffLiveChild(reg.services, id);
    }
  }

  /**
    The `DropService` arm as the source is written. A child's parent guard
    is a raw pointer to a guard of its parent's mutex, not a clone of the
    parent's `Arc`, so once the entry is out of the table `Arc::try_unwrap`
    finds a single owner and succeeds even while a child holds the lock: the
    entry is dropped, releasing its own guard, and the drop is confirmed.
  */
  function DropAsWritten<S>(reg: Registry<S>, id: ServiceId): (r: (Outcome, Registry<S>))
    ensures r.0 == Fatal(InvalidServiceId(id)) <==> id !in reg.services
    ensures r.0 == Reply(DropServiceDone) <==> id in reg.services
    ensures r.1.services.Keys == reg.services.Keys - {id} && r.1.next == reg.next
  {
    if id !in reg.services then (Fatal(InvalidServiceId(id)), reg)
    else (Reply(DropServiceDone), reg.(services := ReleaseGuard(reg.services - {id}, reg.services[id].entry)))
  }

  /**
    Dropping a service whose lock a live child holds: the source as written
    confirms the drop and leaves the child with a guard on a service that is
    gone, where the intended step (`Transition`) panics with `StillInUse`.
  */
  lemma DropAsWrittenLeavesGuardDangling<S>(reg: Registry<S>, id: ServiceId)
    requires |reg.services| < U64_MODULUS
    requires Consistent(reg) && id in reg.services && HasLiveChild(reg.services, id)
    ensures DropAsWritten(reg, id).0 == Reply(DropServiceDone)
    ensures Transition(reg, DropService(id), MethodFailed).0 == Panic(StillInUse)
    ensures !GuardsHeld(DropAsWritten(reg, id).1.services)
  {
    LockedIffLiveChild(reg.services, id);
    var c :| HoldsGuardOn(reg.services, c, id);
    var after := DropAsWritten(reg, id).1.services;
    assert HoldsGuardOn(after, c, id) && id !in after;
  }

  /**
    `CallMethod`: an unknown identity ends the connection with an error; a
    service whose lock a live child holds is a panic; otherwise the method
    runs under the service's lock. A plain return value leaves the registry as
    it was (the lock is released); a returned service is registered under a
    fresh identity with a guard on the caller, whose lock stays held.
  */
  lemma CallMethodOutcome<S>(reg: Registry<S>, id: ServiceId, call: MethodAndArgs, effect: MethodEffect<S>)
    requires |reg.services| < U64_MODULUS
    requires Consistent(reg)
    ensures var (outcome, after) := Transition(reg, CallMethod(id, call), effect);
      && (id !in reg.services ==> outcome == Fatal(InvalidServiceId(id)))
      && (outcome == Panic(SomehowInUse) <==> id in reg.services && HasLiveChild(reg.services, id))
      && (id in reg.services && !HasLiveChild(reg.services, id) ==>
            match effect
            case MethodFailed => outcome == Fatal(MethodError)
            case Returned(payload) => outcome == Reply(MethodReturn(payload)) && after == reg
            case ReturnedService(service, payload) =>
              && outcome.Reply? && outcome.response.ServiceReturn? && outcome.response.payload == payload
              && var child := outcome.response.newService;
              && child !in reg.services
              && after.services.Keys == reg.services.Keys + {child}
              && after.services[child] == SharedEntry(ServerEntry(service, Some(id)), false)
              && after.services[id].locked
              && HasLiveChild(after.services, id)
              && after.next == child.Incremented()
              && forall q :: q in reg.services && q != id ==> after.services[q] == reg.services[q])
  {
    if id in reg.services {
      LockedIffLiveChild(reg.services, id);
      if !HasLiveChild(reg.services, id) && effect.ReturnedService? {
        FirstVacantIsFirstFree(reg.services.Keys, reg.next);
        var child := FirstVacant(reg.services.Keys, reg.next).value;
        assert HoldsGuardOn(Transition(reg, CallMethod(id, call), effect).1.services, child, id);
      }
    }
  }

  /**
    Exactly one response per message, in arrival order: every response
    answers the frame at the same position, and the loop ends with `Ok(())`
    exactly when every item got its response. A read or decode failure ends
    it with the matching error.
  */
  lemma {:induction false} RunRespondsInOrder<S>(reg: Registry<S>, inputs: seq<Incoming<S>>)
    requires |reg.services| + |inputs| < U64_MODULUS
    ensures var Trace(outputs, ending, _) := Run(reg, inputs);
      && |outputs| <= |inputs|
      && (ending.Finished? <==> |outputs| == |inputs|)
      && (forall i :: 0 <= i < |outputs| ==> Answers(inputs[i], outputs[i]))
      && (|outputs| < |inputs| && inputs[|outputs|].ReadError? ==> ending == Failed(ReadFailed))
      && (|outputs| < |inputs| && inputs[|outputs|].MalformedFrame? ==> ending == Failed(DecodeFailed))
    decreases |inputs|
  {
    if inputs != [] && inputs[0].Frame? {
      var (outcome, reg') := Transition(reg, inputs[0].message, inputs[0].effect);
      if outcome.Reply? {
        RunRespondsInOrder(reg', inputs[1..]);
        var rest := Run(reg', inputs[1..]).outputs;
        assert Run(reg, inputs).outputs == [outcome.response] + rest;
        assert Answers(inputs[0], outcome.response);
        forall i | 0 <= i < |rest| + 1
          ensures Answers(inputs[i], ([outcome.response] + rest)[i])
        {
          if i > 0 {
            assert inputs[i] == inputs[1..][i - 1];
          }
        }
      }
    }
  }

  /**
    A connection that does not panic leaves the registry consistent: a
    read, decode, lookup or method failure ends the loop with the registry
    as the previous message left it. After a lock-check panic nothing is
    promised; the task is gone.
  */
  lemma {:induction false} RunKeepsConsistent<S>(reg: Registry<S>, inputs: seq<Incoming<S>>)
    requires |reg.services| + |inputs| < U64_MODULUS
    requires Consistent(reg)
    ensures !Run(reg, inputs).ending.Panicked? ==> Consistent(Run(reg, inputs).final)
    decreases |inputs|
  {
    if inputs != [] && inputs[0].Frame? {
      var (outcome, reg') := Transition(reg, inputs[0].message, inputs[0].effect);
      TransitionKeepsConsistent(reg, inputs[0].message, inputs[0].effect);
      if outcome.Reply? {
        RunKeepsConsistent(reg', inputs[1..]);
      }
    }
  }

  /** On a new collection the root service is registered as identity 0 and the loop starts at once. */
  lemma FreshConnectionSeedsRootAtZero<S>(root: S, inputs: seq<Incoming<S>>)
    requires |inputs| + 1 < U64_MODULUS
    ensures Seeded(Registry(map[], ServiceId(0)), root).0 == ServiceId(0)
    ensures Serve(Registry(map[], ServiceId(0)), root, inputs)
         == Run(Registry(map[ServiceId(0) := SharedEntry(ServerEntry(root, None), false)], ServiceId(1)), inputs)
  {
    assert FirstVacant({}, ServiceId(0)) == Some(ServiceId(0));
  }

  /**
    The `DropService` arm of the loop in `handle_connection`: take the entry
    out of the table, panic if it is still in use, otherwise drop it (which
    releases the lock its parent guard held) and confirm.
  */
  method DropServiceStep<S>(reg: ServerCollection<S>, id: ServiceId) returns (outcome: Outcome)
    requires reg.Valid() && Quiescent(reg.activeServices)
    requires |reg.activeServices| < U64_MODULUS
    modifies reg
    ensures (outcome, reg.Snapshot()) == Transition(old(reg.Snapshot()), DropService(id), MethodFailed)
  {
    ghost var before := reg.Snapshot();
    var removed := reg.RemoveServiceEntryArc(id);
    if removed.None? {
      assert reg.activeServices == before.services;
      return Fatal(InvalidServiceId(id));
    }
    if removed.value.locked {
      return Panic(StillInUse);
    }
    var entry := removed.value.entry;
    if entry.parentGuard.Some? {
      var p := entry.parentGuard.value;
      assert HoldsGuardOn(before.services, id, p);
      forall c
        ensures !HoldsGuardOn(reg.activeServices, c, p)
      {
        if HoldsGuardOn(reg.activeServices, c, p) {
          assert HoldsGuardOn(before.services, c, p);
        }
      }
    }
    reg.DropEntry(entry);
    outcome := Reply(DropServiceDone);
  }

  /**
    The `CallMethod` arm of the loop in `handle_connection`: look the entry
    up, take its lock (a lock already held is a panic), and apply the user's
    method: its lock is released after a plain return or a failure, and stays
    held by the guard of a service it returns, which is registered.
  */
  method CallMethodStep<S>(reg: ServerCollection<S>, id: ServiceId, call: MethodAndArgs, effect: MethodEffect<S>)
    returns (outcome: Outcome)
    requires reg.Valid() && Quiescent(reg.activeServices)
    requires |reg.activeServices| < U64_MODULUS
    modifies reg
    ensures (outcome, reg.Snapshot()) == Transition(old(reg.Snapshot()), CallMethod(id, call), effect)
  {
    ghost var before := reg.Snapshot();
    var found := reg.GetServiceEntryArc(id);
    if found.None? {
      return Fatal(InvalidServiceId(id));
    }
    var acquired := reg.TryLockEntry(id);
    if !acquired {
      assert reg.activeServices == before.services;
      return Panic(SomehowInUse);
    }
    SetLockKeepsHolders(before.services, id, true);
    LockedIffLiveChild(before.services, id);
    forall c
      ensures !HoldsGuardOn(reg.activeServices, c, id)
    {
      assert HoldsGuardOn(reg.activeServices, c, id) <==> HoldsGuardOn(before.services, c, id);
    }
    match effect {
      case MethodFailed =>
        reg.UnlockEntry(id);
        assert reg.activeServices == before.services;
        outcome := Fatal(MethodError);
      case Returned(payload) =>
        reg.UnlockEntry(id);
        assert reg.activeServices == before.services;
        outcome := Reply(MethodReturn(payload));
      case ReturnedService(service, payload) =>
        assert reg.activeServices.Keys == before.services.Keys;
        var child := reg.RegisterService(service, Some(id));
        outcome := Reply(ServiceReturn(child, payload));
        assert reg.activeServices == WithChild(before.services, id, child, service);
    }
  }

  /** The body of the loop in `handle_connection` for one decoded message. */
  method Dispatch<S>(reg: ServerCollection<S>, message: ClientMessage, effect: MethodEffect<S>) returns (outcome: Outcome)
    requires reg.Valid() && Quiescent(reg.activeServices)
    requires |reg.activeServices| < U64_MODULUS
    modifies reg
    ensures (outcome, reg.Snapshot()) == Transition(old(reg.Snapshot()), message, effect)
    ensures outcome.Reply? ==> reg.Valid() && Quiescent(reg.activeServices)
  {
    TransitionKeepsConsistent(reg.Snapshot(), message, effect);
    match message {
      case DropService(id) =>
        outcome := DropServiceStep(reg, id);
      case CallMethod(id, call) =>
        outcome := CallMethodStep(reg, id, call, effect);
    }
  }

  /** One answered message moves the loop one item on. */
  lemma RunAfterReply<S>(reg: Registry<S>, inputs: seq<Incoming<S>>, response: ServerMessage, reg': Registry<S>)
    requires |reg.services| + |inputs| < U64_MODULUS
    requires inputs != [] && inputs[0].Frame?
    requires Transition(reg, inputs[0].message, inputs[0].effect) == (Reply(response), reg')
    ensures |reg'.services| + |inputs[1..]| < U64_MODULUS
    ensures Run(reg, inputs) == Run(reg', inputs[1..]).(outputs := [response] + Run(reg', inputs[1..]).outputs)
  {
  }

  /** The first statement of `handle_connection`: register the root service without a parent guard. */
  method SeedRoot<S>(reg: ServerCollection<S>, root: S) returns (rootId: ServiceId)
    requires reg.Valid() && Quiescent(reg.activeServices)
    requires |reg.activeServices| < U64_MODULUS
    modifies reg
    ensures reg.Valid() && Quiescent(reg.activeServices)
    ensures (rootId, reg.Snapshot()) == Seeded(old(reg.Snapshot()), root)
  {
    FirstVacantIsFirstFree(reg.activeServices.Keys, reg.nextServiceId);
    InsertUnlockedKeepsQuiescent(reg.activeServices, FirstVacant(reg.activeServices.Keys, reg.nextServiceId).value, ServerEntry(root, None));
    rootId := reg.RegisterService(root, None);
  }

  /**
    `handle_connection`: register the root service (it must get identity 0),
    then answer each incoming message in turn until the input ends (`Ok`), a
    read or decode fails, a message names an unknown service or the user's
    method fails (`Err`), or a lock check panics. `outputs` are the
    responses sent, in order.
  */
  method HandleConnection<S>(reg: ServerCollection<S>, root: S, inputs: seq<Incoming<S>>)
    returns (outputs: seq<ServerMessage>, ending: Ending)
    requires reg.Valid() && Quiescent(reg.activeServices)
    requires |reg.activeServices| + |inputs| + 1 < U64_MODULUS
    modifies reg
    ensures Serve(old(reg.Snapshot()), root, inputs) == Trace(outputs, ending, reg.Snapshot())
    ensures ending.Finished? ==> reg.Valid() && Quiescent(reg.activeServices)
  {
    var rootId := SeedRoot(reg, root);
    if rootId != ServiceId(0) {
      return [], Panicked(RootIdNotZero);
    }
    ghost var seeded := reg.Snapshot();
    outputs := [];
    assert inputs[0..] == inputs;
    assert [] + Run(seeded, inputs).outputs == Run(seeded, inputs).outputs;
    var i := 0;
    while i < |inputs|
      invariant 0 <= i <= |inputs|
      invariant reg.Valid() && Quiescent(reg.activeServices)
      invariant |reg.activeServices| + |inputs| - i < U64_MODULUS
      invariant Run(seeded, inputs) == Run(reg.Snapshot(), inputs[i..]).(outputs := outputs + Run(reg.Snapshot(), inputs[i..]).outputs)
      decreases |inputs| - i
    {
      ghost var state := reg.Snapshot();
      ghost var remaining := inputs[i..];
      assert remaining[0] == inputs[i] && remaining[1..] == inputs[i + 1..];
      match inputs[i] {
        case ReadError =>
          assert Run(state, remaining) == Trace([], Failed(ReadFailed), state);
          assert outputs + [] == outputs;
          return outputs, Failed(ReadFailed);
        case MalformedFrame =>
          assert Run(state, remaining) == Trace([], Failed(DecodeFailed), state);
          assert outputs + [] == outputs;
          return outputs, Failed(DecodeFailed);
        case Frame(message, effect) =>
          var outcome := Dispatch(reg, message, effect);
          match outcome {
            case Reply(response) =>
              RunAfterReply(state, remaining, response, reg.Snapshot());
              ghost var rest := Run(reg.Snapshot(), inputs[i + 1..]);
              assert outputs + ([response] + rest.outputs) == (outputs + [response]) + rest.outputs;
              outputs := outputs + [response];
            case Fatal(error) =>
              assert Run(state, remaining) == Trace([], Failed(error), reg.Snapshot());
              assert outputs + [] == outputs;
              return outputs, Failed(error);
            case Panic(reason) =>
              assert Run(state, remaining) == Trace([], Panicked(reason), reg.Snapshot());
              assert outputs + [] == outputs;
              return outputs, Panicked(reason);
          }
      }
      i := i + 1;
    }
    assert inputs[i..] == [];
    assert outputs + [] == outputs;
    ending := Finished;
  }
}
