/**
  The parent and child services of the example client, as whole
  connections: the root is called and returns a child, and the root stays
  locked for as long as that child is alive.
*/
module ConnectionExamples {
  import opened Wrappers
  import opened Messages
  import opened ServiceCollections
  import opened ServerCollections
  import opened Connection

  /** A fresh connection: no services, counter at zero. */
  function Fresh<S>(): Registry<S>
  {
    Registry(map[], ServiceId(0))
  }

  /** The registry once the root is seeded and has returned one child. */
  function WithOneChild<S>(root: S, child: S): Registry<S>
  {
    Registry(
      map[ServiceId(0) := SharedEntry(ServerEntry(root, None), true),
          ServiceId(1) := SharedEntry(ServerEntry(child, Some(ServiceId(0))), false)],
      ServiceId(2))
  }

  /** The root is seeded at identity 0, and the counter moves to 1. */
  lemma SeedFresh<S>(root: S)
    ensures Seeded(Fresh<S>(), root) ==
      (ServiceId(0), Registry(map[ServiceId(0) := SharedEntry(ServerEntry(root, None), false)], ServiceId(1)))
  {
    assert FirstVacant({}, ServiceId(0)) == Some(ServiceId(0));
  }

  /** Calling the root, which returns a child, registers the child at identity 1 and locks the root. */
  lemma RootReturnsChild<S>(root: S, child: S, call: MethodAndArgs, payload: seq<u8>)
    ensures var seeded := Registry(map[ServiceId(0) := SharedEntry(ServerEntry(root, None), false)], ServiceId(1));
            Transition(seeded, CallMethod(ServiceId(0), call), ReturnedService(child, payload)) ==
              (Reply(ServiceReturn(ServiceId(1), payload)), WithOneChild(root, child))
  {
    var seeded := Registry(map[ServiceId(0) := SharedEntry(ServerEntry(root, None), false)], ServiceId(1));
    assert seeded.services.Keys == {ServiceId(0)};
    assert FirstVacant({ServiceId(0)}, ServiceId(1)) == Some(ServiceId(1));
    assert ServiceId(1).Incremented() == ServiceId(2);
    assert WithChild(seeded.services, ServiceId(0), ServiceId(1), child) == WithOneChild(root, child).services;
  }

  /**
    While the child is alive, a second call on the root panics: the child's
    parent guard still holds the root's lock.
  */
  lemma ParentLockedWhileChildAlive<S>(root: S, child: S, call: MethodAndArgs, payload: seq<u8>, effect: MethodEffect<S>)
    ensures Serve(Fresh<S>(), root, [Frame(CallMethod(ServiceId(0), call), ReturnedService(child, payload)),
                                    Frame(CallMethod(ServiceId(0), call), effect)]) ==
      Trace([ServiceReturn(ServiceId(1), payload)], Panicked(SomehowInUse), WithOneChild(root, child))
  {
    var inputs := [Frame(CallMethod(ServiceId(0), call), ReturnedService(child, payload)),
                   Frame(CallMethod(ServiceId(0), call), effect)];
    var seeded := Registry(map[ServiceId(0) := SharedEntry(ServerEntry(root, None), false)], ServiceId(1));
    SeedFresh<S>(root);
    RootReturnsChild(root, child, call, payload);
    RunAfterReply(seeded, inputs, ServiceReturn(ServiceId(1), payload), WithOneChild(root, child));
    assert inputs[1..] == [inputs[1]];
    assert Run(WithOneChild(root, child), inputs[1..]) == Trace([], Panicked(SomehowInUse), WithOneChild(root, child));
    assert [ServiceReturn(ServiceId(1), payload)] + [] == [ServiceReturn(ServiceId(1), payload)];
    assert Run(seeded, inputs) == Trace([ServiceReturn(ServiceId(1), payload)], Panicked(SomehowInUse), WithOneChild(root, child));
    assert Serve(Fresh<S>(), root, inputs) == Run(seeded, inputs);
  }

  /** The child alone, with its guard naming the root. */
  function OrphanedChild<S>(child: S): Registry<S>
  {
    Registry(map[ServiceId(1) := SharedEntry(ServerEntry(child, Some(ServiceId(0))), false)], ServiceId(2))
  }

  /**
    Dropping the root while its child is alive, as the source is written:
    the drop is confirmed and the child is left holding a guard on the
    root, which is gone.
  */
  lemma RootDroppedUnderChildAsWritten<S>(root: S, child: S)
    ensures DropAsWritten(WithOneChild(root, child), ServiceId(0)) == (Reply(DropServiceDone), OrphanedChild(child))
    ensures !GuardsHeld(OrphanedChild(child).services)
  {
    assert WithOneChild(root, child).services - {ServiceId(0)} == OrphanedChild(child).services;
    assert HoldsGuardOn(OrphanedChild(child).services, ServiceId(1), ServiceId(0));
  }

  /**
    The same two messages in the model: the root is called and returns a
    child, then the client drops the root while the child is alive, and the
    connection panics with `StillInUse`.
  */
  lemma DroppingLockedRootPanics<S>(root: S, child: S, call: MethodAndArgs, payload: seq<u8>)
    ensures Serve(Fresh<S>(), root, [Frame(CallMethod(ServiceId(0), call), ReturnedService(child, payload)),
                                    Frame(DropService(ServiceId(0)), MethodFailed)]) ==
      Trace([ServiceReturn(ServiceId(1), payload)], Panicked(StillInUse), OrphanedChild(child))
  {
    var inputs := [Frame(CallMethod(ServiceId(0), call), ReturnedService(child, payload)),
                   Frame(DropService(ServiceId(0)), MethodFailed)];
    var seeded := Registry(map[ServiceId(0) := SharedEntry(ServerEntry(root, None), false)], ServiceId(1));
    SeedFresh<S>(root);
    RootReturnsChild(root, child, call, payload);
    RunAfterReply(seeded, inputs, ServiceReturn(ServiceId(1), payload), WithOneChild(root, child));
    assert inputs[1..] == [inputs[1]];
    assert WithOneChild(root, child).services - {ServiceId(0)} == OrphanedChild(child).services;
    assert Run(WithOneChild(root, child), inputs[1..]) == Trace([], Panicked(StillInUse), OrphanedChild(child));
    assert [ServiceReturn(ServiceId(1), payload)] + [] == [ServiceReturn(ServiceId(1), payload)];
    assert Serve(Fresh<S>(), root, inputs) == Run(seeded, inputs);
  }

  /** Dropping the child removes it and releases the root's lock, which its guard held. */
  lemma DropChildReleasesRoot<S>(root: S, child: S)
    ensures Transition(WithOneChild(root, child), DropService(ServiceId(1)), MethodFailed) ==
      (Reply(DropServiceDone), Registry(map[ServiceId(0) := SharedEntry(ServerEntry(root, None), false)], ServiceId(2)))
  {
    var t := WithOneChild(root, child).services;
    var rest := map[ServiceId(0) := SharedEntry(ServerEntry(root, None), true)];
    assert t - {ServiceId(1)} == rest;
    assert ReleaseGuard(rest, t[ServiceId(1)].entry) == map[ServiceId(0) := SharedEntry(ServerEntry(root, None), false)];
  }

  /**
    Once the client drops the child, its guard releases the root, and the
    root can be called again; the connection then ends normally.
  */
  lemma ParentUsableAfterChildDropped<S>(root: S, child: S, call: MethodAndArgs, payload: seq<u8>, result: seq<u8>)
    ensures Serve(Fresh<S>(), root, [Frame(CallMethod(ServiceId(0), call), ReturnedService(child, payload)),
                                    Frame(DropService(ServiceId(1)), MethodFailed),
                                    Frame(CallMethod(ServiceId(0), call), Returned(result))]) ==
      Trace([ServiceReturn(ServiceId(1), payload), DropServiceDone, MethodReturn(result)], Finished,
            Registry(map[ServiceId(0) := SharedEntry(ServerEntry(root, None), false)], ServiceId(2)))
  {
    var inputs := [Frame(CallMethod(ServiceId(0), call), ReturnedService(child, payload)),
                   Frame(DropService(ServiceId(1)), MethodFailed),
                   Frame(CallMethod(ServiceId(0), call), Returned(result))];
    var seeded := Registry(map[ServiceId(0) := SharedEntry(ServerEntry(root, None), false)], ServiceId(1));
    var afterDrop := Registry(map[ServiceId(0) := SharedEntry(ServerEntry(root, None), false)], ServiceId(2));
    SeedFresh<S>(root);
    RootReturnsChild(root, child, call, payload);
    DropChildReleasesRoot(root, child);
    assert Transition(afterDrop, CallMethod(ServiceId(0), call), Returned(result)) == (Reply(MethodReturn(result)), afterDrop);
    var last := inputs[1..][1..];
    assert last == [inputs[2]];
    RunAfterReply(afterDrop, last, MethodReturn(result), afterDrop);
    assert [MethodReturn(result)] + [] == [MethodReturn(result)];
    assert last[1..] == [];
    RunAfterReply(WithOneChild(root, child), inputs[1..], DropServiceDone, afterDrop);
    assert [DropServiceDone] + [MethodReturn(result)] == [DropServiceDone, MethodReturn(result)];
    assert [ServiceReturn(ServiceId(1), payload)] + [DropServiceDone, MethodReturn(result)]
        == [ServiceReturn(ServiceId(1), payload), DropServiceDone, MethodReturn(result)];
    RunAfterReply(seeded, inputs, ServiceReturn(ServiceId(1), payload), WithOneChild(root, child));
    assert Run(seeded, inputs) == Trace([ServiceReturn(ServiceId(1), payload), DropServiceDone, MethodReturn(result)], Finished, afterDrop);
    assert Serve(Fresh<S>(), root, inputs) == Run(seeded, inputs);
  }
}
