/**
  The newer per-connection service table (rusty_rpc_lib/src/server_collection.rs).
  Each entry sits behind a mutex and may own the held lock of its parent's
  mutex (its parent guard); dropping the entry releases that lock. The
  mutex and the sharing of the entry are abstracted as one `locked` flag per
  entry, and a parent guard as the identity of the parent whose lock it holds.
*/
module ServerCollections {
  import opened Wrappers
  import opened Messages
  import opened ServiceCollections

  /** `ServerEntry`: a service and, for a child, the held lock of its parent. */
  datatype ServerEntry<S> = ServerEntry(server: S, parentGuard: Option<ServiceId>)

  /** `Arc<Mutex<ServerEntry>>`: the entry and whether its mutex is held. */
  datatype SharedEntry<S> = SharedEntry(entry: ServerEntry<S>, locked: bool)

  type Table<S> = map<ServiceId, SharedEntry<S>>

  /** The abstract value of a collection: its table and its counter. */
  datatype Registry<S> = Registry(services: Table<S>, next: ServiceId)

  /** `child` is live and its parent guard holds the lock of `parent`. */
  predicate HoldsGuardOn<S>(t: Table<S>, child: ServiceId, parent: ServiceId)
  {
    child in t && t[child].entry.parentGuard == Some(parent)
  }

  /**
    Every parent guard holds the lock of a live entry other than its holder,
    and no entry's lock is held by two guards.
  */
  ghost predicate GuardsHeld<S>(t: Table<S>)
  {
    && (forall c, p :: HoldsGuardOn(t, c, p) ==> p in t && p != c && t[p].locked)
    && (forall c1, c2, p :: HoldsGuardOn(t, c1, p) && HoldsGuardOn(t, c2, p) ==> c1 == c2)
  }

  /** `parent` is live, locked by the caller, and no child's guard holds that lock yet. */
  ghost predicate GuardAvailable<S>(t: Table<S>, parent: ServiceId)
  {
    parent in t && t[parent].locked && forall c :: !HoldsGuardOn(t, c, parent)
  }

  /** The table after an entry is dropped: the lock its parent guard held is released. */
  function ReleaseGuard<S>(t: Table<S>, e: ServerEntry<S>): Table<S>
  {
    match e.parentGuard
    case Some(p) => if p in t then t[p := t[p].(locked := false)] else t
    case None => t
  }

  /** Setting or clearing an entry's lock flag changes no parent guard. */
  lemma SetLockKeepsHolders<S>(t: Table<S>, id: ServiceId, locked: bool)
    requires id in t
    ensures forall c, p :: HoldsGuardOn(t[id := t[id].(locked := locked)], c, p) <==> HoldsGuardOn(t, c, p)
  {
    var t' := t[id := t[id].(locked := locked)];
    forall c, p
      ensures HoldsGuardOn(t', c, p) <==> HoldsGuardOn(t, c, p)
    {
      if c == id {
        assert t'[c].entry == t[c].entry;
      }
    }
  }

  /**
    Two tables with the same guard holders, where every lock held by a guard
    in the first is also live and held in the second, agree on GuardsHeld.
  */
  lemma SameHoldersKeepGuardsHeld<S>(t: Table<S>, t': Table<S>)
    requires GuardsHeld(t)
    requires forall c, p :: HoldsGuardOn(t', c, p) <==> HoldsGuardOn(t, c, p)
    requires forall c, p :: HoldsGuardOn(t, c, p) ==> p in t' && t'[p].locked
    ensures GuardsHeld(t')
  {
    forall c, p | HoldsGuardOn(t', c, p)
      ensures p in t' && p != c && t'[p].locked
    {
      assert HoldsGuardOn(t, c, p);
    }
    forall c1, c2, p | HoldsGuardOn(t', c1, p) && HoldsGuardOn(t', c2, p)
      ensures c1 == c2
    {
      assert HoldsGuardOn(t, c1, p) && HoldsGuardOn(t, c2, p);
    }
  }

  /** Locking an entry keeps every guard consistent. */
  lemma LockKeepsGuardsHeld<S>(t: Table<S>, id: ServiceId)
    requires GuardsHeld(t) && id in t
    ensures GuardsHeld(t[id := t[id].(locked := true)])
  {
    SetLockKeepsHolders(t, id, true);
    SameHoldersKeepGuardsHeld(t, t[id := t[id].(locked := true)]);
  }

  /** Unlocking an entry whose lock no guard holds keeps every guard consistent. */
  lemma UnlockKeepsGuardsHeld<S>(t: Table<S>, id: ServiceId)
    requires GuardsHeld(t) && id in t
    requires forall c :: !HoldsGuardOn(t, c, id)
    ensures GuardsHeld(t[id := t[id].(locked := false)])
  {
    SetLockKeepsHolders(t, id, false);
    SameHoldersKeepGuardsHeld(t, t[id := t[id].(locked := false)]);
  }

  /**
    Storing a new unlocked entry under a vacant identity keeps every guard
    consistent, provided its own guard (if any) is a lock nobody else holds.
  */
  lemma InsertKeepsGuardsHeld<S>(t: Table<S>, id: ServiceId, e: ServerEntry<S>)
    requires GuardsHeld(t) && id !in t
    requires e.parentGuard.Some? ==> GuardAvailable(t, e.parentGuard.value)
    ensures GuardsHeld(t[id := SharedEntry(e, false)])
  {
    var t' := t[id := SharedEntry(e, false)];
    assert forall c, p :: c != id ==> (HoldsGuardOn(t', c, p) <==> HoldsGuardOn(t, c, p));
    forall c, p | HoldsGuardOn(t', c, p)
      ensures p in t' && p != c && t'[p].locked
    {
      if c != id {
        assert HoldsGuardOn(t, c, p);
      }
    }
    forall c1, c2, p | HoldsGuardOn(t', c1, p) && HoldsGuardOn(t', c2, p)
      ensures c1 == c2
    {
      if c1 != id && c2 != id {
        assert HoldsGuardOn(t, c1, p) && HoldsGuardOn(t, c2, p);
      }
    }
  }

  /** Removing an entry whose lock no guard holds keeps every guard consistent. */
  lemma RemoveKeepsGuardsHeld<S>(t: Table<S>, id: ServiceId)
    requires GuardsHeld(t)
    requires forall c :: !HoldsGuardOn(t, c, id)
    ensures GuardsHeld(t - {id})
  {
    var t' := t - {id};
    assert forall c, p :: HoldsGuardOn(t', c, p) ==> HoldsGuardOn(t, c, p);
  }

  /** `ServerCollection`: the live entries of one connection and the identity counter. */
  class ServerCollection<S> {
    var activeServices: Table<S>
    var nextServiceId: ServiceId

    ghost predicate Valid()
      reads this
    {
      GuardsHeld(activeServices)
    }

    function Snapshot(): Registry<S>
      reads this
    {
      Registry(activeServices, nextServiceId)
    }

    /** `new`: no entries, counter at 0. */
    constructor ()
      ensures Valid()
      ensures activeServices == map[]
      ensures nextServiceId == ServiceId(0)
    {
      activeServices := map[];
      nextServiceId := ServiceId(0);
    }

    /** `get_and_increment_next_service_id`: return the counter and advance it, wrapping. */
    method GetAndIncrementNextServiceId() returns (id: ServiceId)
      modifies this`nextServiceId
      ensures id == old(nextServiceId)
      ensures nextServiceId == id.Incremented()
    {
      id := nextServiceId;
      nextServiceId := nextServiceId.Incremented();
    }

    /**
      `register_service`: every probe takes a fresh value from the counter;
      the entry (service and parent guard, unlocked) goes under the first
      vacant one, which is returned. No other entry changes.
    */
    method RegisterService(service: S, parentGuard: Option<ServiceId>) returns (id: ServiceId)
      requires Valid()
      requires |activeServices| < U64_MODULUS
      requires parentGuard.Some? ==> GuardAvailable(activeServices, parentGuard.value)
      modifies this
      ensures Valid()
      ensures Some(id) == FirstVacant(old(activeServices).Keys, old(nextServiceId))
      ensures id !in old(activeServices)
      ensures activeServices == old(activeServices)[id := SharedEntry(ServerEntry(service, parentGuard), false)]
      ensures nextServiceId == id.Incremented()
    {
      ghost var occupied := activeServices.Keys;
      ghost var target := FirstVacant(occupied, nextServiceId);
      FirstVacantIsFirstFree(occupied, nextServiceId);
      ghost var probes: nat := 0;
      while true
        invariant activeServices == old(activeServices)
        invariant probes <= U64_MODULUS
        invariant ProbeFrom(occupied, nextServiceId, U64_MODULUS - probes) == target
        decreases U64_MODULUS - probes
      {
        var curr := GetAndIncrementNextServiceId();
        if curr !in activeServices {
          InsertKeepsGuardsHeld(activeServices, curr, ServerEntry(service, parentGuard));
          activeServices := activeServices[curr := SharedEntry(ServerEntry(service, parentGuard), false)];
          id := curr;
          return;
        }
        probes := probes + 1;
      }
    }

    /**
      `remove_service_entry_arc`: take the entry out of the table and return
      it, or return None when `id` is not live. No other key is touched.
      Removing an entry whose lock no child holds keeps the guards consistent.
    */
    method RemoveServiceEntryArc(id: ServiceId) returns (r: Option<SharedEntry<S>>)
      requires Valid()
      modifies this`activeServices
      ensures r.Some? <==> id in old(activeServices)
      ensures r.Some? ==> r.value == old(activeServices)[id]
      ensures activeServices == old(activeServices) - {id}
      ensures r.None? || !r.value.locked ==> Valid()
    {
      if id in activeServices {
        r := Some(activeServices[id]);
        if !r.value.locked {
          RemoveKeepsGuardsHeld(activeServices, id);
        }
      } else {
        r := None;
        RemoveKeepsGuardsHeld(activeServices, id);
      }
      activeServices := activeServices - {id};
    }

    /** `get_service_entry_arc`: the entry under `id`, if live; nothing changes. */
    method GetServiceEntryArc(id: ServiceId) returns (r: Option<SharedEntry<S>>)
      ensures r.Some? <==> id in activeServices
      ensures r.Some? ==> r.value == activeServices[id]
    {
      if id in activeServices {
        r := Some(activeServices[id]);
      } else {
        r := None;
      }
    }

    /** `try_lock` on a live entry's mutex: succeeds exactly when it was free; it is held afterwards. */
    method TryLockEntry(id: ServiceId) returns (acquired: bool)
      requires Valid()
      requires id in activeServices
      modifies this`activeServices
      ensures Valid()
      ensures acquired == !old(activeServices)[id].locked
      ensures activeServices == old(activeServices)[id := old(activeServices)[id].(locked := true)]
    {
      acquired := !activeServices[id].locked;
      LockKeepsGuardsHeld(activeServices, id);
      activeServices := activeServices[id := activeServices[id].(locked := true)];
    }

    /** Dropping the guard of a call: the entry's mutex is free again. */
    method UnlockEntry(id: ServiceId)
      requires Valid()
      requires id in activeServices
      requires forall c :: !HoldsGuardOn(activeServices, c, id)
      modifies this`activeServices
      ensures Valid()
      ensures activeServices == old(activeServices)[id := old(activeServices)[id].(locked := false)]
    {
      UnlockKeepsGuardsHeld(activeServices, id);
      activeServices := activeServices[id := activeServices[id].(locked := false)];
    }

    /**
      `Drop for ServerEntry`: an entry that has left the table releases the
      lock its parent guard held, so the parent can be used again.
    */
    method DropEntry(e: ServerEntry<S>)
      requires Valid()
      requires e.parentGuard.Some? ==> e.parentGuard.value in activeServices
      requires e.parentGuard.Some? ==> forall c :: !HoldsGuardOn(activeServices, c, e.parentGuard.value)
      modifies this`activeServices
      ensures Valid()
      ensures activeServices == ReleaseGuard(old(activeServices), e)
      ensures e.parentGuard.Some? ==> !activeServices[e.parentGuard.value].locked
    {
      if e.parentGuard.Some? {
        UnlockEntry(e.parentGuard.value);
      }
    }
  }
}
