/**
  The per-connection table of live services and its identity allocator
  (rusty_rpc_lib/src/service_collection.rs). The probe that both
  `register_service` loops perform is specified here once, as `ProbeFrom`,
  and reused by the newer table in module ServerCollections.
*/
module ServiceCollections {
  import opened Wrappers
  import opened Messages

  /** The identity reached from `start` by `k` calls of `increment`. */
  function Advance(start: ServiceId, k: nat): ServiceId
    decreases k
  {
    if k == 0 then start else Advance(start, k - 1).Incremented()
  }

  /** `k` wrapping increments add `k` modulo 2^64. */
  lemma {:induction false} AdvanceValue(start: ServiceId, k: nat)
    ensures Advance(start, k).value as int == (start.value as int + k) % U64_MODULUS
    decreases k
  {
    if k > 0 {
      AdvanceValue(start, k - 1);
    }
  }

  /**
    The probe loop of `register_service`: try `id`, and while it is occupied
    move on to `id.Incremented()`, giving up after `budget` probes.
  */
  function ProbeFrom(occupied: set<ServiceId>, id: ServiceId, budget: nat): (r: Option<ServiceId>)
    ensures r.Some? ==> r.value !in occupied
    decreases budget
  {
    if budget == 0 then None
    else if id !in occupied then Some(id)
    else ProbeFrom(occupied, id.Incremented(), budget - 1)
  }

  /**
    The identity `register_service` picks when its counter stands at `next`:
    a probe of all 2^64 identities, which fails only if every one is occupied.
  */
  function FirstVacant(occupied: set<ServiceId>, next: ServiceId): Option<ServiceId>
  {
    ProbeFrom(occupied, next, U64_MODULUS)
  }

  /** Every identity, as a set of the first `n` values. */
  function IdsBelow(n: nat): set<ServiceId>
    requires n <= U64_MODULUS
  {
    set v: u64 | v as int < n :: ServiceId(v)
  }

  lemma {:induction false} AdvanceShift(id: ServiceId, k: nat)
    ensures Advance(id.Incremented(), k) == Advance(id, k + 1)
    decreases k
  {
    if k > 0 {
      AdvanceShift(id, k - 1);
    }
  }

  /** A successful probe stops at the first vacant identity on its way, `k` probes in. */
  lemma {:induction false} ProbeFromFindsFirstVacant(occupied: set<ServiceId>, id: ServiceId, budget: nat)
    returns (k: nat)
    requires ProbeFrom(occupied, id, budget).Some?
    ensures k < budget && Advance(id, k) == ProbeFrom(occupied, id, budget).value
    ensures forall j: nat :: j < k ==> Advance(id, j) in occupied
    decreases budget
  {
    if id !in occupied {
      k := 0;
    } else {
      var k' := ProbeFromFindsFirstVacant(occupied, id.Incremented(), budget - 1);
      k := k' + 1;
      AdvanceShift(id, k');
      forall j: nat | j < k
        ensures Advance(id, j) in occupied
      {
        if j > 0 {
          AdvanceShift(id, j - 1);
        }
      }
    }
  }

  /** A failed probe has seen only occupied identities. */
  lemma {:induction false} ProbeFromExhausted(occupied: set<ServiceId>, id: ServiceId, budget: nat)
    requires ProbeFrom(occupied, id, budget).None?
    ensures forall j: nat :: j < budget ==> Advance(id, j) in occupied
    decreases budget
  {
    if budget > 0 {
      ProbeFromExhausted(occupied, id.Incremented(), budget - 1);
      forall j: nat | j < budget
        ensures Advance(id, j) in occupied
      {
        if j > 0 {
          AdvanceShift(id, j - 1);
        }
      }
    }
  }

  lemma {:induction false} IdsBelowCardinality(n: nat)
    requires n <= U64_MODULUS
    ensures |IdsBelow(n)| == n
    decreases n
  {
    if n > 0 {
      IdsBelowCardinality(n - 1);
      var last := ServiceId((n - 1) as u64);
      assert IdsBelow(n) == IdsBelow(n - 1) + {last};
      assert last !in IdsBelow(n - 1);
    }
  }

  /** If every probe from `start` hits an occupied identity, all 2^64 identities are occupied. */
  lemma AllProbedMeansFull(occupied: set<ServiceId>, start: ServiceId)
    requires forall j: nat :: j < U64_MODULUS ==> Advance(start, j) in occupied
    ensures |occupied| >= U64_MODULUS
  {
    forall id | id in IdsBelow(U64_MODULUS)
      ensures id in occupied
    {
      var k: nat := (id.value as int - start.value as int) % U64_MODULUS;
      AdvanceValue(start, k);
      assert Advance(start, k) == id;
    }
    IdsBelowCardinality(U64_MODULUS);
    var all := IdsBelow(U64_MODULUS);
    assert all <= occupied;
    assert occupied == all + (occupied - all);
  }

  /**
    While fewer than 2^64 identities are occupied, the probe finds a vacant
    identity: it is the first one reached from `next` by wrapping increments.
  */
  lemma FirstVacantIsFirstFree(occupied: set<ServiceId>, next: ServiceId)
    requires |occupied| < U64_MODULUS
    ensures FirstVacant(occupied, next).Some?
    ensures FirstVacant(occupied, next).value !in occupied
    ensures exists k: nat :: k < U64_MODULUS && Advance(next, k) == FirstVacant(occupied, next).value
                             && forall j: nat :: j < k ==> Advance(next, j) in occupied
  {
    if FirstVacant(occupied, next).None? {
      ProbeFromExhausted(occupied, next, U64_MODULUS);
      AllProbedMeansFull(occupied, next);
      assert false;
    }
    var k := ProbeFromFindsFirstVacant(occupied, next, U64_MODULUS);
  }

  /**
    `ServiceCollection`: the live services of one connection, keyed by
    identity, and the counter from which the next identity is probed.
  */
  class ServiceCollection<S> {
    var activeServices: map<ServiceId, S>
    var nextServiceId: ServiceId

    /** `new`: no services, counter at 0. */
    constructor ()
      ensures activeServices == map[]
      ensures nextServiceId == ServiceId(0)
    {
      activeServices := map[];
      nextServiceId := ServiceId(0);
    }

    /**
      `register_service`: store `service` under the first vacant identity
      reached from the counter, leave the counter just past it, and return it.
      The loop only ends while some identity is vacant.
    */
    method RegisterService(service: S) returns (id: ServiceId)
      requires |activeServices| < U64_MODULUS
      modifies this
      ensures Some(id) == FirstVacant(old(activeServices).Keys, old(nextServiceId))
      ensures id !in old(activeServices)
      ensures activeServices == old(activeServices)[id := service]
      ensures nextServiceId == id.Incremented()
    {
      ghost var occupied := activeServices.Keys;
      ghost var target := FirstVacant(occupied, nextServiceId);
      FirstVacantIsFirstFree(occupied, nextServiceId);
      ghost var probes: nat := 0;
      while true
        invariant activeServices == old(activeServices)
        invariant probes <= U64_MODULUS
        invariant ProbeFrom(occupied, nextServiceId, U64_MODULUS - probes) == target
        decreases U64_MODULUS - probes
      {
        if nextServiceId !in activeServices {
          activeServices := activeServices[nextServiceId := service];
          id := nextServiceId;
          nextServiceId := nextServiceId.Incremented();
          return;
        }
        nextServiceId := nextServiceId.Incremented();
        probes := probes + 1;
      }
    }

    /** `get_service_arc`: the service stored under `id`, if any; nothing changes. */
    method GetServiceArc(id: ServiceId) returns (r: Option<S>)
      ensures r.Some? <==> id in activeServices
      ensures r.Some? ==> r.value == activeServices[id]
    {
      if id in activeServices {
        r := Some(activeServices[id]);
      } else {
        r := None;
      }
    }
  }
}
