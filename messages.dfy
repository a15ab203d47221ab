/**
  Service identities and the messages of one connection
  (rusty_rpc_lib/src/messages.rs, and the message shapes handled in
  rusty_rpc_lib/src/lib.rs).
*/
module Messages {

  /** The number of values of Rust's `u64`. */
  const U64_MODULUS: int := 0x1_0000_0000_0000_0000

  /** The largest `u64`. */
  const U64_MAX: int := U64_MODULUS - 1

  newtype u64 = x: int | 0 <= x < 0x1_0000_0000_0000_0000

  newtype u8 = x: int | 0 <= x < 0x100

  /** `ServiceId`: a plain `u64` with structural equality, usable as a map key. */
  datatype ServiceId = ServiceId(value: u64) {

    /** `increment`: the identity after a wrapping add of one. */
    function Incremented(): (r: ServiceId)
      ensures value as int < U64_MAX ==> r.value as int == value as int + 1
      ensures value as int == U64_MAX ==> r.value == 0
    {
      ServiceId(((value as int + 1) % U64_MODULUS) as u64)
    }
  }

  /** The method to call and its serialized arguments. */
  datatype MethodAndArgs = MethodAndArgs(methodId: nat, args: seq<u8>)

  /**
    What a client sends: either a request to drop a service or a method call.
    Both variants name exactly one target service, `serviceId`.
  */
  datatype ClientMessage =
    | DropService(serviceId: ServiceId)
    | CallMethod(serviceId: ServiceId, methodAndArgs: MethodAndArgs)

  /**
    What the server answers. `DropServiceDone` confirms a drop; the other two
    are produced by the user's method: a plain serialized return value, or a
    newly registered service's identity with the serialized return value.
  */
  datatype ServerMessage =
    | DropServiceDone
    | MethodReturn(payload: seq<u8>)
    | ServiceReturn(newService: ServiceId, payload: seq<u8>)
}
