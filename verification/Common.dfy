/** Definitions several models share. */
module Common {
  datatype Option<+T> = None | Some(value: T)

  /** NET_MAX_PACKET_SIZE (net/net.h). */
  const MAX_PACKET: nat := 1518

  function Min(a: nat, b: nat): nat {
    if a <= b then a else b
  }
}
