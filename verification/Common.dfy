/** Identifiers shared by the control plane and the dataplane (`r2n-common`). */
module Common {
  import opened Bytes

  type NodeId = s: seq<u8> | |s| == 32 witness seq(32, _ => 0)
  type RoomId = s: seq<u8> | |s| == 16 witness seq(16, _ => 0)

  type PublicKey = s: seq<u8> | |s| == 32 witness seq(32, _ => 0)

  /** A transport address, kept abstract. */
  type SocketAddr = nat

  datatype Option<T> = None | Some(value: T)
}
