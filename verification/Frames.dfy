/** The tunnel's frame and the constants of its header (src/main.rs). */
module Frames {
  import opened Bytes

  const KIND_DATA: nat := 1
  const KIND_PARITY: nat := 2
  const KIND_REPORT: nat := 3

  datatype Frame = Frame(
    version: nat, keyId: nat, kind: nat, session: nat, sequence: nat, group: nat,
    index: nat, data: nat, parity: nat, payload: seq<byte>)
}
