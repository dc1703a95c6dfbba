/** Firmware-level vocabulary shared by the parser and the dispatcher:
    bytes, optional values, EFI status codes and little-endian UINT32 fields. */
module Efi {

  newtype byte = x: int | 0 <= x < 0x100

  /** A value that may be absent; for a buffer, None stands for a NULL pointer. */
  datatype Option<T> = None | Some(value: T)

  const Uint32Limit: nat := 0x1_0000_0000

  /** An EFI_STATUS: the top bit (here `isError`) tells errors from success and warnings,
      the remaining bits are the code (UEFI specification, Appendix D). */
  datatype Status = Status(isError: bool, code: nat)

  const Success: Status := Status(false, 0)
  const InvalidParameter: Status := Status(true, 2)
  const Unsupported: Status := Status(true, 3)

  /** EFI_ERROR (s): the status has its error bit set. Warnings are not errors. */
  predicate EfiError(s: Status) {
    s.isError
  }

  /** The UINT32 stored little-endian in s[pos .. pos + 4). */
  function LeUint32(s: seq<byte>, pos: nat): (v: nat)
    requires pos + 4 <= |s|
    ensures v < Uint32Limit
  {
    s[pos] as nat + 0x100 * (s[pos + 1] as nat) + 0x1_0000 * (s[pos + 2] as nat)
      + 0x100_0000 * (s[pos + 3] as nat)
  }

  /** The four little-endian bytes of a UINT32. */
  function LeBytes32(v: nat): (r: seq<byte>)
    requires v < Uint32Limit
    ensures |r| == 4 && LeUint32(r, 0) == v
  {
    var b0, b1, b2 := v % 0x100, (v / 0x100) % 0x100, (v / 0x1_0000) % 0x100;
    var b3 := v / 0x100_0000;
    assert v == b0 + 0x100 * b1 + 0x1_0000 * b2 + 0x100_0000 * b3;
    [b0 as byte, b1 as byte, b2 as byte, b3 as byte]
  }

  /** A field read depends only on its own four bytes. */
  lemma LeUint32OfSlice(s: seq<byte>, pos: nat, t: seq<byte>, q: nat)
    requires pos + 4 <= |s| && q + 4 <= |t|
    requires s[pos..pos + 4] == t[q..q + 4]
    ensures LeUint32(s, pos) == LeUint32(t, q)
  {
    assert s[pos] == s[pos..pos + 4][0] == t[q..q + 4][0];
    assert s[pos + 1] == s[pos..pos + 4][1] == t[q..q + 4][1];
    assert s[pos + 2] == s[pos..pos + 4][2] == t[q..q + 4][2];
    assert s[pos + 3] == s[pos..pos + 4][3] == t[q..q + 4][3];
  }
}
