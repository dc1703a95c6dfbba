/** The Apple EFI fat binary: a header {Magic, NumArchs} followed by NumArchs
    architecture records {CpuType, CpuSubtype, Offset, Size, Align}, every field a
    little-endian UINT32, followed by the per-architecture images the records point at.

    `Parse` is the closed-form specification of what ParseAppleEfiFatBinary decides;
    the method `ParseAppleEfiFatBinary` walks the table with a cursor, as the firmware
    driver does, and is proved to agree with it. */
module FatBinary {
  import opened Efi

  // ---------------------------------------------------------------------------
  // Layout constants (APPLE_EFI_FAT_MAGIC, CPUYPE_X86, CPUYPE_X86_64,
  // sizeof (APPLE_EFI_FAT_HEADER), sizeof (APPLE_EFI_FAT_ARCH_HEADER))
  // ---------------------------------------------------------------------------

  const AppleEfiFatMagic: nat := 0x0EF1_FAB9
  const CpuTypeX86: nat := 7
  const CpuTypeX86_64: nat := 0x0100_0007
  /** Magic and NumArchs; the architecture array is a flexible member. */
  const FatHeaderSize: nat := 8
  /** CpuType, CpuSubtype, Offset, Size and Align. */
  const ArchHeaderSize: nat := 20

  datatype FatHeader = FatHeader(magic: nat, numArchs: nat)

  datatype ArchHeader = ArchHeader(cpuType: nat, cpuSubtype: nat, offset: nat, size: nat, align: nat)

  /** The three outcomes of the parser. The firmware reports them as EFI_SUCCESS (with
      the image), EFI_UNSUPPORTED and EFI_INVALID_PARAMETER; see `ToStatus`. */
  datatype ParseOutcome = Extracted(image: seq<byte>) | NotApplicable | Malformed

  function ToStatus(outcome: ParseOutcome): (status: Status)
    ensures !EfiError(status) <==> outcome.Extracted?
    ensures status == Success || status == Unsupported || status == InvalidParameter
    ensures outcome.NotApplicable? <==> status == Unsupported
  {
    match outcome
    case Extracted(_) => Success
    case NotApplicable => Unsupported
    case Malformed => InvalidParameter
  }

  // ---------------------------------------------------------------------------
  // Decoded views over the untrusted bytes
  // ---------------------------------------------------------------------------

  function DecodeHeader(s: seq<byte>): FatHeader
    requires |s| >= FatHeaderSize
  {
    FatHeader(LeUint32(s, 0), LeUint32(s, 4))
  }

  /** Byte offset of Archs[index]. */
  function EntryStart(index: nat): nat {
    FatHeaderSize + ArchHeaderSize * index
  }

  /** Where the architecture table of `numArchs` records ends: the first value of the cursor. */
  function TableEnd(numArchs: nat): nat {
    EntryStart(numArchs)
  }

  /** The header is present and the whole declared table lies inside the buffer. */
  predicate TableFits(s: seq<byte>) {
    |s| >= FatHeaderSize && TableEnd(DecodeHeader(s).numArchs) <= |s|
  }

  /** Number of records of a buffer whose table fits. */
  function NumArchs(s: seq<byte>): nat
    requires TableFits(s)
  {
    DecodeHeader(s).numArchs
  }

  lemma EntryInsideTable(numArchs: nat, index: nat)
    requires index < numArchs
    ensures FatHeaderSize <= EntryStart(index)
    ensures EntryStart(index) + ArchHeaderSize <= TableEnd(numArchs)
  {
    assert EntryStart(index) == 8 + 20 * index;
    assert TableEnd(numArchs) == 8 + 20 * numArchs;
  }

  function DecodeArch(s: seq<byte>, pos: nat): ArchHeader
    requires pos + ArchHeaderSize <= |s|
  {
    ArchHeader(LeUint32(s, pos), LeUint32(s, pos + 4), LeUint32(s, pos + 8),
               LeUint32(s, pos + 12), LeUint32(s, pos + 16))
  }

  /** Hdr->Archs[index] of a buffer whose table fits. */
  function ArchAt(s: seq<byte>, index: nat): (a: ArchHeader)
    requires TableFits(s) && index < NumArchs(s)
    ensures EntryStart(index) + ArchHeaderSize <= |s|
    ensures a.offset < Uint32Limit && a.size < Uint32Limit
  {
    EntryInsideTable(NumArchs(s), index);
    DecodeArch(s, EntryStart(index))
  }

  /** (UINT64) Offset + Size: both fields are UINT32, so the 64-bit sum never wraps. */
  function EntryEnd(a: ArchHeader): nat {
    a.offset + a.size
  }

  /** The cursor SizeOfBinary when Archs[index] is examined: the end of the table for the
      first record, otherwise the end of the record just before (not the furthest end seen). */
  function CursorBefore(s: seq<byte>, index: nat): nat
    requires TableFits(s) && index <= NumArchs(s)
  {
    if index == 0 then TableEnd(NumArchs(s)) else EntryEnd(ArchAt(s, index - 1))
  }

  /** Archs[index] is the first record whose CpuType is the platform's. */
  predicate IsFirstMatch(s: seq<byte>, platformArch: nat, index: nat)
    requires TableFits(s)
  {
    && index < NumArchs(s)
    && ArchAt(s, index).cpuType == platformArch
    && forall j :: 0 <= j < index ==> ArchAt(s, j).cpuType != platformArch
  }

  predicate NoMatch(s: seq<byte>, platformArch: nat)
    requires TableFits(s)
  {
    forall j :: 0 <= j < NumArchs(s) ==> ArchAt(s, j).cpuType != platformArch
  }

  /** The first record at or after `from` whose CpuType is the platform's. */
  function FirstMatchFrom(s: seq<byte>, platformArch: nat, from: nat): (r: Option<nat>)
    requires TableFits(s) && from <= NumArchs(s)
    requires forall j :: 0 <= j < from ==> ArchAt(s, j).cpuType != platformArch
    ensures r.Some? ==> from <= r.value && IsFirstMatch(s, platformArch, r.value)
    ensures r.None? ==> NoMatch(s, platformArch)
    decreases NumArchs(s) - from
  {
    if from == NumArchs(s) then None
    else if ArchAt(s, from).cpuType == platformArch then Some(from)
    else FirstMatchFrom(s, platformArch, from + 1)
  }

  function FirstMatch(s: seq<byte>, platformArch: nat): Option<nat>
    requires TableFits(s)
  {
    FirstMatchFrom(s, platformArch, 0)
  }

  /** The bounds check of the matched record: it starts at or after the cursor, strictly
      inside the buffer, and its image ends inside the buffer. */
  predicate SliceAccepted(s: seq<byte>, index: nat)
    requires TableFits(s) && index < NumArchs(s)
  {
    var a := ArchAt(s, index);
    CursorBefore(s, index) <= a.offset && a.offset < |s| && a.offset + a.size <= |s|
  }

  function Slice(s: seq<byte>, index: nat): seq<byte>
    requires TableFits(s) && index < NumArchs(s) && SliceAccepted(s, index)
  {
    var a := ArchAt(s, index);
    s[a.offset..a.offset + a.size]
  }

  /** What ParseAppleEfiFatBinary decides for a buffer (None: a NULL SourceBuffer). */
  function Parse(source: Option<seq<byte>>, platformArch: nat): ParseOutcome {
    if source.None? || |source.value| == 0 then NotApplicable
    else
      var s := source.value;
      if |s| < FatHeaderSize then Malformed
      else if DecodeHeader(s).magic != AppleEfiFatMagic then NotApplicable
      else if !TableFits(s) then Malformed
      else
        match FirstMatch(s, platformArch)
        case None => NotApplicable
        case Some(k) => if SliceAccepted(s, k) then Extracted(Slice(s, k)) else Malformed
  }

  // ---------------------------------------------------------------------------
  // The table bound as compiled (lines 58-60)
  // ---------------------------------------------------------------------------

  /** The width of UINTN in the build: IA32 (32 bits) or X64 (64 bits). */
  datatype UintnWidth = Uintn32 | Uintn64

  function UintnLimit(width: UintnWidth): nat {
    match width
    case Uintn32 => 0x1_0000_0000
    case Uintn64 => 0x1_0000_0000_0000_0000
  }

  /** sizeof (APPLE_EFI_FAT_HEADER) + sizeof (APPLE_EFI_FAT_ARCH_HEADER) * Hdr->NumArchs is
      evaluated in UINTN, so it is reduced modulo 2^width before it reaches the UINT64 cursor. */
  function TableEndAsWritten(width: UintnWidth, numArchs: nat): (r: nat)
    ensures r < UintnLimit(width)
    ensures TableEnd(numArchs) < UintnLimit(width) ==> r == TableEnd(numArchs)
  {
    TableEnd(numArchs) % UintnLimit(width)
  }

  /** The check at line 62 as compiled lets the buffer through. */
  predicate TableCheckPassesAsWritten(width: UintnWidth, s: seq<byte>)
    requires |s| >= FatHeaderSize
  {
    TableEndAsWritten(width, DecodeHeader(s).numArchs) <= |s|
  }

  // ---------------------------------------------------------------------------
  // The parser as the driver runs it
  // ---------------------------------------------------------------------------

  /** CopyMem (destination, source + sourceOffset, length). */
  method CopyMem(destination: array<byte>, source: array<byte>, sourceOffset: nat, length: nat)
    requires length <= destination.Length && sourceOffset + length <= source.Length
    requires destination != source
    modifies destination
    ensures destination[..length] == source[sourceOffset..sourceOffset + length]
    ensures destination[length..] == old(destination[length..])
  {
    var i := 0;
    while i < length
      invariant i <= length
      invariant forall j :: 0 <= j < i ==> destination[j] == source[sourceOffset + j]
      invariant forall j :: length <= j < destination.Length ==> destination[j] == old(destination[j])
    {
      destination[i] := source[sourceOffset + i];
      i := i + 1;
    }
  }

  /** ParseAppleEfiFatBinary (SourceBuffer, SourceSize, ...): `source` is the buffer with
      SourceSize == source.Length, `platformArch` the CpuType the build selects. The
      extracted image is returned as a value; the source is only read. */
  method ParseAppleEfiFatBinary(source: array?<byte>, platformArch: nat) returns (outcome: ParseOutcome)
    ensures outcome == Parse(if source == null then None else Some(source[..]), platformArch)
  {
    if source != null && source.Length != 0 {
      var s := source[..];
      if source.Length < FatHeaderSize {
        return Malformed;
      }
      var hdr := DecodeHeader(s);
      if hdr.magic != AppleEfiFatMagic {
        return NotApplicable;
      }
      var sizeOfBinary := TableEnd(hdr.numArchs);
      if sizeOfBinary > source.Length {
        return Malformed;
      }
      var index := 0;
      while index < hdr.numArchs
        invariant index <= hdr.numArchs == NumArchs(s)
        invariant forall j :: 0 <= j < index ==> ArchAt(s, j).cpuType != platformArch
        invariant sizeOfBinary == CursorBefore(s, index)
      {
        var arch := ArchAt(s, index);
        if arch.cpuType == platformArch {
          assert FirstMatch(s, platformArch) == Some(index);
          if arch.offset < sizeOfBinary || arch.offset >= source.Length
             || source.Length < arch.offset + arch.size {
            return Malformed;
          }
          var image := new byte[arch.size](_ => 0);
          CopyMem(image, source, arch.offset, arch.size);
          assert image[..] == image[..arch.size];
          return Extracted(image[..]);
        }
        sizeOfBinary := EntryEnd(arch);
        index := index + 1;
      }
      assert FirstMatch(s, platformArch) == None;
    }
    return NotApplicable;
  }
}
