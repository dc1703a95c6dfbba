# AppleImageLoader: the Apple EFI fat binary parser and its load dispatch

This project models the core of the AppleImageLoader firmware driver. The driver takes
over the boot services `LoadImage`. For every file it is asked to load, it checks
whether the file is an Apple EFI "fat binary". A fat binary is a container with a header
`{Magic, NumArchs}`, a table of `NumArchs` records `{CpuType, CpuSubtype, Offset, Size,
Align}`, and the per-architecture images those records point at. If the file is a fat
binary with a valid record for the running CPU, the driver extracts that image. Because
the image is passed back by value (see Findings), the driver then calls the signature
verifier on NULL and loads nothing. Every other fetched file goes to the loader the
driver replaced, including fat binaries with no record for the CPU and fat binaries that
fail a check. A second entry point,
`AppleLoadImage`, verifies the fetched file and loads it through `gBS->LoadImage`.

Modules:

- `Efi` (efi.dfy): bytes, `Option`, `EFI_STATUS` as `Status(isError, code)` with
  `EFI_SUCCESS`, `EFI_INVALID_PARAMETER` (error 2) and `EFI_UNSUPPORTED` (error 3) from
  Appendix D of the UEFI specification, and little-endian UINT32 fields with their
  encode/decode round trip.
- `FatBinary` (fat_binary.dfy):
  - The layout constants.
  - The decoded views `DecodeHeader` and `ArchAt` over the untrusted bytes.
  - The closed-form specification `Parse`. The cursor before record k is the end of the
    table when k = 0, and otherwise `Offset + Size` of record k - 1.
  - The imperative `ParseAppleEfiFatBinary`. It walks the table with the `SizeOfBinary`
    cursor, allocates a zeroed buffer, copies the slice with `CopyMem`, and is proved to
    compute `Parse`.
  - The table bound as compiled for a 32-bit or a 64-bit `UINTN`.
- `FatBinaryEncoding` (fat_binary_encoding.dfy): builds containers. Decoding an encoded
  container gives back its header, every record and the payload. It is used for the round
  trip and the concrete containers.
- `FatBinaryProperties` (fat_binary_properties.dfy): the parser's guarantees, stated over
  `Parse`.
- `LoadDispatch` (load_dispatch.dfy): `LoadImageEx` as written, `LoadImageExIntended`
  (corrected), `AppleLoadImage`, and the boot services table after the override.
  - The firmware services are function-valued fields of `Firmware`:
    `GetFileBufferByFilePath`, `VerifyApplePeImageSignature`, the saved
    `OriginalLoadImage` and `gBS->LoadImage`.
  - Each entry point returns its status and the trace of calls it made, recorded as
    `Call` values.
- `LoadDispatchProperties` (load_dispatch_properties.dfy): which service is called, with
  which buffer, and which status comes back.

Modelling choices:

- The driver's header `AppleImageLoader.h` is not part of this model. The layout follows
  the Apple EFI fat format:
  - magic `0x0EF1FAB9`;
  - an 8-byte header;
  - 20-byte records of five little-endian UINT32 fields (CpuType at 0, Offset at 8,
    Size at 12);
  - CPU types 7 (x86) and `0x01000007` (x86-64).

  Every property except the concrete containers and the 32-bit counterexample is stated
  in terms of the named constants and decoders.
- The compile-time CPU selection (`#if MDE_CPU_IA32 / MDE_CPU_X64`) becomes the
  parameter `platformArch`.
- A NULL `SourceBuffer` is a null array (in the parser) or `None` (in the dispatcher).
  `SourceSize` is the buffer's length.
- The parser returns the extracted image as a value (`Extracted(image)`), because the C
  parameters `ImageBuffer` and `ImageSize` are passed by value and cannot carry it back.
- `Offset` and `Size` are UINT32 fields, which the `(UINT64)` casts at lines 92 and 110
  suggest. Their sum therefore cannot wrap in 64 bits, and the model adds them exactly.
- A fat binary that fails any check, malformed included, falls back to
  `OriginalLoadImage` with the untouched file (lines 151 and 160-171). It is not
  rejected.
- A NULL or empty buffer is `EFI_UNSUPPORTED` inside the parser. In `LoadImageEx` it is
  `EFI_INVALID_PARAMETER`, because the dispatcher tests for it first (lines 131 and 143).
- With an 8-byte header and one 20-byte record, the one-record container has its image
  at offset 28 = 8 + 20.
- The table walk is modelled as in the code. The cursor only compares the matched
  record's `Offset` with the end of the record just before it (the end of the table for
  the first record). `CursorIsPreviousEnd`
  shows a match that lies inside an earlier record's image being accepted.
  `ParseWrapEmpty` shows that a zero-length image at the end of the file is rejected,
  because `Offset >= SourceSize`.

## Model

The rows below are grouped by the function they characterise. The `FatBinary` rows and
the `FatBinaryProperties` rows are about the specification `FatBinary.Parse`, which
`FatBinary.ParseAppleEfiFatBinary` is proved to compute. The `LoadImageEx*` and
`PassByValueLosesImage` rows are about `LoadDispatch.LoadImageEx` and
`LoadDispatch.LoadImageExIntended`. The `AppleLoadImage*` rows are about
`LoadDispatch.AppleLoadImage` and, for the last row, `LoadDispatch.PatchedFirmware`.

| member | source | states |
|---|---|---|
| `FatBinary.ParseAppleEfiFatBinary` | Platform/AppleImageLoader/AppleImageLoader.c:24-114 | the table walk with its running cursor computes exactly `Parse` of the (possibly NULL) source, and the source is only read |
| `FatBinary.CopyMem` | Platform/AppleImageLoader/AppleImageLoader.c:101-107 | the fresh zeroed buffer receives `source[Offset .. Offset+Size)` byte for byte |
| `FatBinary.ToStatus` | Platform/AppleImageLoader/AppleImageLoader.c:36-113 | the parser's only statuses are EFI_SUCCESS (exactly when an image is extracted), EFI_UNSUPPORTED (exactly when not applicable) and EFI_INVALID_PARAMETER |
| `FatBinary.ArchAt` | Platform/AppleImageLoader/AppleImageLoader.c:58-70 | once the table fits, every `Archs[Index]` read (Index < NumArchs) lies inside the buffer, and its Offset and Size are UINT32 |
| `FatBinary.EntryInsideTable` | Platform/AppleImageLoader/AppleImageLoader.c:58-70 | record Index < NumArchs lies between the header and the table end |
| `FatBinary.FirstMatchFrom` | Platform/AppleImageLoader/AppleImageLoader.c:70-111 | the search returns the first record whose CpuType is the platform's, or reports that none is |
| `FatBinary.TableEndAsWritten` | Platform/AppleImageLoader/AppleImageLoader.c:58-60 | the table end as compiled is reduced modulo the UINTN width, and equals the true end when that fits |
| `FatBinaryProperties.ParseNullOrEmpty` | Platform/AppleImageLoader/AppleImageLoader.c:36-113 | a NULL or empty buffer gives EFI_UNSUPPORTED |
| `FatBinaryProperties.ParseTooShort` | Platform/AppleImageLoader/AppleImageLoader.c:40-43 | a non-empty buffer shorter than the header gives EFI_INVALID_PARAMETER whatever its bytes |
| `FatBinaryProperties.ParseForeignMagic` | Platform/AppleImageLoader/AppleImageLoader.c:53-56 | a foreign magic gives NotApplicable, and the outcome depends only on the first four bytes, so the table is never read |
| `FatBinaryProperties.ParseTableOverrun` | Platform/AppleImageLoader/AppleImageLoader.c:58-65 | a declared table that runs past SourceSize gives Malformed |
| `FatBinaryProperties.ParseFirstMatch` | Platform/AppleImageLoader/AppleImageLoader.c:90-108 | for the first matching record: extracted iff cursor <= Offset < SourceSize and Offset + Size <= SourceSize, otherwise Malformed; the image has length Size and equals the slice |
| `FatBinaryProperties.ParseNoMatch` | Platform/AppleImageLoader/AppleImageLoader.c:109-113 | with no record for the platform the result is NotApplicable |
| `FatBinaryProperties.ExtractedComesFromFirstMatch` | Platform/AppleImageLoader/AppleImageLoader.c:53-108 | an extracted image always comes from the first matching record, with magic, table and slice checks passed |
| `FatBinaryProperties.LaterRecordsIgnored` | Platform/AppleImageLoader/AppleImageLoader.c:70-108 | bytes after the first matching record change nothing but the extracted bytes themselves: records after it are never examined |
| `FatBinaryProperties.CursorIsPreviousEnd` | Platform/AppleImageLoader/AppleImageLoader.c:90-110 | the cursor is the previous record's end, not the furthest end seen: a match inside an earlier record's image is accepted |
| `FatBinaryProperties.ParseWrap` | Platform/AppleImageLoader/AppleImageLoader.c:24-114 | wrapping a non-empty image in a one-record container and parsing it back extracts the same image |
| `FatBinaryProperties.ParseWrapEmpty` | Platform/AppleImageLoader/AppleImageLoader.c:90-96 | a zero-length image at the end of the buffer is rejected, since its Offset equals SourceSize |
| `FatBinaryProperties.SingleRecordScenarios` | Platform/AppleImageLoader/AppleImageLoader.c:90-108 | one record {Offset 28, Size 8} over payload 1..8 extracts 1..8; Size 9 overruns by one byte and is malformed |
| `FatBinaryProperties.TwoMatchesFirstWins` | Platform/AppleImageLoader/AppleImageLoader.c:70-108 | with two records for the platform, only the first is extracted |
| `FatBinaryProperties.TableCheckExactOn64Bit` | Platform/AppleImageLoader/AppleImageLoader.c:58-65 | with a 64-bit UINTN the compiled table check accepts exactly the buffers whose table fits |
| `FatBinaryProperties.TableCheckWrapsOn32Bit` | Platform/AppleImageLoader/AppleImageLoader.c:58-65 | with a 32-bit UINTN a 12-byte buffer declaring 0x0CCCCCCD records passes the check although its first record runs past the end of the buffer |
| `LoadDispatchProperties.LoadImageExOutcomes` | Platform/AppleImageLoader/AppleImageLoader.c:131-175 | exactly one of three outcomes: no file gives EFI_INVALID_PARAMETER with no further call; any parse failure calls OriginalLoadImage once with the fetched bytes and returns its status; a parse success returns the verifier's status (on NULL) and calls no loader |
| `LoadDispatchProperties.LoadImageExIgnoresCallerBuffer` | Platform/AppleImageLoader/AppleImageLoader.c:133-138 | the caller's SourceBuffer is overwritten by the fetch and has no influence |
| `LoadDispatchProperties.LoadImageExEmptyFile` | Platform/AppleImageLoader/AppleImageLoader.c:131-143 | a zero-length file gives EFI_INVALID_PARAMETER and only the fetch is made |
| `LoadDispatchProperties.LoadImageExForeignMagic` | Platform/AppleImageLoader/AppleImageLoader.c:143-171 | a file with a foreign magic reaches OriginalLoadImage unchanged, and its status is returned |
| `LoadDispatchProperties.LoadImageExIntendedLoadsExtractedImage` | Platform/AppleImageLoader/AppleImageLoader.c:144-159 | corrected flow: the extracted image itself is verified, a rejection is returned, an acceptance loads that image |
| `LoadDispatchProperties.LoadImageExIntendedAgreesOtherwise` | Platform/AppleImageLoader/AppleImageLoader.c:143-171 | where nothing is extracted, the corrected flow and the code make the same calls and return the same status |
| `LoadDispatchProperties.PassByValueLosesImage` | Platform/AppleImageLoader/AppleImageLoader.c:144-159 | for every extracted image the code verifies NULL instead of it and loads nothing |
| `LoadDispatchProperties.AppleLoadImageOutcomes` | Platform/AppleImageLoader/AppleImageLoader.c:194-219 | no file gives EFI_INVALID_PARAMETER; a rejected signature returns the verifier's error without loading; otherwise gBS->LoadImage is called once on the verified buffer and its status returned; AppleLoadImage itself never calls the fat parser (through the patched table it does, see the next row) |
| `LoadDispatchProperties.AppleLoadImageThroughPatchedTable` | Platform/AppleImageLoader/AppleImageLoader.c:207-214 | once gBS->LoadImage is LoadImageEx, AppleLoadImage's status is LoadImageEx's on the same request, and for a fat binary it is the status of verifying NULL |

## Left out

- `GetFileBufferByFilePath` is modelled only through the buffer it returns.
  `VerifyApplePeImageSignature`, `OriginalLoadImage` and `gBS->LoadImage` are modelled
  only through the status they return for a buffer. Their effects, such as the `ImageHandle` they write and the
  `AuthenticationStatus`, are not modelled.
- `AppleImageLoaderEntryPoint` is not modelled: it installs the protocol, saves and
  replaces `gBS->LoadImage`, and recomputes the table CRC32. Only the result of the
  replacement is modelled, as `PatchedFirmware`.
- `DEBUG` logging is left out; it has no effect on results.
- Allocation failure is left out. `AllocateZeroPool` is modelled as a fresh zeroed array.
  The source never checks for a NULL result. It also never frees the extracted buffer,
  which is lost when the parser returns. Neither entry point frees the buffer returned by
  `GetFileBufferByFilePath` (lines 133 and 194) either. Memory ownership and leaks are not
  modelled.
- Pointer arithmetic on `SourceBuffer` is abstract. The parser reads a sequence copy of
  the source array.
- The struct layout lives in `AppleImageLoader.h`, which is not part of this model. It
  appears only through the named constants and decoders.
- `Parse` and `ParseAppleEfiFatBinary` use exact arithmetic for the table end. This
  matches an X64 build. The IA32 wrap-around is modelled separately, under Findings.
- Once the driver is installed, the patch adds one level of nesting:
  `AppleLoadImage` calls `gBS->LoadImage`, which is `LoadImageEx`, and `LoadImageEx`
  calls only the saved `OriginalLoadImage` (line 164), never `gBS->LoadImage` or
  `AppleLoadImage`. There is no recursion. `PatchedFirmware` models this one level in
  full.
- AppleLoadImageThroughPatchedTable: relies on `GetFileBufferByFilePath` being a
  function of (BootPolicy, FilePath) alone. In the code, `AppleLoadImage` verifies the
  bytes of its own fetch (line 194), and `LoadImageEx` then fetches the file a second
  time (line 133) and loads a non-fat file from that second fetch (line 168). Nothing in
  the code ties the two fetches together. The model gives both fetches the same bytes,
  so it does not capture a file that changes between the verification and the load.

## Findings

| source | as written | input that shows it | evidently intended | confidence | as-written member | corrected member |
|---|---|---|---|---|---|---|
| Platform/AppleImageLoader/AppleImageLoader.c:58-65 | `sizeof (HEADER) + sizeof (ARCH) * NumArchs` is computed in UINTN, which wraps on IA32 | 12-byte buffer with the magic and NumArchs = 0x0CCCCCCD: the table end reads as 12, the check passes, and `Archs[0]` at bytes 8-28 runs past the end of the buffer (its Offset and Size at bytes 16-23 are read out of bounds) | compare the exact table end with SourceSize | medium: depends on an IA32 build and 20-byte records; not executed | `FatBinary.TableEndAsWritten` (shown by `FatBinaryProperties.TableCheckWrapsOn32Bit`) | `FatBinary.ParseAppleEfiFatBinary` (exact bound; every record read proved in bounds) |
| Platform/AppleImageLoader/AppleImageLoader.c:144-159 | `ImageBuffer` and `ImageSize` are passed by value, so the verifier gets NULL and 0; an accepted verification returns without loading anything | any fetched fat binary with a valid record for the platform, e.g. `Wrap(image, platformArch)` | verify the extracted image and load it with the saved loader | high that NULL is verified; medium on the load step; not executed | `LoadDispatch.LoadImageEx` (shown by `LoadDispatchProperties.PassByValueLosesImage`) | `LoadDispatch.LoadImageExIntended` (proved by `LoadDispatchProperties.LoadImageExIntendedLoadsExtractedImage`) |

`PatchedFirmware` and `AppleLoadImageThroughPatchedTable` use the as-written
`LoadImageEx`, because they describe what the installed driver actually does.
