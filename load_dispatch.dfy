/** The two load entry points of the driver, LoadImageEx (installed in place of the boot
    services LoadImage) and AppleLoadImage (the AppleLoadImage protocol), as decisions over
    the results of the firmware services they call. Each service is a function-valued
    field of `Firmware`; each entry point returns its status and the calls it made. */
module LoadDispatch {
  import opened Efi
  import opened FatBinary

  type Handle = nat
  /** An EFI_DEVICE_PATH_PROTOCOL, left opaque. */
  type DevicePath = seq<byte>
  /** A (VOID *, UINTN) pair; None is a NULL buffer. */
  type Buffer = Option<seq<byte>>

  /** The arguments a load request passes through unchanged. */
  datatype LoadRequest = LoadRequest(bootPolicy: bool, parentImageHandle: Handle, filePath: DevicePath)

  /** The services called: GetFileBufferByFilePath, VerifyApplePeImageSignature, the
      LoadImage saved before the override, and whatever gBS->LoadImage currently is. */
  datatype Firmware = Firmware(
    getFileBufferByFilePath: (bool, DevicePath) -> Buffer,
    verifyApplePeImageSignature: Buffer -> Status,
    originalLoadImage: (LoadRequest, Buffer) -> Status,
    bootServicesLoadImage: (LoadRequest, Buffer) -> Status)

  datatype Call =
    | GetFileBuffer(bootPolicy: bool, filePath: DevicePath)
    | ParseFatBinary(bytes: seq<byte>)
    | VerifySignature(image: Buffer)
    | OriginalLoadImage(request: LoadRequest, source: Buffer)
    | BootServicesLoadImage(request: LoadRequest, source: Buffer)

  datatype Dispatch = Dispatch(status: Status, calls: seq<Call>)

  /** SourceBuffer != NULL && SourceSize != 0. */
  predicate Fetched(b: Buffer) {
    b.Some? && |b.value| != 0
  }

  function FetchedBuffer(request: LoadRequest, fw: Firmware): Buffer {
    fw.getFileBufferByFilePath(request.bootPolicy, request.filePath)
  }

  predicate IsLoaderCall(c: Call) {
    c.OriginalLoadImage? || c.BootServicesLoadImage?
  }

  /** The loader calls of a trace, in order. */
  function LoaderCalls(calls: seq<Call>): (r: seq<Call>)
    ensures |r| <= |calls|
    ensures forall i :: 0 <= i < |r| ==> IsLoaderCall(r[i])
  {
    if calls == [] then []
    else (if IsLoaderCall(calls[0]) then [calls[0]] else []) + LoaderCalls(calls[1..])
  }

  /** The buffers handed to the signature verifier, in order. */
  function VerifiedBuffers(calls: seq<Call>): (r: seq<Buffer>)
    ensures |r| <= |calls|
  {
    if calls == [] then []
    else (if calls[0].VerifySignature? then [calls[0].image] else []) + VerifiedBuffers(calls[1..])
  }

  predicate ParsesNothing(calls: seq<Call>) {
    forall i :: 0 <= i < |calls| ==> !calls[i].ParseFatBinary?
  }

  // ---------------------------------------------------------------------------
  // LoadImageEx as written
  // ---------------------------------------------------------------------------

  /** LoadImageEx (BootPolicy, ParentImageHandle, FilePath, SourceBuffer, SourceSize, ...).
      The caller's SourceBuffer is overwritten by the fetch. ImageBuffer and ImageSize are
      handed to the parser by value, so the verifier receives NULL and 0, and after a
      successful verification the status is returned without loading anything. */
  function LoadImageEx(request: LoadRequest, sourceBuffer: Buffer, fw: Firmware, platformArch: nat): Dispatch {
    var fetch := GetFileBuffer(request.bootPolicy, request.filePath);
    var source := FetchedBuffer(request, fw);
    if !Fetched(source) then Dispatch(InvalidParameter, [fetch])
    else
      var parse := ParseFatBinary(source.value);
      if !EfiError(ToStatus(Parse(source, platformArch))) then
        Dispatch(fw.verifyApplePeImageSignature(None), [fetch, parse, VerifySignature(None)])
      else
        Dispatch(fw.originalLoadImage(request, source), [fetch, parse, OriginalLoadImage(request, source)])
  }

  // ---------------------------------------------------------------------------
  // LoadImageEx as intended
  // ---------------------------------------------------------------------------

  /** The extracted image is verified, and a verified image is loaded by the saved loader. */
  function LoadImageExIntended(request: LoadRequest, sourceBuffer: Buffer, fw: Firmware, platformArch: nat): Dispatch {
    var fetch := GetFileBuffer(request.bootPolicy, request.filePath);
    var source := FetchedBuffer(request, fw);
    if !Fetched(source) then Dispatch(InvalidParameter, [fetch])
    else
      var parse := ParseFatBinary(source.value);
      match Parse(source, platformArch)
      case Extracted(image) =>
        var verified := fw.verifyApplePeImageSignature(Some(image));
        if EfiError(verified) then Dispatch(verified, [fetch, parse, VerifySignature(Some(image))])
        else
          Dispatch(fw.originalLoadImage(request, Some(image)),
                   [fetch, parse, VerifySignature(Some(image)), OriginalLoadImage(request, Some(image))])
      case _ =>
        Dispatch(fw.originalLoadImage(request, source), [fetch, parse, OriginalLoadImage(request, source)])
  }

  // ---------------------------------------------------------------------------
  // AppleLoadImage
  // ---------------------------------------------------------------------------

  /** AppleLoadImage (..., Version): verify the fetched file itself, then load it through
      gBS->LoadImage. */
  function AppleLoadImage(request: LoadRequest, sourceBuffer: Buffer, version: nat, fw: Firmware): Dispatch {
    var fetch := GetFileBuffer(request.bootPolicy, request.filePath);
    var source := FetchedBuffer(request, fw);
    if Fetched(source) then
      var verified := fw.verifyApplePeImageSignature(source);
      if EfiError(verified) then Dispatch(verified, [fetch, VerifySignature(source)])
      else
        Dispatch(fw.bootServicesLoadImage(request, source),
                 [fetch, VerifySignature(source), BootServicesLoadImage(request, source)])
    else Dispatch(InvalidParameter, [fetch])
  }

  /** The boot services table once the driver is installed: gBS->LoadImage is LoadImageEx. */
  function PatchedFirmware(fw: Firmware, platformArch: nat): Firmware {
    fw.(bootServicesLoadImage := (r: LoadRequest, b: Buffer) => LoadImageEx(r, b, fw, platformArch).status)
  }
}
