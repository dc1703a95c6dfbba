/** Which service each entry point calls, with which buffer, and which status comes back. */
module LoadDispatchProperties {
  import opened Efi
  import opened FatBinary
  import opened FatBinaryProperties
  import opened LoadDispatch

  lemma {:induction false} LoaderCallsAppend(a: seq<Call>, b: seq<Call>)
    ensures LoaderCalls(a + b) == LoaderCalls(a) + LoaderCalls(b)
  {
    if a == [] {
      assert a + b == b;
    } else {
      var head := if IsLoaderCall(a[0]) then [a[0]] else [];
      assert (a + b)[0] == a[0] && (a + b)[1..] == a[1..] + b;
      calc {
        LoaderCalls(a + b);
        head + LoaderCalls(a[1..] + b);
        { LoaderCallsAppend(a[1..], b); }
        head + (LoaderCalls(a[1..]) + LoaderCalls(b));
        (head + LoaderCalls(a[1..])) + LoaderCalls(b);
      }
    }
  }

  lemma {:induction false} VerifiedBuffersAppend(a: seq<Call>, b: seq<Call>)
    ensures VerifiedBuffers(a + b) == VerifiedBuffers(a) + VerifiedBuffers(b)
  {
    if a == [] {
      assert a + b == b;
    } else {
      var head := if a[0].VerifySignature? then [a[0].image] else [];
      assert (a + b)[0] == a[0] && (a + b)[1..] == a[1..] + b;
      calc {
        VerifiedBuffers(a + b);
        head + VerifiedBuffers(a[1..] + b);
        { VerifiedBuffersAppend(a[1..], b); }
        head + (VerifiedBuffers(a[1..]) + VerifiedBuffers(b));
        (head + VerifiedBuffers(a[1..])) + VerifiedBuffers(b);
      }
    }
  }

  /** A three-call trace, taken apart one call at a time. */
  lemma TraceOf3(c0: Call, c1: Call, c2: Call)
    ensures LoaderCalls([c0]) == (if IsLoaderCall(c0) then [c0] else [])
    ensures VerifiedBuffers([c0]) == (if c0.VerifySignature? then [c0.image] else [])
    ensures LoaderCalls([c0, c1]) == LoaderCalls([c0]) + LoaderCalls([c1])
    ensures VerifiedBuffers([c0, c1]) == VerifiedBuffers([c0]) + VerifiedBuffers([c1])
    ensures LoaderCalls([c0, c1, c2]) == LoaderCalls([c0]) + LoaderCalls([c1]) + LoaderCalls([c2])
    ensures VerifiedBuffers([c0, c1, c2]) == VerifiedBuffers([c0]) + VerifiedBuffers([c1]) + VerifiedBuffers([c2])
  {
    assert [c0, c1] == [c0] + [c1];
    assert [c0, c1, c2] == [c0, c1] + [c2];
    LoaderCallsAppend([c0], [c1]);
    LoaderCallsAppend([c0, c1], [c2]);
    VerifiedBuffersAppend([c0], [c1]);
    VerifiedBuffersAppend([c0, c1], [c2]);
  }

  /** A four-call trace and its three-call prefix, taken apart one call at a time. */
  lemma TraceOf4(c0: Call, c1: Call, c2: Call, c3: Call)
    ensures LoaderCalls([c0]) == (if IsLoaderCall(c0) then [c0] else [])
    ensures VerifiedBuffers([c0]) == (if c0.VerifySignature? then [c0.image] else [])
    ensures LoaderCalls([c0, c1, c2]) == LoaderCalls([c0]) + LoaderCalls([c1]) + LoaderCalls([c2])
    ensures VerifiedBuffers([c0, c1, c2]) == VerifiedBuffers([c0]) + VerifiedBuffers([c1]) + VerifiedBuffers([c2])
    ensures LoaderCalls([c0, c1, c2, c3])
         == LoaderCalls([c0]) + LoaderCalls([c1]) + LoaderCalls([c2]) + LoaderCalls([c3])
    ensures VerifiedBuffers([c0, c1, c2, c3])
         == VerifiedBuffers([c0]) + VerifiedBuffers([c1]) + VerifiedBuffers([c2]) + VerifiedBuffers([c3])
  {
    TraceOf3(c0, c1, c2);
    assert [c0, c1, c2, c3] == [c0, c1, c2] + [c3];
    LoaderCallsAppend([c0, c1, c2], [c3]);
    VerifiedBuffersAppend([c0, c1, c2], [c3]);
  }

  // ---------------------------------------------------------------------------
  // LoadImageEx as written
  // ---------------------------------------------------------------------------

  /** LoadImageEx has exactly one of three outcomes:
      no file: EFI_INVALID_PARAMETER and no further call;
      the parser fails for any reason (not a fat binary, no record for the platform,
      malformed): the saved loader is called once, with the fetched bytes untouched;
      the parser succeeds: the verifier's status is returned and no loader is called. */
  lemma LoadImageExOutcomes(request: LoadRequest, sourceBuffer: Buffer, fw: Firmware, platformArch: nat)
    ensures var d := LoadImageEx(request, sourceBuffer, fw, platformArch);
      var source := FetchedBuffer(request, fw);
      && d.calls[0] == GetFileBuffer(request.bootPolicy, request.filePath)
      && (!Fetched(source) ==>
            d.status == InvalidParameter && |d.calls| == 1)
      && (Fetched(source) && !Parse(source, platformArch).Extracted? ==>
            && d.status == fw.originalLoadImage(request, source)
            && LoaderCalls(d.calls) == [OriginalLoadImage(request, source)]
            && VerifiedBuffers(d.calls) == [])
      && (Fetched(source) && Parse(source, platformArch).Extracted? ==>
            && d.status == fw.verifyApplePeImageSignature(None)
            && LoaderCalls(d.calls) == []
            && VerifiedBuffers(d.calls) == [None])
      && |LoaderCalls(d.calls)| <= 1
  {
    var source := FetchedBuffer(request, fw);
    var fetch := GetFileBuffer(request.bootPolicy, request.filePath);
    if Fetched(source) {
      var parse := ParseFatBinary(source.value);
      TraceOf3(fetch, parse, VerifySignature(None));
      TraceOf3(fetch, parse, OriginalLoadImage(request, source));
    }
  }

  /** The caller's SourceBuffer has no influence: LoadImageEx always loads what it fetches. */
  lemma LoadImageExIgnoresCallerBuffer(request: LoadRequest, b1: Buffer, b2: Buffer, fw: Firmware, platformArch: nat)
    ensures LoadImageEx(request, b1, fw, platformArch) == LoadImageEx(request, b2, fw, platformArch)
  {
  }

  /** A zero-length file is rejected with EFI_INVALID_PARAMETER. */
  lemma LoadImageExEmptyFile(request: LoadRequest, sourceBuffer: Buffer, fw: Firmware, platformArch: nat)
    requires FetchedBuffer(request, fw) == Some([])
    ensures LoadImageEx(request, sourceBuffer, fw, platformArch)
         == Dispatch(InvalidParameter, [GetFileBuffer(request.bootPolicy, request.filePath)])
  {
  }

  /** A file with a foreign magic reaches the saved loader byte for byte. */
  lemma LoadImageExForeignMagic(request: LoadRequest, sourceBuffer: Buffer, fw: Firmware, platformArch: nat)
    requires FetchedBuffer(request, fw).Some?
    requires |FetchedBuffer(request, fw).value| >= FatHeaderSize
    requires DecodeHeader(FetchedBuffer(request, fw).value).magic != AppleEfiFatMagic
    ensures var d := LoadImageEx(request, sourceBuffer, fw, platformArch);
      && d.status == fw.originalLoadImage(request, FetchedBuffer(request, fw))
      && LoaderCalls(d.calls) == [OriginalLoadImage(request, FetchedBuffer(request, fw))]
  {
    var s := FetchedBuffer(request, fw).value;
    ParseForeignMagic(s, s, platformArch);
    LoadImageExOutcomes(request, sourceBuffer, fw, platformArch);
  }

  // ---------------------------------------------------------------------------
  // LoadImageEx as intended, and what the pass-by-value parameters lose
  // ---------------------------------------------------------------------------

  /** The intended flow verifies exactly the extracted image and, when it is accepted,
      hands that image (not the container) to the saved loader. */
  lemma LoadImageExIntendedLoadsExtractedImage(request: LoadRequest, sourceBuffer: Buffer, fw: Firmware,
                                               platformArch: nat, image: seq<byte>)
    requires Fetched(FetchedBuffer(request, fw))
    requires Parse(FetchedBuffer(request, fw), platformArch) == Extracted(image)
    ensures var d := LoadImageExIntended(request, sourceBuffer, fw, platformArch);
      var verified := fw.verifyApplePeImageSignature(Some(image));
      && VerifiedBuffers(d.calls) == [Some(image)]
      && (EfiError(verified) ==> d.status == verified && LoaderCalls(d.calls) == [])
      && (!EfiError(verified) ==>
            && d.status == fw.originalLoadImage(request, Some(image))
            && LoaderCalls(d.calls) == [OriginalLoadImage(request, Some(image))])
  {
    var source := FetchedBuffer(request, fw);
    var fetch := GetFileBuffer(request.bootPolicy, request.filePath);
    var parse := ParseFatBinary(source.value);
    TraceOf4(fetch, parse, VerifySignature(Some(image)), OriginalLoadImage(request, Some(image)));
  }

  /** Wherever no image is extracted, the intended flow and the code agree call for call. */
  lemma LoadImageExIntendedAgreesOtherwise(request: LoadRequest, sourceBuffer: Buffer, fw: Firmware, platformArch: nat)
    requires !Fetched(FetchedBuffer(request, fw)) || !Parse(FetchedBuffer(request, fw), platformArch).Extracted?
    ensures LoadImageExIntended(request, sourceBuffer, fw, platformArch)
         == LoadImageEx(request, sourceBuffer, fw, platformArch)
  {
  }

  /** The defect: for every extracted image the code verifies a NULL buffer instead of it,
      and whatever the verifier answers no image is loaded. */
  lemma PassByValueLosesImage(request: LoadRequest, sourceBuffer: Buffer, fw: Firmware,
                              platformArch: nat, image: seq<byte>)
    requires Fetched(FetchedBuffer(request, fw))
    requires Parse(FetchedBuffer(request, fw), platformArch) == Extracted(image)
    ensures VerifiedBuffers(LoadImageEx(request, sourceBuffer, fw, platformArch).calls) == [None]
    ensures VerifiedBuffers(LoadImageExIntended(request, sourceBuffer, fw, platformArch).calls) == [Some(image)]
    ensures LoaderCalls(LoadImageEx(request, sourceBuffer, fw, platformArch).calls) == []
  {
    LoadImageExOutcomes(request, sourceBuffer, fw, platformArch);
    LoadImageExIntendedLoadsExtractedImage(request, sourceBuffer, fw, platformArch, image);
  }

  // ---------------------------------------------------------------------------
  // AppleLoadImage
  // ---------------------------------------------------------------------------

  /** AppleLoadImage: no file gives EFI_INVALID_PARAMETER; a rejected signature gives the
      verifier's error and no load; otherwise gBS->LoadImage is called once on the very
      buffer that was verified and its status returned. The fat parser is never called. */
  lemma AppleLoadImageOutcomes(request: LoadRequest, sourceBuffer: Buffer, version: nat, fw: Firmware)
    ensures var d := AppleLoadImage(request, sourceBuffer, version, fw);
      var source := FetchedBuffer(request, fw);
      var verified := fw.verifyApplePeImageSignature(source);
      && ParsesNothing(d.calls)
      && (!Fetched(source) ==> d.status == InvalidParameter && VerifiedBuffers(d.calls) == [])
      && (Fetched(source) ==> VerifiedBuffers(d.calls) == [source])
      && (Fetched(source) && EfiError(verified) ==> d.status == verified && LoaderCalls(d.calls) == [])
      && (Fetched(source) && !EfiError(verified) ==>
            && d.status == fw.bootServicesLoadImage(request, source)
            && LoaderCalls(d.calls) == [BootServicesLoadImage(request, source)])
  {
    var source := FetchedBuffer(request, fw);
    var fetch := GetFileBuffer(request.bootPolicy, request.filePath);
    TraceOf3(fetch, VerifySignature(source), BootServicesLoadImage(request, source));
  }

  /** Once the driver has patched the boot services table, AppleLoadImage loads through
      LoadImageEx: the file is fetched again and offered to the fat parser after all; a fat
      binary whose container passed verification ends with the status of verifying NULL.
      Both fetches of the file are taken to return the same bytes, as `Firmware` models
      GetFileBufferByFilePath as a function of BootPolicy and FilePath alone. */
  lemma AppleLoadImageThroughPatchedTable(request: LoadRequest, sourceBuffer: Buffer, version: nat,
                                          fw: Firmware, platformArch: nat)
    requires Fetched(FetchedBuffer(request, fw))
    requires !EfiError(fw.verifyApplePeImageSignature(FetchedBuffer(request, fw)))
    ensures var source := FetchedBuffer(request, fw);
      var patched := PatchedFirmware(fw, platformArch);
      && AppleLoadImage(request, sourceBuffer, version, patched).status
         == LoadImageEx(request, source, fw, platformArch).status
      && (Parse(source, platformArch).Extracted? ==>
            AppleLoadImage(request, sourceBuffer, version, patched).status
            == fw.verifyApplePeImageSignature(None))
  {
    LoadImageExOutcomes(request, FetchedBuffer(request, fw), fw, platformArch);
  }
}
