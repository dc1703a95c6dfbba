/** What the fat binary parser guarantees, stated over the specification `Parse`
    (which the method ParseAppleEfiFatBinary is proved to compute). */
module FatBinaryProperties {
  import opened Efi
  import opened FatBinary
  import opened FatBinaryEncoding

  // ---------------------------------------------------------------------------
  // Early exits: no buffer, a short buffer, a foreign magic, a table that overruns
  // ---------------------------------------------------------------------------

  /** A NULL or empty buffer is simply not a fat binary. */
  lemma ParseNullOrEmpty(source: Option<seq<byte>>, platformArch: nat)
    requires source == None || source == Some([])
    ensures Parse(source, platformArch) == NotApplicable
    ensures ToStatus(Parse(source, platformArch)) == Unsupported
  {
  }

  /** A non-empty buffer shorter than the header is malformed, whatever its bytes. */
  lemma ParseTooShort(s: seq<byte>, platformArch: nat)
    requires 0 < |s| < FatHeaderSize
    ensures Parse(Some(s), platformArch) == Malformed
    ensures ToStatus(Parse(Some(s), platformArch)) == InvalidParameter
  {
  }

  /** With a foreign magic the outcome is NotApplicable, and it depends on nothing but the
      first four bytes: neither NumArchs nor any record is consulted. */
  lemma ParseForeignMagic(s: seq<byte>, t: seq<byte>, platformArch: nat)
    requires |s| >= FatHeaderSize && |t| >= FatHeaderSize
    requires DecodeHeader(s).magic != AppleEfiFatMagic
    requires t[..4] == s[..4]
    ensures Parse(Some(s), platformArch) == NotApplicable
    ensures Parse(Some(t), platformArch) == NotApplicable
  {
    LeUint32OfSlice(s, 0, t, 0);
  }

  /** A header whose declared table runs past the end of the buffer is malformed. */
  lemma ParseTableOverrun(s: seq<byte>, platformArch: nat)
    requires |s| >= FatHeaderSize && DecodeHeader(s).magic == AppleEfiFatMagic
    requires TableEnd(DecodeHeader(s).numArchs) > |s|
    ensures Parse(Some(s), platformArch) == Malformed
  {
  }

  // ---------------------------------------------------------------------------
  // The table walk: first match wins, the cursor rule, the slice check
  // ---------------------------------------------------------------------------

  /** For the first matching record, the parser extracts exactly when the record starts at
      or after the cursor and strictly inside the buffer and its image ends inside the
      buffer; otherwise the buffer is malformed. The image is the record's slice. */
  lemma ParseFirstMatch(s: seq<byte>, platformArch: nat, k: nat)
    requires TableFits(s) && DecodeHeader(s).magic == AppleEfiFatMagic
    requires IsFirstMatch(s, platformArch, k)
    ensures var a := ArchAt(s, k);
      && (Parse(Some(s), platformArch).Extracted?
          <==> CursorBefore(s, k) <= a.offset && a.offset < |s| && a.offset + a.size <= |s|)
      && (Parse(Some(s), platformArch).Extracted? || Parse(Some(s), platformArch) == Malformed)
      && (Parse(Some(s), platformArch).Extracted? ==>
            && |Parse(Some(s), platformArch).image| == a.size
            && Parse(Some(s), platformArch).image == s[a.offset..a.offset + a.size])
  {
  }

  /** With no record for the platform the buffer is not a fat binary for it. */
  lemma ParseNoMatch(s: seq<byte>, platformArch: nat)
    requires TableFits(s) && DecodeHeader(s).magic == AppleEfiFatMagic
    requires NoMatch(s, platformArch)
    ensures Parse(Some(s), platformArch) == NotApplicable
  {
  }

  /** Conversely, an extracted image always comes from the first matching record, after
      the header and the whole table were found inside the buffer. */
  lemma ExtractedComesFromFirstMatch(s: seq<byte>, platformArch: nat)
    requires Parse(Some(s), platformArch).Extracted?
    ensures TableFits(s) && DecodeHeader(s).magic == AppleEfiFatMagic
    ensures exists k :: IsFirstMatch(s, platformArch, k) && SliceAccepted(s, k)
                        && Parse(Some(s), platformArch).image == Slice(s, k)
  {
    var k := FirstMatch(s, platformArch).value;
    assert IsFirstMatch(s, platformArch, k) && SliceAccepted(s, k);
  }

  /** Records after the first match are never examined: a buffer that agrees with `s` up to
      the end of record k, and has the same length, has the same outcome, its image being
      the same slice of its own bytes (which may overlap the later records). */
  lemma LaterRecordsIgnored(s: seq<byte>, t: seq<byte>, platformArch: nat, k: nat)
    requires TableFits(s) && DecodeHeader(s).magic == AppleEfiFatMagic
    requires IsFirstMatch(s, platformArch, k)
    requires |t| == |s| && t[..EntryStart(k + 1)] == s[..EntryStart(k + 1)]
    ensures Parse(Some(t), platformArch) == Malformed <==> Parse(Some(s), platformArch) == Malformed
    ensures var a := ArchAt(s, k);
      Parse(Some(s), platformArch).Extracted? ==>
        Parse(Some(t), platformArch) == Extracted(t[a.offset..a.offset + a.size])
  {
    EntryInsideTable(k + 1, k);
    var prefix := EntryStart(k + 1);
    assert t[..4] == s[..4] && t[4..8] == s[4..8] by {
      assert t[..4] == t[..prefix][..4] && s[..4] == s[..prefix][..4];
      assert t[4..8] == t[..prefix][4..8] && s[4..8] == s[..prefix][4..8];
    }
    LeUint32OfSlice(s, 0, t, 0);
    LeUint32OfSlice(s, 4, t, 4);
    assert DecodeHeader(t) == DecodeHeader(s);
    forall j | 0 <= j <= k
      ensures ArchAt(t, j) == ArchAt(s, j)
    {
      EntryInsideTable(k + 1, j);
      var p := EntryStart(j);
      assert t[p..p + ArchHeaderSize] == s[p..p + ArchHeaderSize] by {
        assert t[p..p + ArchHeaderSize] == t[..prefix][p..p + ArchHeaderSize];
        assert s[p..p + ArchHeaderSize] == s[..prefix][p..p + ArchHeaderSize];
      }
      DecodeArchOfSlice(t, p, s, p);
    }
    assert IsFirstMatch(t, platformArch, k);
    assert CursorBefore(t, k) == CursorBefore(s, k);
    ParseFirstMatch(s, platformArch, k);
    ParseFirstMatch(t, platformArch, k);
  }

  // ---------------------------------------------------------------------------
  // Round trip and concrete containers
  // ---------------------------------------------------------------------------

  /** Wrapping a non-empty image in a single-architecture container and parsing it back
      extracts the same image. */
  lemma ParseWrap(image: seq<byte>, platformArch: nat)
    requires 0 < |image| < Uint32Limit && platformArch < Uint32Limit
    ensures Parse(Some(Wrap(image, platformArch)), platformArch) == Extracted(image)
  {
    var entry := ArchHeader(platformArch, 0, TableEnd(1), |image|, 0);
    var c := Wrap(image, platformArch);
    DecodeEncodeFatBinary(AppleEfiFatMagic, [entry], image);
    assert ArchAt(c, 0) == entry;
    ParseFirstMatch(c, platformArch, 0);
  }

  /** An empty image cannot be wrapped: its record's Offset equals SourceSize, which the
      bounds check rejects. */
  lemma ParseWrapEmpty(platformArch: nat)
    requires platformArch < Uint32Limit
    ensures Parse(Some(Wrap([], platformArch)), platformArch) == Malformed
  {
    var entry := ArchHeader(platformArch, 0, TableEnd(1), 0, 0);
    var c := Wrap([], platformArch);
    DecodeEncodeFatBinary(AppleEfiFatMagic, [entry], []);
    assert ArchAt(c, 0) == entry;
    ParseFirstMatch(c, platformArch, 0);
  }

  /** One record {platformArch, Offset 28, Size 8} and the payload 1..8: extracted.
      The same container whose record claims Size 9 overruns the buffer by one byte. */
  lemma SingleRecordScenarios(platformArch: nat)
    requires platformArch < Uint32Limit
    ensures var payload: seq<byte> := [1, 2, 3, 4, 5, 6, 7, 8];
      && Parse(Some(EncodeFatBinary(AppleEfiFatMagic, [ArchHeader(platformArch, 0, 28, 8, 0)], payload)),
               platformArch) == Extracted(payload)
      && Parse(Some(EncodeFatBinary(AppleEfiFatMagic, [ArchHeader(platformArch, 0, 28, 9, 0)], payload)),
               platformArch) == Malformed
  {
    var payload: seq<byte> := [1, 2, 3, 4, 5, 6, 7, 8];
    var good, bad := ArchHeader(platformArch, 0, 28, 8, 0), ArchHeader(platformArch, 0, 28, 9, 0);
    var c := EncodeFatBinary(AppleEfiFatMagic, [good], payload);
    var d := EncodeFatBinary(AppleEfiFatMagic, [bad], payload);
    DecodeEncodeFatBinary(AppleEfiFatMagic, [good], payload);
    DecodeEncodeFatBinary(AppleEfiFatMagic, [bad], payload);
    assert ArchAt(c, 0) == good && ArchAt(d, 0) == bad;
    ParseFirstMatch(c, platformArch, 0);
    ParseFirstMatch(d, platformArch, 0);
    assert c[28..36] == payload;
  }

  /** Two records for the platform: the first is extracted and the second never consulted. */
  lemma TwoMatchesFirstWins(platformArch: nat)
    requires platformArch < Uint32Limit
    ensures var payload: seq<byte> := [1, 2, 3, 4];
      Parse(Some(EncodeFatBinary(AppleEfiFatMagic,
                                 [ArchHeader(platformArch, 0, 48, 2, 0), ArchHeader(platformArch, 0, 50, 2, 0)],
                                 payload)), platformArch)
        == Extracted([1, 2])
  {
    var payload: seq<byte> := [1, 2, 3, 4];
    var first, second := ArchHeader(platformArch, 0, 48, 2, 0), ArchHeader(platformArch, 0, 50, 2, 0);
    var c := EncodeFatBinary(AppleEfiFatMagic, [first, second], payload);
    DecodeEncodeFatBinary(AppleEfiFatMagic, [first, second], payload);
    assert ArchAt(c, 0) == first;
    ParseFirstMatch(c, platformArch, 0);
    assert c[48..50] == payload[..2];
  }

  /** The cursor is the end of the record just before, not the furthest end seen: after
      records ending at 100 and at 70, a match at offset 70 is accepted although it lies
      inside the first record's image. */
  lemma CursorIsPreviousEnd(platformArch: nat)
    requires platformArch + 1 < Uint32Limit
    ensures var payload: seq<byte> := seq(32, i => 0);
      var archs := [ArchHeader(platformArch + 1, 0, 68, 32, 0), ArchHeader(platformArch + 1, 0, 68, 2, 0),
                    ArchHeader(platformArch, 0, 70, 10, 0)];
      Parse(Some(EncodeFatBinary(AppleEfiFatMagic, archs, payload)), platformArch) == Extracted(seq(10, i => 0))
  {
    var payload: seq<byte> := seq(32, i => 0);
    var archs := [ArchHeader(platformArch + 1, 0, 68, 32, 0), ArchHeader(platformArch + 1, 0, 68, 2, 0),
                  ArchHeader(platformArch, 0, 70, 10, 0)];
    var c := EncodeFatBinary(AppleEfiFatMagic, archs, payload);
    DecodeEncodeFatBinary(AppleEfiFatMagic, archs, payload);
    assert ArchAt(c, 0) == archs[0] && ArchAt(c, 1) == archs[1] && ArchAt(c, 2) == archs[2];
    assert IsFirstMatch(c, platformArch, 2);
    assert CursorBefore(c, 2) == 70;
    ParseFirstMatch(c, platformArch, 2);
    assert c[70..80] == payload[2..12];
  }

  // ---------------------------------------------------------------------------
  // The table bound on 64-bit and 32-bit builds
  // ---------------------------------------------------------------------------

  /** On X64 the compiled check is exactly the intended one: NumArchs is a UINT32, so the
      table end never wraps a 64-bit UINTN. */
  lemma TableCheckExactOn64Bit(s: seq<byte>)
    requires |s| >= FatHeaderSize
    ensures TableCheckPassesAsWritten(Uintn64, s) <==> TableFits(s)
  {
    var n := DecodeHeader(s).numArchs;
    assert TableEnd(n) == 8 + 20 * n < UintnLimit(Uintn64);
  }

  /** On IA32 the product wraps: NumArchs = 0x0CCCCCCD declares a table of 4294967308 bytes,
      which the compiled check reads as 12, so a 12-byte buffer passes although its first
      record (bytes 8 to 28) runs past the end of the buffer: its CpuType is inside, its
      Offset and Size are not. */
  lemma TableCheckWrapsOn32Bit()
    ensures var s := LeBytes32(AppleEfiFatMagic) + LeBytes32(0x0CCC_CCCD) + [0, 0, 0, 0];
      && |s| == 12 && DecodeHeader(s) == FatHeader(AppleEfiFatMagic, 0x0CCC_CCCD)
      && TableCheckPassesAsWritten(Uintn32, s)
      && !TableFits(s)
      && EntryStart(0) + ArchHeaderSize > |s|
  {
    var s := LeBytes32(AppleEfiFatMagic) + LeBytes32(0x0CCC_CCCD) + [0, 0, 0, 0];
    assert s[0..4] == LeBytes32(AppleEfiFatMagic)[0..4];
    LeUint32OfSlice(s, 0, LeBytes32(AppleEfiFatMagic), 0);
    assert s[4..8] == LeBytes32(0x0CCC_CCCD)[0..4];
    LeUint32OfSlice(s, 4, LeBytes32(0x0CCC_CCCD), 0);
    assert TableEnd(0x0CCC_CCCD) == 0x1_0000_000C;
  }
}
