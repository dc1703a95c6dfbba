/** Building fat binaries: the inverse of the decoded views, used to state round trips
    and concrete containers. The driver itself never writes a container. */
module FatBinaryEncoding {
  import opened Efi
  import opened FatBinary

  predicate FieldsFit(a: ArchHeader) {
    a.cpuType < Uint32Limit && a.cpuSubtype < Uint32Limit && a.offset < Uint32Limit
    && a.size < Uint32Limit && a.align < Uint32Limit
  }

  function EncodeArch(a: ArchHeader): (r: seq<byte>)
    requires FieldsFit(a)
    ensures |r| == ArchHeaderSize
  {
    LeBytes32(a.cpuType) + LeBytes32(a.cpuSubtype) + LeBytes32(a.offset)
      + LeBytes32(a.size) + LeBytes32(a.align)
  }

  /** Decoding reads back exactly the fields that were encoded. */
  lemma DecodeEncodeArch(a: ArchHeader)
    requires FieldsFit(a)
    ensures DecodeArch(EncodeArch(a), 0) == a
  {
    var r := EncodeArch(a);
    var fields := [a.cpuType, a.cpuSubtype, a.offset, a.size, a.align];
    forall i | 0 <= i < 5
      ensures LeUint32(r, 4 * i) == fields[i]
    {
      assert r[4 * i..4 * i + 4] == LeBytes32(fields[i])[0..4];
      LeUint32OfSlice(r, 4 * i, LeBytes32(fields[i]), 0);
    }
    assert LeUint32(r, 0) == fields[0] && LeUint32(r, 4) == fields[1] && LeUint32(r, 8) == fields[2];
    assert LeUint32(r, 12) == fields[3] && LeUint32(r, 16) == fields[4];
  }

  /** Two buffers with the same twenty bytes at two places decode the same record there. */
  lemma DecodeArchOfSlice(s: seq<byte>, pos: nat, t: seq<byte>, q: nat)
    requires pos + ArchHeaderSize <= |s| && q + ArchHeaderSize <= |t|
    requires s[pos..pos + ArchHeaderSize] == t[q..q + ArchHeaderSize]
    ensures DecodeArch(s, pos) == DecodeArch(t, q)
  {
    var u, w := s[pos..pos + ArchHeaderSize], t[q..q + ArchHeaderSize];
    forall i | 0 <= i < 5
      ensures LeUint32(s, pos + 4 * i) == LeUint32(t, q + 4 * i)
    {
      var b := 4 * i;
      assert s[pos + b] == u[b] == w[b] == t[q + b];
      assert s[pos + b + 1] == u[b + 1] == w[b + 1] == t[q + b + 1];
      assert s[pos + b + 2] == u[b + 2] == w[b + 2] == t[q + b + 2];
      assert s[pos + b + 3] == u[b + 3] == w[b + 3] == t[q + b + 3];
    }
    assert LeUint32(s, pos + 4 * 1) == LeUint32(t, q + 4 * 1);
    assert LeUint32(s, pos + 4 * 2) == LeUint32(t, q + 4 * 2);
    assert LeUint32(s, pos + 4 * 3) == LeUint32(t, q + 4 * 3);
    assert LeUint32(s, pos + 4 * 4) == LeUint32(t, q + 4 * 4);
  }

  function EncodeTable(archs: seq<ArchHeader>): (r: seq<byte>)
    requires forall i :: 0 <= i < |archs| ==> FieldsFit(archs[i])
    ensures |r| == ArchHeaderSize * |archs|
  {
    if archs == [] then [] else EncodeArch(archs[0]) + EncodeTable(archs[1..])
  }

  lemma {:induction false} EncodeTableAt(archs: seq<ArchHeader>, i: nat)
    requires forall j :: 0 <= j < |archs| ==> FieldsFit(archs[j])
    requires i < |archs|
    ensures ArchHeaderSize * i + ArchHeaderSize <= |EncodeTable(archs)|
    ensures EncodeTable(archs)[ArchHeaderSize * i..ArchHeaderSize * i + ArchHeaderSize] == EncodeArch(archs[i])
  {
    var r := EncodeTable(archs);
    if i == 0 {
      assert r == EncodeArch(archs[0]) + EncodeTable(archs[1..]);
    } else {
      EncodeTableAt(archs[1..], i - 1);
      var tail := EncodeTable(archs[1..]);
      assert r == EncodeArch(archs[0]) + tail;
      assert r[20 * i..20 * i + 20] == tail[20 * (i - 1)..20 * (i - 1) + 20];
    }
  }

  /** A fat binary with the given magic, records and trailing payload. */
  function EncodeFatBinary(magic: nat, archs: seq<ArchHeader>, payload: seq<byte>): (r: seq<byte>)
    requires magic < Uint32Limit && |archs| < Uint32Limit
    requires forall i :: 0 <= i < |archs| ==> FieldsFit(archs[i])
    ensures |r| == TableEnd(|archs|) + |payload|
  {
    LeBytes32(magic) + LeBytes32(|archs|) + EncodeTable(archs) + payload
  }

  /** Decoding an encoded fat binary recovers its header, each of its records and its payload. */
  lemma DecodeEncodeFatBinary(magic: nat, archs: seq<ArchHeader>, payload: seq<byte>)
    requires magic < Uint32Limit && |archs| < Uint32Limit
    requires forall i :: 0 <= i < |archs| ==> FieldsFit(archs[i])
    ensures var c := EncodeFatBinary(magic, archs, payload);
      && |c| >= FatHeaderSize && DecodeHeader(c) == FatHeader(magic, |archs|)
      && TableFits(c)
      && (forall i :: 0 <= i < |archs| ==> ArchAt(c, i) == archs[i])
      && c[TableEnd(|archs|)..] == payload
  {
    var c := EncodeFatBinary(magic, archs, payload);
    var table := EncodeTable(archs);
    assert c == LeBytes32(magic) + LeBytes32(|archs|) + table + payload;
    assert c[0..4] == LeBytes32(magic)[0..4];
    LeUint32OfSlice(c, 0, LeBytes32(magic), 0);
    assert c[4..8] == LeBytes32(|archs|)[0..4];
    LeUint32OfSlice(c, 4, LeBytes32(|archs|), 0);
    assert DecodeHeader(c) == FatHeader(magic, |archs|);
    forall i | 0 <= i < |archs|
      ensures ArchAt(c, i) == archs[i]
    {
      EncodeTableAt(archs, i);
      assert c[EntryStart(i)..EntryStart(i) + ArchHeaderSize]
          == table[ArchHeaderSize * i..ArchHeaderSize * i + ArchHeaderSize];
      DecodeArchOfSlice(c, EntryStart(i), EncodeArch(archs[i]), 0);
      DecodeEncodeArch(archs[i]);
    }
    assert c[TableEnd(|archs|)..] == payload;
  }

  /** The single-architecture container that holds `image` for `platformArch`. */
  function Wrap(image: seq<byte>, platformArch: nat): seq<byte>
    requires |image| < Uint32Limit && platformArch < Uint32Limit
  {
    EncodeFatBinary(AppleEfiFatMagic, [ArchHeader(platformArch, 0, TableEnd(1), |image|, 0)], image)
  }
}
