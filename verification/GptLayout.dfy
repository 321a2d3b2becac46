/** What a header in an image says, byte by byte, and which verdict its reading gets. */
module GptLayout {
  import opened Crc
  import opened Gpt
  import opened Wrappers

  /** The number a run of bytes stands for, lowest byte first. */
  function LittleEndian(b: Bytes): nat {
    if b == [] then 0 else b[0] as nat + 256 * LittleEndian(b[1..])
  }

  lemma LittleEndian4(b: Bytes)
    requires |b| == 4
    ensures LittleEndian(b) == b[0] as nat + 256 * (b[1] as nat) + 65536 * (b[2] as nat) + 16777216 * (b[3] as nat)
  {
    assert LittleEndian(b[3..]) == b[3] as nat by { assert b[3..][1..] == []; }
    assert b[2..][1..] == b[3..] && b[1..][1..] == b[2..];
    assert LittleEndian(b[2..]) == b[2] as nat + 256 * LittleEndian(b[3..]);
    assert LittleEndian(b[1..]) == b[1] as nat + 256 * LittleEndian(b[2..]);
  }

  lemma {:induction false} LittleEndianConcat(a: Bytes, b: Bytes)
    requires |a| == 4
    ensures LittleEndian(a + b) == LittleEndian(a) + 4294967296 * LittleEndian(b)
  {
    LittleEndian4(a);
    var s := a + b;
    assert s[1..][0] == a[1] && s[2..][0] == a[2] && s[3..][0] == a[3];
    assert s[1..][1..] == s[2..] && s[2..][1..] == s[3..] && s[3..][1..] == b;
    assert LittleEndian(s[3..]) == a[3] as nat + 256 * LittleEndian(b);
    assert LittleEndian(s[2..]) == a[2] as nat + 256 * LittleEndian(s[3..]);
    assert LittleEndian(s[1..]) == a[1] as nat + 256 * LittleEndian(s[2..]);
  }

  lemma ReadsU32(img: Bytes, off: nat)
    requires off + 4 <= |img|
    ensures ReadU32(img, off) == LittleEndian(img[off..off + 4])
  {
    LittleEndian4(img[off..off + 4]);
  }

  lemma ReadsU64(img: Bytes, off: nat)
    requires off + 8 <= |img|
    ensures ReadU64(img, off) == LittleEndian(img[off..off + 8])
  {
    ReadsU32(img, off);
    ReadsU32(img, off + 4);
    hide ReadU32, LittleEndian;
    assert img[off..off + 8] == img[off..off + 4] + img[off + 4..off + 8];
    LittleEndianConcat(img[off..off + 4], img[off + 4..off + 8]);
  }

  // --- Layout -------------------------------------------------------------------------

  const LIMIT: nat := 0x1_0000_0000_0000_0000

  /** Sector `lba` starts at `start`; a wrapping build takes the product modulo 2^64. */
  ghost predicate StartsAt(lba: nat, build: Build, start: nat) {
    && start < LIMIT
    && (if build == Checked then start == lba * 512 else start == lba * 512 % LIMIT)
  }

  /** The bytes "EFI PART". */
  const EFI_PART: Bytes := [0x45, 0x46, 0x49, 0x20, 0x50, 0x41, 0x52, 0x54]

  /** The fields of the header at `hdr`: where its array is, and how big. */
  ghost predicate Fields(img: Bytes, build: Build, g: Geo)
    requires g.hdr + 512 <= |img|
  {
    && g.hdrSize == LittleEndian(img[g.hdr + 12..g.hdr + 16])
    && StartsAt(LittleEndian(img[g.hdr + 72..g.hdr + 80]), build, g.arr)
    && g.num == LittleEndian(img[g.hdr + 80..g.hdr + 84])
    && g.esz == LittleEndian(img[g.hdr + 84..g.hdr + 88])
  }

  ghost predicate Plausible(hdrSize: nat, esz: nat) { 92 <= hdrSize <= 512 && 128 <= esz }

  /** Sector `lba` of the image holds a header with the geometry `g`, and its array lies in the image. */
  ghost predicate Layout(img: Bytes, lba: nat, build: Build, g: Geo) {
    && StartsAt(lba, build, g.hdr) && g.hdr + 512 < LIMIT && g.hdr + 512 <= |img|
    && img[g.hdr..g.hdr + 8] == EFI_PART
    && Fields(img, build, g) && Plausible(g.hdrSize, g.esz)
    && g.arr + g.num * g.esz < LIMIT && g.arr + g.num * g.esz <= |img|
  }

  lemma OffsetIff(lba: nat, build: Build, start: nat)
    ensures Offset(lba, build) == Some(start) <==> StartsAt(lba, build, start)
    ensures Offset(lba, build).None? <==> build == Checked && lba * 512 >= LIMIT
  {
  }

  /** Reading succeeds with exactly the geometry that is laid out. */
  lemma ParseFoundIff(img: Bytes, lba: nat, build: Build, g: Geo)
    ensures Parse(img, lba, build) == Found(g) <==> Layout(img, lba, build, g)
  {
    OffsetIff(lba, build, g.hdr);
    hide Offset, StartsAt, Fields, ParseFields;
    if StartsAt(lba, build, g.hdr) && g.hdr + 512 <= |img| { FieldsFoundIff(img, build, g); }
  }

  /** What reading the fields comes to, in the numbers they stand for. */
  lemma ParseFieldsIs(img: Bytes, hdr: nat, build: Build)
    requires hdr + 512 <= |img|
    ensures var size, arrLba := LittleEndian(img[hdr + 12..hdr + 16]), LittleEndian(img[hdr + 72..hdr + 80]);
            var num, esz := LittleEndian(img[hdr + 80..hdr + 84]), LittleEndian(img[hdr + 84..hdr + 88]);
            ParseFields(img, hdr, build) ==
              if !Plausible(size, esz) then Rejected(ImplausibleGeometry)
              else match Offset(arrLba, build)
                   case None => Overflowed
                   case Some(arr) => CheckArray(|img|, Geo(hdr, size, arr, num, esz), build)
  {
    FieldValues(img, hdr);
    hide ReadU32, ReadU64, LittleEndian, Offset, CheckArray;
  }

  /** Plausible fields are passed on to the bounds check as they are. */
  lemma FieldsRead(img: Bytes, build: Build, g: Geo)
    requires g.hdr + 512 <= |img| && Fields(img, build, g) && Plausible(g.hdrSize, g.esz)
    ensures ParseFields(img, g.hdr, build) == CheckArray(|img|, g, build)
  {
    hide ParseFields, LittleEndian, Offset, StartsAt, CheckArray, Plausible;
    ParseFieldsIs(img, g.hdr, build);
    OffsetIff(LittleEndian(img[g.hdr + 72..g.hdr + 80]), build, g.arr);
  }

  lemma FoundFields(img: Bytes, build: Build, g: Geo)
    requires g.hdr + 512 <= |img| && ParseFields(img, g.hdr, build) == Found(g)
    ensures Fields(img, build, g) && Plausible(g.hdrSize, g.esz)
  {
    hide ParseFields, LittleEndian, Offset, StartsAt, CheckArray, Plausible;
    ParseFieldsIs(img, g.hdr, build);
    var lba := LittleEndian(img[g.hdr + 72..g.hdr + 80]);
    OffsetIff(lba, build, g.arr);
    if Offset(lba, build).Some? {
      var size, arr := LittleEndian(img[g.hdr + 12..g.hdr + 16]), Offset(lba, build).value;
      var num, esz := LittleEndian(img[g.hdr + 80..g.hdr + 84]), LittleEndian(img[g.hdr + 84..g.hdr + 88]);
      CheckedGeo(|img|, Geo(g.hdr, size, arr, num, esz), build);
    }
  }

  lemma CheckedGeo(len: nat, g: Geo, build: Build)
    ensures CheckArray(len, g, build).Found? ==> CheckArray(len, g, build).geo == g
  {
    hide ArrayLen;
  }

  lemma CheckArrayIff(len: nat, g: Geo, build: Build)
    ensures var end := g.arr + g.num * g.esz;
            && (CheckArray(len, g, build) == Found(g) <==> end < LIMIT && end <= len)
            && (CheckArray(len, g, build) == Rejected(ArrayBeyondEnd) <==>
                  len < end < LIMIT || (build == Wrapping && end >= LIMIT && end - LIMIT > len))
            && (CheckArray(len, g, build) == Overflowed <==>
                  end >= LIMIT && (build == Checked || end - LIMIT <= len))
  {
    assert ArrayLen(g) == g.num * g.esz;
    hide ArrayLen;
  }

  lemma FieldsFoundIff(img: Bytes, build: Build, g: Geo)
    requires g.hdr + 512 <= |img|
    ensures ParseFields(img, g.hdr, build) == Found(g) <==>
              && Fields(img, build, g) && Plausible(g.hdrSize, g.esz)
              && g.arr + g.num * g.esz < LIMIT && g.arr + g.num * g.esz <= |img|
  {
    CheckArrayIff(|img|, g, build);
    hide ParseFields, CheckArray, Fields, Plausible;
    if ParseFields(img, g.hdr, build) == Found(g) { FoundFields(img, build, g); }
    if Fields(img, build, g) && Plausible(g.hdrSize, g.esz) { FieldsRead(img, build, g); }
  }

  lemma FieldValues(img: Bytes, hdr: nat)
    requires hdr + 512 <= |img|
    ensures ReadU32(img, hdr + HDR_SIZE_OFF) == LittleEndian(img[hdr + 12..hdr + 16])
    ensures ReadU64(img, hdr + ARRAY_LBA_OFF) == LittleEndian(img[hdr + 72..hdr + 80])
    ensures ReadU32(img, hdr + ARRAY_NUM_OFF) == LittleEndian(img[hdr + 80..hdr + 84])
    ensures ReadU32(img, hdr + ARRAY_ENTRY_SIZE_OFF) == LittleEndian(img[hdr + 84..hdr + 88])
  {
    hide ReadU32, ReadU64, LittleEndian;
    ReadsU32(img, hdr + 12);
    ReadsU64(img, hdr + 72);
    ReadsU32(img, hdr + 80);
    ReadsU32(img, hdr + 84);
  }

  lemma NeverElse(len: nat, build: Build)
    ensures forall g {:trigger CheckArray(len, g, build)} ::
              CheckArray(len, g, build).Rejected? ==> CheckArray(len, g, build).error == ArrayBeyondEnd
  {
    hide ArrayLen;
  }

  /** Each error exactly on its own condition, in the order they are checked. */
  lemma ParseRejectsIff(img: Bytes, lba: nat, build: Build, hdr: nat)
    requires StartsAt(lba, build, hdr)
    ensures Parse(img, lba, build) == Rejected(HeaderBeyondEnd) <==> |img| < hdr + 512 < LIMIT
    ensures Parse(img, lba, build) == Rejected(NoSignature) <==>
              hdr + 512 < LIMIT && hdr + 512 <= |img| && img[hdr..hdr + 8] != EFI_PART
    ensures Parse(img, lba, build) == Rejected(ImplausibleGeometry) <==>
              && hdr + 512 < LIMIT && hdr + 512 <= |img| && img[hdr..hdr + 8] == EFI_PART
              && !Plausible(LittleEndian(img[hdr + 12..hdr + 16]), LittleEndian(img[hdr + 84..hdr + 88]))
  {
    OffsetIff(lba, build, hdr);
    hide Offset, StartsAt;
    if hdr + 512 <= |img| { ParseFieldsIs(img, hdr, build); }
    NeverElse(|img|, build);
    hide ParseFields, LittleEndian, CheckArray;
  }

  /** The array is refused exactly when its end, as the build computes it, lies beyond the image. */
  lemma ArrayRejectedIff(img: Bytes, build: Build, g: Geo)
    requires g.hdr + 512 <= |img| && Fields(img, build, g) && Plausible(g.hdrSize, g.esz)
    ensures var end := g.arr + g.num * g.esz;
            && (ParseFields(img, g.hdr, build) == Rejected(ArrayBeyondEnd) <==>
                  |img| < end < LIMIT || (build == Wrapping && end >= LIMIT && end - LIMIT > |img|))
            && (ParseFields(img, g.hdr, build) == Overflowed <==>
                  end >= LIMIT && (build == Checked || end - LIMIT <= |img|))
  {
    FieldsRead(img, build, g);
    CheckArrayIff(|img|, g, build);
    hide ParseFields, CheckArray, Fields, Plausible;
  }
}
