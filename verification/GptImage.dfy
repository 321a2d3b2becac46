/** The normalised image, spelled out byte by byte. */
module GptImage {
  import opened Crc
  import opened Gpt
  import opened GptLayout
  import opened GptProofs
  import opened GptTheorems
  import opened GptGuids

  /** The sixteen bytes of the GUID with index byte `n`: "OMNI", the epoch lowest byte first with the
      version and variant bits set in it, the index, zeros. */
  ghost predicate IsGuid(b: Bytes, epoch: bv64, n: nat) {
    && |b| == 16
    && b[0] == 0x4F && b[1] == 0x4D && b[2] == 0x4E && b[3] == 0x49
    && b[4] == (epoch & 0xFF) as bv8 && b[5] == ((epoch >> 8) & 0xFF) as bv8
    && b[6] == 0x40 | ((epoch >> 16) & 0x0F) as bv8 && b[7] == ((epoch >> 24) & 0xFF) as bv8
    && b[8] == 0x80 | ((epoch >> 32) & 0x3F) as bv8 && b[9] == ((epoch >> 40) & 0xFF) as bv8
    && b[10] == ((epoch >> 48) & 0xFF) as bv8 && b[11] == ((epoch >> 56) & 0xFF) as bv8
    && b[12] as nat == n
    && b[13] == 0 && b[14] == 0 && b[15] == 0
  }

  /** Four bytes holding the word `x`, lowest byte first. */
  ghost predicate IsWord(b: Bytes, x: bv32) {
    && |b| == 4
    && x == (b[0] as bv32) + 0x100 * (b[1] as bv32) + 0x1_0000 * (b[2] as bv32) + 0x100_0000 * (b[3] as bv32)
  }

  /** Entry `i` is used: its type GUID, the first sixteen bytes, is not all zero. */
  ghost predicate InUse(a: Bytes, t: Geo, i: nat) {
    && i < t.num && t.arr + i * t.esz + 32 <= |a|
    && exists p: nat :: t.arr + i * t.esz <= p < t.arr + i * t.esz + 16 && a[p] != 0
  }

  /** Byte `p` of the unique GUID of a used entry. */
  ghost predicate InUniqueGuid(a: Bytes, t: Geo, p: nat) {
    exists i: nat :: InUse(a, t, i) && t.arr + i * t.esz + 16 <= p < t.arr + i * t.esz + 32
  }

  /** The bytes of table `t` that normalisation may write. */
  ghost predicate Written(a: Bytes, t: Geo, p: nat) {
    || t.hdr + 16 <= p < t.hdr + 20 || t.hdr + 56 <= p < t.hdr + 72 || t.hdr + 88 <= p < t.hdr + 92
    || InUniqueGuid(a, t, p)
  }

  ghost predicate EntryGuidWritten(t: Geo, epoch: bv64, s: Bytes, i: nat) {
    && t.arr + i * t.esz + 32 <= |s|
    && IsGuid(s[t.arr + i * t.esz + 16..t.arr + i * t.esz + 32], epoch, (i + 1) % 256)
  }

  ghost predicate GuidsWritten(a: Bytes, t: Geo, epoch: bv64, s: Bytes) {
    && t.hdr + 512 <= |s| && IsGuid(s[t.hdr + 56..t.hdr + 72], epoch, 0)
    && forall i: nat :: InUse(a, t, i) ==> EntryGuidWritten(t, epoch, s, i)
  }

  /** The word at 88 is the checksum of the array, the word at 16 that of the header with the bytes
      16 to 20 taken as zero. */
  ghost predicate Sealed(s: Bytes, t: Geo) {
    && t.hdr + 512 <= |s| && 92 <= t.hdrSize <= 512 && t.arr + t.num * t.esz <= |s|
    && IsWord(s[t.hdr + 88..t.hdr + 92], Crc32(s[t.arr..t.arr + t.num * t.esz]))
    && IsWord(s[t.hdr + 16..t.hdr + 20],
              Crc32(s[t.hdr..t.hdr + 16] + [0, 0, 0, 0] + s[t.hdr + 20..t.hdr + t.hdrSize]))
  }

  // --- Bridges ----------------------------------------------------------------------------

  lemma GuidIsGuid(epoch: bv64, i: nat)
    ensures IsGuid(DerivedGuid(epoch, IndexByte(i)), epoch, (i + 1) % 256)
  {
    GuidBytes(epoch, IndexByte(i));
    IndexByteValue(i);
    hide DerivedGuid, IndexByte;
  }

  lemma GuidBytes(epoch: bv64, x: bv8)
    ensures IsGuid(DerivedGuid(epoch, x), epoch, x as nat)
  {
    VersionBits(epoch);
  }

  lemma VersionBits(epoch: bv64)
    ensures (EpochByte(epoch, 16) & 0x0F) | 0x40 == 0x40 | ((epoch >> 16) & 0x0F) as bv8
    ensures (EpochByte(epoch, 32) & 0x3F) | 0x80 == 0x80 | ((epoch >> 32) & 0x3F) as bv8
  {
  }

  lemma IndexByteValue(i: nat)
    ensures IndexByte(i) as nat == (i + 1) % 256
  {
    ByteValue((1 + i % 256) % 256);
    hide CountedByte;
  }

  lemma UsedIsInUse(a: Bytes, t: Geo, i: nat)
    ensures IsUsed(a, t, i) <==> InUse(a, t, i)
  {
    var e := EntryAt(t, i);
    assert e == t.arr + i * t.esz;
    if i < t.num && e + 32 <= |a| { TypeNotZero(a, e); }
  }

  lemma TypeNotZero(a: Bytes, e: nat)
    requires e + 16 <= |a|
    ensures Used(a, e) <==> exists p: nat :: e <= p < e + 16 && a[p] != 0
  {
    if Used(a, e) {
      var k: nat :| k < 16 && a[e..e + 16][k] != ZERO16[k];
      assert a[e + k] != 0;
    } else {
      forall p: nat | e <= p < e + 16 ensures a[p] == 0 { assert a[e..e + 16][p - e] == ZERO16[p - e]; }
    }
  }

  lemma VolatileIsWritten(a: Bytes, t: Geo, p: nat)
    ensures Volatile(a, t, p) <==> Written(a, t, p)
  {
    forall i: nat ensures IsUsed(a, t, i) <==> InUse(a, t, i) { UsedIsInUse(a, t, i); }
    hide IsUsed, InUse;
    if InUniqueGuid(a, t, p) {
      var i: nat :| InUse(a, t, i) && t.arr + i * t.esz + 16 <= p < t.arr + i * t.esz + 32;
      assert IsUsed(a, t, i) && InField(p, EntryAt(t, i) + 16, 16);
    }
    if VolEntry(a, t, p) {
      var i: nat :| IsUsed(a, t, i) && InField(p, EntryAt(t, i) + 16, 16);
      assert InUse(a, t, i) && t.arr + i * t.esz + 16 <= p < t.arr + i * t.esz + 32;
    }
  }

  lemma EntryGuidIs(t: Geo, epoch: bv64, s: Bytes, i: nat)
    requires HasGuid(s, t, epoch, i)
    ensures EntryGuidWritten(t, epoch, s, i)
  {
    hide DerivedGuid, IndexByte, IsGuid;
    GuidIsGuid(epoch, i);
    assert EntryAt(t, i) == t.arr + i * t.esz;
  }

  lemma DiskGuidIs(t: Geo, epoch: bv64, s: Bytes)
    requires ValidGeo(t, |s|) && HasDiskGuid(s, t, epoch)
    ensures IsGuid(s[t.hdr + 56..t.hdr + 72], epoch, 0)
  {
    GuidBytes(epoch, 0);
    hide DerivedGuid, IsGuid;
  }

  lemma TableGuids(a: Bytes, t: Geo, epoch: bv64, s: Bytes)
    requires HasGuids(a, t, epoch, s)
    ensures GuidsWritten(a, t, epoch, s)
  {
    hide IsGuid, EntryGuidWritten, HasGuid, HasDiskGuid, InUse, IsUsed, ArrayLen;
    DiskGuidIs(t, epoch, s);
    forall i: nat | InUse(a, t, i) ensures EntryGuidWritten(t, epoch, s, i) {
      UsedIsInUse(a, t, i);
      EntryGuidIs(t, epoch, s, i);
    }
  }

  lemma WordSum(b0: bv8, b1: bv8, b2: bv8, b3: bv8)
    ensures IsWord([b0, b1, b2, b3], Word32(b0, b1, b2, b3))
  {
  }

  lemma StoredIsWord(s: Bytes, off: nat)
    requires off + 4 <= |s|
    ensures IsWord(s[off..off + 4], StoredU32(s, off))
  {
    WordSum(s[off], s[off + 1], s[off + 2], s[off + 3]);
    hide IsWord, Word32;
    assert s[off..off + 4] == [s[off], s[off + 1], s[off + 2], s[off + 3]];
  }

  lemma TableSealed(s: Bytes, t: Geo)
    requires ChecksumsValid(s, t)
    ensures Sealed(s, t)
  {
    hide Crc32, StoredU32, IsWord;
    assert ArrayLen(t) == t.num * t.esz;
    StoredIsWord(s, t.hdr + 88);
    StoredIsWord(s, t.hdr + 16);
    assert ZeroedHeader(s, t) == s[t.hdr..t.hdr + 16] + [0, 0, 0, 0] + s[t.hdr + 20..t.hdr + t.hdrSize];
  }

  // --- The image --------------------------------------------------------------------------

  /** `s` is `a` with table `t` normalised, and every other byte as it was. */
  ghost predicate TableNormalized(a: Bytes, t: Geo, epoch: bv64, s: Bytes) {
    && |s| == |a| && (forall p: nat :: p < |a| && !Written(a, t, p) ==> s[p] == a[p])
    && GuidsWritten(a, t, epoch, s) && Sealed(s, t)
  }

  /** `s` is `a` with both tables normalised, and every other byte as it was. */
  ghost predicate IsNormalized(a: Bytes, g: Geo, h: Geo, epoch: bv64, s: Bytes) {
    && |s| == |a| && (forall p: nat :: p < |a| && !Written(a, g, p) && !Written(a, h, p) ==> s[p] == a[p])
    && GuidsWritten(a, g, epoch, s) && GuidsWritten(a, h, epoch, s)
    && Sealed(s, g) && Sealed(s, h)
  }

  /** A well-formed image ends with both tables carrying their GUIDs and checksums, and every other
      byte as it was. */
  lemma NormalizedImage(a: Bytes, g: Geo, h: Geo, epoch: bv64, build: Build)
    requires Describes(a, g, h, build) && Accepts(a, g, h, build)
    ensures Normalize(a, epoch, build).0 == Done
    ensures IsNormalized(a, g, h, epoch, Normalize(a, epoch, build).1)
  {
    hide Normalize, Describes, Accepts, GuidsWritten, Sealed, HasGuids, ChecksumsValid, Written, Volatile;
    var s := Normalize(a, epoch, build).1;
    NormalizeSucceedsIff(a, g, h, epoch, build);
    NormalizedHasGuids(a, g, h, epoch, build);
    NormalizedChecksums(a, g, h, epoch, build);
    OnlyVolatileChanges(a, g, h, epoch, build);
    TableGuids(a, g, epoch, s);
    TableGuids(a, h, epoch, s);
    TableSealed(s, g);
    TableSealed(s, h);
    forall p: nat | p < |a| && !Written(a, g, p) && !Written(a, h, p) ensures s[p] == a[p] {
      VolatileIsWritten(a, g, p);
      VolatileIsWritten(a, h, p);
    }
  }

  lemma IndexFitsIff(a: Bytes, t: Geo)
    ensures IndexFits(a, t) <==> forall i: nat :: InUse(a, t, i) ==> i % 256 != 255
  {
    hide InUse, IsUsed;
    forall i: nat ensures IsUsed(a, t, i) <==> InUse(a, t, i) { UsedIsInUse(a, t, i); }
    forall i: nat | IsUsed(a, t, i) ensures i < t.num { UsedBelowNum(a, t, i); }
  }

  /** A well-formed image only ever fails by a panic, in a checked build, on a used entry whose index
      is 255 modulo 256. */
  lemma PanicsIff(a: Bytes, g: Geo, h: Geo, epoch: bv64, build: Build)
    requires Describes(a, g, h, build)
    ensures Normalize(a, epoch, build).0 ==
              if build == Checked && exists i: nat :: (InUse(a, g, i) || InUse(a, h, i)) && i % 256 == 255
              then Panicked else Done
  {
    hide InUse, Normalize, Describes, IndexFits;
    IndexFitsIff(a, g);
    IndexFitsIff(a, h);
    NormalizeSucceedsIff(a, g, h, epoch, build);
  }

  lemma PatchNormalizes(a: Bytes, g: Geo, epoch: bv64, r: Bytes)
    requires ValidGeo(g, |a|) && Patched(a, g, epoch, r)
    ensures TableNormalized(a, g, epoch, r)
  {
    hide GuidsWritten, Sealed, HasGuids, ChecksumsValid, Written, Volatile, GuidsBefore, ValidGeo;
    hide HasDiskGuid, ArraySealed, HeaderSealed;
    PatchedIsValid(a, g, epoch, r);
    PatchedHasGuids(a, g, epoch, r);
    TableGuids(a, g, epoch, r);
    TableSealed(r, g);
    forall p: nat | p < |a| && !Written(a, g, p) ensures r[p] == a[p] { VolatileIsWritten(a, g, p); }
  }

  /** One pass over a table that is laid out at `lba`, in a build that accepts its indices. */
  lemma PassNormalizes(a: Bytes, lba: nat, g: Geo, epoch: bv64, build: Build)
    requires Layout(a, lba, build, g) && Separate(g) && (build == Checked ==> IndexFits(a, g))
    ensures HeaderPass(a, lba, epoch, build).0 == Done
    ensures TableNormalized(a, g, epoch, HeaderPass(a, lba, epoch, build).1)
  {
    hide Layout, Patch, Parse, IndexFits, Patched, TableNormalized, Separate;
    ParseFoundIff(a, lba, build, g);
    PassOutcome(a, g, epoch, build);
    PatchNormalizes(a, g, epoch, Patch(a, g, epoch, build).value);
  }

  /** A primary header that is not there leaves the image alone, with the reason as the verdict. */
  lemma PrimaryRejected(a: Bytes, epoch: bv64, build: Build)
    ensures |a| < 1536 ==> Normalize(a, epoch, build) == (Failed(TooSmall), a)
    ensures |a| >= 1536 && a[512..520] != EFI_PART ==> Normalize(a, epoch, build) == (Failed(NoSignature), a)
    ensures |a| >= 1536 && a[512..520] == EFI_PART &&
            !Plausible(LittleEndian(a[524..528]), LittleEndian(a[596..600])) ==>
              Normalize(a, epoch, build) == (Failed(ImplausibleGeometry), a)
  {
    if |a| >= 1536 { ParseRejectsIff(a, 1, build, 512); }
    hide Parse, LittleEndian, ReadU64, Patch;
  }

  /** A primary array that ends beyond the image is refused and the image left alone; one whose end
      passes the address limit, or whose start does in a checked build, kills the builder. */
  lemma PrimaryArrayRejected(a: Bytes, g: Geo, epoch: bv64, build: Build)
    requires |a| >= 1536 && g.hdr == 512 && a[512..520] == EFI_PART
    requires Fields(a, build, g) && Plausible(g.hdrSize, g.esz)
    ensures var end := g.arr + g.num * g.esz;
            && (|a| < end < LIMIT || (build == Wrapping && end >= LIMIT && end - LIMIT > |a|) ==>
                  Normalize(a, epoch, build) == (Failed(ArrayBeyondEnd), a))
            && (end >= LIMIT && (build == Checked || end - LIMIT <= |a|) ==>
                  Normalize(a, epoch, build).0 == Panicked)
  {
    hide ParseFields, LittleEndian, ReadU64, Patch, Fields, Plausible;
    ArrayRejectedIff(a, build, g);
  }

  lemma PrimaryOverflows(a: Bytes, epoch: bv64)
    requires |a| >= 1536 && a[512..520] == EFI_PART && LittleEndian(a[584..592]) * 512 >= LIMIT
    requires Plausible(LittleEndian(a[524..528]), LittleEndian(a[596..600]))
    ensures Normalize(a, epoch, Checked).0 == Panicked
  {
    hide ParseFields, LittleEndian, ReadU64, Patch, Plausible;
    ParseFieldsIs(a, 512, Checked);
  }

  /** A backup that is refused is refused after the primary was patched: the image is left with a
      normalised primary table. */
  lemma BackupRejected(a: Bytes, g: Geo, epoch: bv64, build: Build, r: Bytes, e: GptError)
    requires |a| >= 1536 && Layout(a, 1, build, g) && Separate(g) && (build == Checked ==> IndexFits(a, g))
    requires r == HeaderPass(a, 1, epoch, build).1 && Parse(r, BackupLba(a), build) == Rejected(e)
    ensures TableNormalized(a, g, epoch, r) && Normalize(a, epoch, build) == (Failed(e), r)
  {
    hide Layout, Patch, Parse, LittleEndian, ReadU64, IndexFits, TableNormalized, Separate;
    PassNormalizes(a, 1, g, epoch, build);
    ReadsU64(a, 544);
  }

  // --- The code ----------------------------------------------------------------------------

  method NormalizeHeader(img: array<bv8>, lba: nat, epoch: bv64, build: Build) returns (r: Outcome)
    modifies img
    ensures r == HeaderPass(old(img[..]), lba, epoch, build).0
    ensures !r.Panicked? ==> img[..] == HeaderPass(old(img[..]), lba, epoch, build).1
    ensures forall g {:trigger Layout(old(img[..]), lba, build, g)} ::
              Layout(old(img[..]), lba, build, g) && Separate(g) &&
              (build == Checked ==> IndexFits(old(img[..]), g)) ==>
                r == Done && TableNormalized(old(img[..]), g, epoch, img[..])
  {
    hide Splice, DerivedGuid, SealArray, SealHeader, SetGuids, ParseFields, Parse, Layout, TableNormalized, IndexFits;
    forall g | Layout(img[..], lba, build, g) && Separate(g) && (build == Checked ==> IndexFits(img[..], g))
      ensures HeaderPass(img[..], lba, epoch, build).0 == Done
      ensures TableNormalized(img[..], g, epoch, HeaderPass(img[..], lba, epoch, build).1)
    {
      PassNormalizes(img[..], lba, g, epoch, build);
    }
    var parsed := Parse(img[..], lba, build);
    match parsed
    case Overflowed => r := Panicked;
    case Rejected(e) => r := Failed(e);
    case Found(g) =>
      CopyInto(img, g.hdr + DISK_GUID_OFF, DerivedGuid(epoch, 0));
      var ok := SetEntryGuids(img, g, epoch, build);
      if !ok {
        return Panicked;
      }
      SealCrcs(img, g);
      r := Done;
  }

  method NormalizeGpt(img: array<bv8>, epoch: bv64, build: Build) returns (r: Outcome)
    modifies img
    ensures r == Normalize(old(img[..]), epoch, build).0
    ensures !r.Panicked? ==> img[..] == Normalize(old(img[..]), epoch, build).1
    ensures forall g, h {:trigger Describes(old(img[..]), g, h, build)} ::
              Describes(old(img[..]), g, h, build) && Accepts(old(img[..]), g, h, build) ==>
                r == Done && IsNormalized(old(img[..]), g, h, epoch, img[..])
  {
    hide HeaderPass, ReadU64, Describes, Accepts, IsNormalized;
    forall g, h | Describes(img[..], g, h, build) && Accepts(img[..], g, h, build)
      ensures Normalize(img[..], epoch, build).0 == Done
      ensures IsNormalized(img[..], g, h, epoch, Normalize(img[..], epoch, build).1)
    {
      NormalizedImage(img[..], g, h, epoch, build);
    }
    if img.Length < 3 * SECTOR {
      return Failed(TooSmall);
    }
    var backup := ReadU64(img[..], SECTOR + BACKUP_LBA_OFF);
    r := NormalizeHeader(img, 1, epoch, build);
    if r == Done {
      r := NormalizeHeader(img, backup, epoch, build);
    }
  }
}
