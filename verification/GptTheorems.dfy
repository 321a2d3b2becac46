/** Normalisation of a whole image: reproducible, idempotent, and with valid checksums. */
module GptTheorems {
  import opened Crc
  import opened Gpt
  import opened GptLayout
  import opened GptProofs
  import opened Wrappers

  /** The sectors of two headers do not overlap. */
  ghost predicate Disjoint(g: Geo, h: Geo) {
    && Separate(g) && Separate(h)
    && NoOverlap(g.hdr, SECTOR, h.hdr, SECTOR)
    && NoOverlap(g.hdr, SECTOR, h.arr, ArrayLen(h))
    && NoOverlap(h.hdr, SECTOR, g.arr, ArrayLen(g))
    && NoOverlap(g.arr, ArrayLen(g), h.arr, ArrayLen(h))
  }

  function BackupLba(img: Bytes): nat
    requires |img| >= 3 * SECTOR
  {
    LittleEndian(img[544..552])
  }

  /** Sector 1 and the sector it names as its backup hold headers, and the two headers and two
      arrays lie apart. */
  ghost predicate Describes(img: Bytes, g: Geo, h: Geo, build: Build) {
    && |img| >= 3 * SECTOR
    && Layout(img, 1, build, g)
    && Layout(img, BackupLba(img), build, h)
    && Disjoint(g, h)
  }

  /** `b` is `a` with, at most, other disk GUIDs, other unique GUIDs of used entries and other checksums. */
  ghost predicate SameBuild(a: Bytes, b: Bytes, g: Geo, h: Geo) {
    |a| == |b| &&
    forall p: nat :: p < |a| && !Volatile(a, g, p) && !Volatile(a, h, p) ==> a[p] == b[p]
  }

  // --- Where things are ----------------------------------------------------------

  lemma VolatileInRegion(img: Bytes, g: Geo, p: nat)
    requires ValidGeo(g, |img|) && Volatile(img, g, p)
    ensures InRegion(g, p)
  {
    if VolEntry(img, g, p) {
      var i: nat :| IsUsed(img, g, i) && InField(p, EntryAt(g, i) + 16, 16);
      EntryBounds(g, |img|, i);
      EntryAboveStart(g, i);
    }
  }

  lemma EntryAboveStart(g: Geo, i: nat)
    ensures g.arr <= EntryAt(g, i)
  {
    assert i * g.esz >= 0;
  }

  lemma RegionsDisjoint(g: Geo, h: Geo, p: nat)
    requires Disjoint(g, h) && InRegion(g, p)
    ensures !InRegion(h, p)
  {
  }

  /** The bytes of a header that parsing reads. */
  ghost predicate ParseByte(hdr: nat, p: nat) { InField(p, hdr, 16) || InField(p, hdr + ARRAY_LBA_OFF, 16) }

  lemma ParseSame(a: Bytes, b: Bytes, lba: nat, build: Build, hdr: nat)
    requires |a| == |b| && Offset(lba, build) == Some(hdr)
    requires forall p: nat :: p < |a| && ParseByte(hdr, p) ==> a[p] == b[p]
    ensures Parse(a, lba, build) == Parse(b, lba, build)
  {
    if hdr + SECTOR <= |a| {
      assert a[hdr..hdr + 8] == b[hdr..hdr + 8];
      assert ReadU32(a, hdr + 12) == ReadU32(b, hdr + 12);
      assert ReadU32(a, hdr + 72) == ReadU32(b, hdr + 72);
      assert ReadU32(a, hdr + 76) == ReadU32(b, hdr + 76);
      assert ReadU32(a, hdr + 80) == ReadU32(b, hdr + 80);
      assert ReadU32(a, hdr + 84) == ReadU32(b, hdr + 84);
      assert ReadU64(a, hdr + 72) == ReadU64(b, hdr + 72) by { hide ReadU32; }
      FieldsSame(a, b, hdr, build);
    }
  }

  lemma FieldsSame(a: Bytes, b: Bytes, hdr: nat, build: Build)
    requires |a| == |b| && hdr + SECTOR <= |a|
    requires ReadU32(a, hdr + 12) == ReadU32(b, hdr + 12) && ReadU64(a, hdr + 72) == ReadU64(b, hdr + 72)
    requires ReadU32(a, hdr + 80) == ReadU32(b, hdr + 80) && ReadU32(a, hdr + 84) == ReadU32(b, hdr + 84)
    ensures ParseFields(a, hdr, build) == ParseFields(b, hdr, build)
  {
    hide ReadU32, ReadU64;
  }

  lemma FixedHeaderByte(img: Bytes, g: Geo, h: Geo, p: nat)
    requires ValidGeo(g, |img|) && ValidGeo(h, |img|) && Disjoint(g, h) && InHeader(g, p) && !VolHeader(g, p)
    ensures !Volatile(img, g, p) && !Volatile(img, h, p)
  {
    HeaderNotInEntry(img, g, p);
    RegionsDisjoint(g, h, p);
    if Volatile(img, h, p) { VolatileInRegion(img, h, p); }
  }

  lemma DisjointSymmetric(g: Geo, h: Geo)
    requires Disjoint(g, h)
    ensures Disjoint(h, g)
  {
  }

  lemma SameBuildParses(a: Bytes, b: Bytes, g: Geo, h: Geo, build: Build)
    requires Describes(a, g, h, build) && SameBuild(a, b, g, h)
    ensures Describes(b, g, h, build) && BackupLba(b) == BackupLba(a)
  {
    DescribedGeos(a, g, h, build);
    DisjointSymmetric(g, h);
    SameBuildSwap(a, b, g, h);
    hide Parse, BackupLba, Offset, ValidGeo, Layout;
    FixedHeaderSame(a, b, g, h);
    FixedHeaderSame(a, b, h, g);
    hide SameBuild, Disjoint, Separate;
    HeaderParsesSame(a, b, 1, build, g);
    HeaderParsesSame(a, b, BackupLba(a), build, h);
    LbaSame(a, b, g);
    ParseFoundIff(b, 1, build, g);
    ParseFoundIff(b, BackupLba(b), build, h);
  }

  /** The bytes of a header that neither its GUID nor its checksums take. */
  ghost predicate HeaderSame(a: Bytes, b: Bytes, g: Geo) {
    |a| == |b| && forall p: nat :: p < |a| && InHeader(g, p) && !VolHeader(g, p) ==> a[p] == b[p]
  }

  lemma HeaderParsesSame(a: Bytes, b: Bytes, lba: nat, build: Build, g: Geo)
    requires HeaderSame(a, b, g) && Offset(lba, build) == Some(g.hdr)
    ensures Parse(a, lba, build) == Parse(b, lba, build)
  {
    hide Parse, Offset;
    ParseSame(a, b, lba, build, g.hdr);
  }

  lemma LbaSame(a: Bytes, b: Bytes, g: Geo)
    requires |a| >= 3 * SECTOR && g.hdr == SECTOR && HeaderSame(a, b, g)
    ensures BackupLba(a) == BackupLba(b)
  {
    hide LittleEndian;
    forall p: nat | 544 <= p < 552 ensures a[p] == b[p] { assert InHeader(g, p) && !VolHeader(g, p); }
    assert a[544..552] == b[544..552];
  }

  /** Outside its GUID and checksums, a header is the same in both images. */
  lemma FixedHeaderSame(a: Bytes, b: Bytes, g: Geo, h: Geo)
    requires ValidGeo(g, |a|) && ValidGeo(h, |a|) && Disjoint(g, h) && SameBuild(a, b, g, h)
    ensures HeaderSame(a, b, g)
  {
    hide Volatile;
    forall p: nat | p < |a| && InHeader(g, p) && !VolHeader(g, p) ensures a[p] == b[p] {
      FixedHeaderByte(a, g, h, p);
    }
  }

  // --- The two passes ------------------------------------------------------------

  /** A pass over `g` leaves the sectors of `h` alone. */
  lemma PassKeepsOther(img: Bytes, g: Geo, h: Geo, epoch: bv64, r: Bytes)
    requires ValidGeo(g, |img|) && ValidGeo(h, |img|) && Disjoint(g, h) && Patched(img, g, epoch, r)
    ensures |r| == |img| && forall p: nat :: InRegion(h, p) && p < |img| ==> r[p] == img[p]
  {
    DisjointSymmetric(g, h);
    hide GuidsBefore, HasDiskGuid, ArraySealed, HeaderSealed;
    forall p: nat | InRegion(h, p) && p < |img| ensures r[p] == img[p] {
      RegionsDisjoint(h, g, p);
      if Volatile(img, g, p) { VolatileInRegion(img, g, p); }
    }
  }

  lemma SameArraySameVolatile(a: Bytes, b: Bytes, h: Geo)
    requires |a| == |b| && ValidGeo(h, |a|) && Separate(h)
    requires forall p: nat :: InRegion(h, p) && p < |a| ==> a[p] == b[p]
    ensures forall i: nat :: IsUsed(a, h, i) == IsUsed(b, h, i)
    ensures forall p: nat :: Volatile(a, h, p) == Volatile(b, h, p)
  {
    hide Volatile;
    assert AgreeOn(a, b, h);
    AgreeUsed(a, b, h);
    forall p: nat ensures Volatile(a, h, p) == Volatile(b, h, p) { VolatileSame(a, b, h, p); }
  }

  lemma VolatileSame(a: Bytes, b: Bytes, h: Geo, p: nat)
    requires forall i: nat :: IsUsed(a, h, i) == IsUsed(b, h, i)
    ensures Volatile(a, h, p) == Volatile(b, h, p)
  {
    hide IsUsed;
    VolEntrySame(a, b, h, p);
  }

  /** No used entry has an index whose byte `1 + i` overflows. */
  ghost predicate IndexFits(img: Bytes, g: Geo) { !OverflowBefore(img, g, g.num) }

  /** The two passes of a successful run, and what each did. */
  ghost predicate Passes(img: Bytes, g: Geo, h: Geo, epoch: bv64, r: Bytes, s: Bytes) {
    && ValidGeo(g, |img|) && Patched(img, g, epoch, r)
    && |r| == |img| && ValidGeo(h, |img|) && Patched(r, h, epoch, s)
  }

  lemma DescribedGeos(img: Bytes, g: Geo, h: Geo, build: Build)
    requires Describes(img, g, h, build)
    ensures ValidGeo(g, |img|) && ValidGeo(h, |img|) && Disjoint(g, h) && Separate(g) && Separate(h)
    ensures g.hdr == SECTOR && Offset(1, build) == Some(g.hdr) && Offset(BackupLba(img), build) == Some(h.hdr)
    ensures Parse(img, 1, build) == Found(g) && Parse(img, BackupLba(img), build) == Found(h)
    ensures ReadU64(img, SECTOR + BACKUP_LBA_OFF) == BackupLba(img)
  {
    ReadsU64(img, 544);
    ParseFoundIff(img, 1, build, g);
    ParseFoundIff(img, BackupLba(img), build, h);
    hide LittleEndian, ParseFields, ReadU64, ReadU32;
  }

  lemma SecondParse(img: Bytes, g: Geo, h: Geo, epoch: bv64, build: Build, r: Bytes)
    requires Describes(img, g, h, build) && ValidGeo(g, |img|) && Patched(img, g, epoch, r)
    ensures |r| == |img| && Parse(r, BackupLba(img), build) == Found(h)
    ensures IndexFits(r, h) == IndexFits(img, h)
  {
    DescribedGeos(img, g, h, build);
    PassKeepsOther(img, g, h, epoch, r);
    hide Patched, Parse, Describes, BackupLba, Offset;
    assert HeaderSame(r, img, h) by {
      forall p: nat | p < |r| && InHeader(h, p) ensures r[p] == img[p] { assert InRegion(h, p); }
    }
    HeaderParsesSame(r, img, BackupLba(img), build, h);
    SameArraySameVolatile(r, img, h);
    OverflowSame(r, img, h);
  }

  /** What a build demands of the used entries: a checked one, that no index byte overflows. */
  ghost predicate Accepts(img: Bytes, g: Geo, h: Geo, build: Build) {
    build == Checked ==> IndexFits(img, g) && IndexFits(img, h)
  }

  /** A well-formed image succeeds in every wrapping build, and in a checked build exactly when no
      used entry's index byte overflows. */
  lemma NormalizeSucceedsIff(img: Bytes, g: Geo, h: Geo, epoch: bv64, build: Build)
    requires Describes(img, g, h, build)
    ensures Normalize(img, epoch, build).0 == if Accepts(img, g, h, build) then Done else Panicked
    ensures Accepts(img, g, h, build) ==>
              exists r :: Passes(img, g, h, epoch, r, Normalize(img, epoch, build).1)
  {
    DescribedGeos(img, g, h, build);
    hide Patch, Parse, Describes, Patched, IndexFits;
    PassOutcome(img, g, epoch, build);
    if Patch(img, g, epoch, build).Some? {
      var r := Patch(img, g, epoch, build).value;
      assert HeaderPass(img, 1, epoch, build) == (Done, r);
      SecondParse(img, g, h, epoch, build, r);
      PassOutcome(r, h, epoch, build);
      if Patch(r, h, epoch, build).Some? {
        assert Passes(img, g, h, epoch, r, Patch(r, h, epoch, build).value);
      }
    }
  }

  lemma PassOutcome(img: Bytes, g: Geo, epoch: bv64, build: Build)
    requires ValidGeo(g, |img|) && Separate(g)
    ensures Patch(img, g, epoch, build).Some? <==> (build == Checked ==> IndexFits(img, g))
    ensures Patch(img, g, epoch, build).Some? ==> Patched(img, g, epoch, Patch(img, g, epoch, build).value)
  {
    hide Patch, Patched, OverflowBefore;
    PatchIsPatched(img, g, epoch, build);
  }

  // --- Reproducibility -------------------------------------------------------------

  lemma AgreeFirst(a: Bytes, b: Bytes, g: Geo, h: Geo)
    requires ValidGeo(g, |a|) && ValidGeo(h, |a|) && Disjoint(g, h) && SameBuild(a, b, g, h)
    ensures AgreeOn(a, b, g)
  {
    forall p: nat | p < |a| && InRegion(g, p) && !Volatile(a, g, p) ensures a[p] == b[p] {
      RegionsDisjoint(g, h, p);
      if Volatile(a, h, p) { VolatileInRegion(a, h, p); }
    }
  }

  lemma SameBuildSwap(a: Bytes, b: Bytes, g: Geo, h: Geo)
    requires SameBuild(a, b, g, h)
    ensures SameBuild(a, b, h, g)
  {
    hide Volatile;
  }

  lemma AgreeSecond(a: Bytes, b: Bytes, g: Geo, h: Geo, r: Bytes, s: Bytes)
    requires ValidGeo(g, |a|) && ValidGeo(h, |a|) && Disjoint(g, h) && SameBuild(a, b, g, h)
    requires |r| == |s| == |a| && forall p: nat :: InRegion(h, p) && p < |a| ==> r[p] == a[p] && s[p] == b[p]
    ensures AgreeOn(r, s, h)
  {
    DisjointSymmetric(g, h);
    SameBuildSwap(a, b, g, h);
    AgreeFirst(a, b, h, g);
    SameArraySameVolatile(r, a, h);
    hide Volatile;
  }

  /** Where two runs end up equal: in the sectors of both headers, and where neither wrote. */
  lemma RunsConverge(a: Bytes, b: Bytes, g: Geo, h: Geo, epoch: bv64, ra: Bytes, rb: Bytes, sa: Bytes, sb: Bytes)
    requires Disjoint(g, h) && SameBuild(a, b, g, h)
    requires Passes(a, g, h, epoch, ra, sa) && Passes(b, g, h, epoch, rb, sb)
    ensures sa == sb
  {
    hide Patched, Volatile;
    DisjointSymmetric(g, h);
    AgreeFirst(a, b, g, h);
    RegionConverges(a, b, g, epoch, ra, rb);
    PassKeepsOther(a, g, h, epoch, ra);
    PassKeepsOther(b, g, h, epoch, rb);
    AgreeSecond(a, b, g, h, ra, rb);
    RegionConverges(ra, rb, h, epoch, sa, sb);
    PassKeepsOther(ra, h, g, epoch, sa);
    PassKeepsOther(rb, h, g, epoch, sb);
    forall p: nat | p < |a| ensures sa[p] == sb[p] {
      if !InRegion(g, p) && !InRegion(h, p) {
        OutsideKept(a, g, h, epoch, ra, sa, p);
        OutsideKept(b, g, h, epoch, rb, sb, p);
        OutsideSame(a, b, g, h, p);
      }
    }
  }

  lemma OutsideKept(a: Bytes, g: Geo, h: Geo, epoch: bv64, r: Bytes, s: Bytes, p: nat)
    requires Passes(a, g, h, epoch, r, s) && p < |a| && !InRegion(g, p) && !InRegion(h, p)
    ensures |s| == |a| && s[p] == a[p]
  {
    hide GuidsBefore, HasDiskGuid, ArraySealed, HeaderSealed, Volatile;
    if Volatile(a, g, p) { VolatileInRegion(a, g, p); }
    if Volatile(r, h, p) { VolatileInRegion(r, h, p); }
  }

  lemma OutsideSame(a: Bytes, b: Bytes, g: Geo, h: Geo, p: nat)
    requires ValidGeo(g, |a|) && ValidGeo(h, |a|) && SameBuild(a, b, g, h)
    requires p < |a| && !InRegion(g, p) && !InRegion(h, p)
    ensures a[p] == b[p]
  {
    hide Volatile;
    if Volatile(a, g, p) { VolatileInRegion(a, g, p); }
    if Volatile(a, h, p) { VolatileInRegion(a, h, p); }
  }

  lemma FitsSame(a: Bytes, b: Bytes, g: Geo, h: Geo)
    requires ValidGeo(g, |a|) && ValidGeo(h, |a|) && Disjoint(g, h) && SameBuild(a, b, g, h)
    ensures IndexFits(a, g) == IndexFits(b, g)
  {
    AgreeFirst(a, b, g, h);
    AgreeUsed(a, b, g);
    OverflowSame(a, b, g);
  }

  /** Reproducibility: two builds that differ only in random GUIDs and checksums get the same
      verdict, and on success become byte-identical. */
  lemma Reproducible(a: Bytes, b: Bytes, g: Geo, h: Geo, epoch: bv64, build: Build)
    requires Describes(a, g, h, build) && SameBuild(a, b, g, h)
    ensures Normalize(a, epoch, build).0 == Normalize(b, epoch, build).0
    ensures Accepts(a, g, h, build) ==> Normalize(a, epoch, build) == Normalize(b, epoch, build)
  {
    DescribedGeos(a, g, h, build);
    SameBuildParses(a, b, g, h, build);
    hide Describes, SameBuild, Normalize, Passes, IndexFits;
    AcceptsSame(a, b, g, h, build);
    NormalizeSucceedsIff(a, g, h, epoch, build);
    NormalizeSucceedsIff(b, g, h, epoch, build);
    if Accepts(a, g, h, build) {
      var sa, sb := Normalize(a, epoch, build).1, Normalize(b, epoch, build).1;
      var ra :| Passes(a, g, h, epoch, ra, sa);
      var rb :| Passes(b, g, h, epoch, rb, sb);
      RunsConverge(a, b, g, h, epoch, ra, rb, sa, sb);
    }
  }

  lemma AcceptsSame(a: Bytes, b: Bytes, g: Geo, h: Geo, build: Build)
    requires ValidGeo(g, |a|) && ValidGeo(h, |a|) && Disjoint(g, h) && SameBuild(a, b, g, h)
    ensures Accepts(a, g, h, build) == Accepts(b, g, h, build)
  {
    hide SameBuild, IndexFits;
    DisjointSymmetric(g, h);
    SameBuildSwap(a, b, g, h);
    FitsSame(a, b, g, h);
    FitsSame(a, b, h, g);
  }

  /** Every byte outside the GUIDs and checksums is preserved. */
  lemma OnlyVolatileChanges(a: Bytes, g: Geo, h: Geo, epoch: bv64, build: Build)
    requires Describes(a, g, h, build) && Accepts(a, g, h, build)
    ensures SameBuild(a, Normalize(a, epoch, build).1, g, h)
  {
    DescribedGeos(a, g, h, build);
    NormalizeSucceedsIff(a, g, h, epoch, build);
    var s := Normalize(a, epoch, build).1;
    hide Describes, Normalize, Volatile;
    var r :| Passes(a, g, h, epoch, r, s);
    PassKeepsOther(a, g, h, epoch, r);
    SameArraySameVolatile(r, a, h);
    hide GuidsBefore, HasDiskGuid, ArraySealed, HeaderSealed;
    forall p: nat | p < |a| && !Volatile(a, g, p) && !Volatile(a, h, p) ensures a[p] == s[p] {
      assert r[p] == a[p] && s[p] == r[p];
    }
  }

  /** Normalising twice changes nothing more. */
  lemma Idempotent(a: Bytes, g: Geo, h: Geo, epoch: bv64, build: Build)
    requires Describes(a, g, h, build) && Accepts(a, g, h, build)
    ensures Normalize(Normalize(a, epoch, build).1, epoch, build) == Normalize(a, epoch, build)
  {
    hide Normalize, Describes, SameBuild;
    OnlyVolatileChanges(a, g, h, epoch, build);
    Reproducible(a, Normalize(a, epoch, build).1, g, h, epoch, build);
  }

  // --- Valid checksums ---------------------------------------------------------------

  lemma LE32RoundTrip(x: bv32)
    ensures var b := LE32(x); Word32(b[0], b[1], b[2], b[3]) == x
  {
  }

  lemma StoredWord(img: Bytes, off: nat, x: bv32)
    requires off + 4 <= |img| && img[off..off + 4] == LE32(x)
    ensures StoredU32(img, off) == x
  {
    LE32RoundTrip(x);
    hide LE32, Word32;
    var b := LE32(x);
    assert img[off] == b[0] && img[off + 1] == b[1] && img[off + 2] == b[2] && img[off + 3] == b[3];
  }

  /** The stored checksums are those of the array and of the header with its own field zeroed. */
  ghost predicate ChecksumsValid(img: Bytes, g: Geo) {
    && ValidGeo(g, |img|)
    && StoredU32(img, g.hdr + ARRAY_CRC_OFF) == Crc32(ArrayBytes(img, g))
    && StoredU32(img, g.hdr + HDR_CRC_OFF) == Crc32(ZeroedHeader(img, g))
  }

  lemma PatchedIsValid(img: Bytes, g: Geo, epoch: bv64, r: Bytes)
    requires ValidGeo(g, |img|) && Patched(img, g, epoch, r)
    ensures ChecksumsValid(r, g)
  {
    hide GuidsBefore, HasDiskGuid, Crc32, LE32, StoredU32;
    StoredWord(r, g.hdr + ARRAY_CRC_OFF, Crc32(ArrayBytes(r, g)));
    StoredWord(r, g.hdr + HDR_CRC_OFF, Crc32(ZeroedHeader(r, g)));
  }

  lemma ValidKept(r: Bytes, s: Bytes, g: Geo)
    requires ChecksumsValid(r, g) && |s| == |r|
    requires forall p: nat :: InRegion(g, p) && p < |r| ==> s[p] == r[p]
    ensures ChecksumsValid(s, g)
  {
    hide Crc32, Word32, Splice;
    assert ArrayBytes(s, g) == ArrayBytes(r, g) by {
      forall p: nat | InArray(g, p) ensures s[p] == r[p] { assert InRegion(g, p); }
    }
    forall p: nat | InHeader(g, p) ensures s[p] == r[p] { assert InRegion(g, p); }
    ZeroedEqual(s, r, g);
    hide ZeroedHeader;
  }

  /** After a successful run all four checksums are valid, although the backup pass runs
      after the primary header was sealed. */
  lemma NormalizedChecksums(a: Bytes, g: Geo, h: Geo, epoch: bv64, build: Build)
    requires Describes(a, g, h, build) && Accepts(a, g, h, build)
    ensures var s := Normalize(a, epoch, build).1; ChecksumsValid(s, g) && ChecksumsValid(s, h)
  {
    DescribedGeos(a, g, h, build);
    NormalizeSucceedsIff(a, g, h, epoch, build);
    var s := Normalize(a, epoch, build).1;
    hide Describes, Normalize, Patched, ChecksumsValid;
    var r :| Passes(a, g, h, epoch, r, s);
    DisjointSymmetric(g, h);
    PatchedIsValid(a, g, epoch, r);
    PatchedIsValid(r, h, epoch, s);
    PassKeepsOther(r, h, g, epoch, s);
    ValidKept(r, s, g);
  }

  /** Damage confined to four consecutive bytes of a sealed array shows in its checksum. */
  lemma ArrayDamageShows(img: Bytes, bad: Bytes, g: Geo, k: nat)
    requires ChecksumsValid(img, g) && DifferWithin(ArrayBytes(img, g), bad, k) && bad != ArrayBytes(img, g)
    ensures StoredU32(img, g.hdr + ARRAY_CRC_OFF) != Crc32(bad)
  {
    Crc32DetectsWindow(ArrayBytes(img, g), bad, k);
  }

  /** Damage confined to four consecutive bytes of a sealed header, outside its own checksum field,
      shows in that checksum. */
  lemma HeaderDamageShows(img: Bytes, bad: Bytes, g: Geo, k: nat)
    requires ChecksumsValid(img, g) && |bad| == |img|
    requires DifferWithin(img[g.hdr..g.hdr + g.hdrSize], bad[g.hdr..g.hdr + g.hdrSize], k)
    requires img[g.hdr..g.hdr + g.hdrSize] != bad[g.hdr..g.hdr + g.hdrSize]
    requires forall p: nat :: InField(p, g.hdr + HDR_CRC_OFF, 4) ==> bad[p] == img[p]
    ensures StoredU32(bad, g.hdr + HDR_CRC_OFF) != Crc32(ZeroedHeader(bad, g))
  {
    ZeroedDamage(img, bad, g, k);
    hide Crc32, Word32, ZeroedHeader;
    Crc32DetectsWindow(ZeroedHeader(img, g), ZeroedHeader(bad, g), k);
  }

  lemma ZeroedDamage(img: Bytes, bad: Bytes, g: Geo, k: nat)
    requires ValidGeo(g, |img|) && |bad| == |img|
    requires DifferWithin(img[g.hdr..g.hdr + g.hdrSize], bad[g.hdr..g.hdr + g.hdrSize], k)
    requires img[g.hdr..g.hdr + g.hdrSize] != bad[g.hdr..g.hdr + g.hdrSize]
    requires forall p: nat :: InField(p, g.hdr + HDR_CRC_OFF, 4) ==> bad[p] == img[p]
    ensures DifferWithin(ZeroedHeader(img, g), ZeroedHeader(bad, g), k)
    ensures ZeroedHeader(img, g) != ZeroedHeader(bad, g)
  {
    var x, y := ZeroedHeader(img, g), ZeroedHeader(bad, g);
    var a, b := img[g.hdr..g.hdr + g.hdrSize], bad[g.hdr..g.hdr + g.hdrSize];
    ZeroedBytes(img, g);
    ZeroedBytes(bad, g);
    hide ZeroedHeader;
    forall i | 0 <= i < |x| && (i < k || k + 4 <= i) ensures x[i] == y[i] { assert a[i] == b[i]; }
    var p :| 0 <= p < |a| && a[p] != b[p];
    assert x[p] != y[p];
  }

  lemma ZeroedBytes(img: Bytes, g: Geo)
    requires ValidGeo(g, |img|)
    ensures var z := ZeroedHeader(img, g);
            |z| == g.hdrSize &&
            forall p: nat :: p < |z| ==> z[p] == if InField(p, HDR_CRC_OFF, 4) then 0 else img[g.hdr + p]
  {
  }
}
