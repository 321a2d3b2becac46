/** What normalisation guarantees: images that differ only in random GUIDs and checksums
    converge, and the checksums left behind are right. */
module GptProofs {
  import opened Crc
  import opened Bits
  import opened Gpt
  import opened Wrappers

  ghost predicate InField(p: nat, off: nat, n: nat) { off <= p < off + n }

  ghost predicate NoOverlap(o: nat, n: nat, o': nat, n': nat) {
    n == 0 || n' == 0 || Apart(o, n, o', n')
  }

  ghost predicate InHeader(g: Geo, p: nat) { InField(p, g.hdr, SECTOR) }
  ghost predicate InArray(g: Geo, p: nat) { InField(p, g.arr, ArrayLen(g)) }

  /** A header sector that does not overlap its own array. */
  ghost predicate Separate(g: Geo) { NoOverlap(g.hdr, SECTOR, g.arr, ArrayLen(g)) }

  ghost predicate IsUsed(img: Bytes, g: Geo, i: nat) {
    i < g.num && EntryAt(g, i) + 32 <= |img| && Used(img, EntryAt(g, i))
  }

  /** The unique-GUID bytes of used entries. */
  ghost predicate VolEntry(img: Bytes, g: Geo, p: nat) {
    exists i: nat :: IsUsed(img, g, i) && InField(p, EntryAt(g, i) + 16, 16)
  }

  /** The disk GUID and the two checksums of a header. */
  ghost predicate VolHeader(g: Geo, p: nat) {
    || InField(p, g.hdr + DISK_GUID_OFF, 16)
    || InField(p, g.hdr + HDR_CRC_OFF, 4)
    || InField(p, g.hdr + ARRAY_CRC_OFF, 4)
  }

  /** The bytes normalisation may rewrite for the header `g`. */
  ghost predicate Volatile(img: Bytes, g: Geo, p: nat) { VolHeader(g, p) || VolEntry(img, g, p) }

  // --- The entry loop ----------------------------------------------------------

  lemma EntriesApart(g: Geo, i: nat, j: nat)
    requires i < j && g.esz >= 128
    ensures EntryAt(g, i) + 128 <= EntryAt(g, i) + g.esz <= EntryAt(g, j)
  {
    MulGap(g.esz, i, j);
  }

  /** Type-GUID bytes are never rewritten. */
  lemma TypeBytesStay(img: Bytes, g: Geo, i: nat, p: nat)
    requires g.esz >= 128 && InField(p, EntryAt(g, i), 16)
    ensures !VolEntry(img, g, p)
  {
    forall j: nat | IsUsed(img, g, j) ensures !InField(p, EntryAt(g, j) + 16, 16) {
      hide IsUsed;
      if j < i { EntriesApart(g, j, i); } else if i < j { EntriesApart(g, i, j); }
    }
  }

  lemma UsedDependsOnType(a: Bytes, b: Bytes, e: nat)
    requires e + 16 <= |a| && e + 16 <= |b| && forall p :: e <= p < e + 16 ==> a[p] == b[p]
    ensures Used(a, e) == Used(b, e)
  {
    assert a[e..e + 16] == b[e..e + 16];
  }

  ghost predicate OverflowBefore(img: Bytes, g: Geo, n: nat) {
    exists i: nat :: i < n && IsUsed(img, g, i) && i % 256 == 255
  }

  ghost predicate KeepsRest(img: Bytes, g: Geo, m: Bytes) {
    |m| == |img| && forall p :: 0 <= p < |img| && !VolEntry(img, g, p) ==> m[p] == img[p]
  }

  ghost predicate HasGuid(m: Bytes, g: Geo, epoch: bv64, i: nat) {
    EntryAt(g, i) + 32 <= |m| && m[EntryAt(g, i) + 16..EntryAt(g, i) + 32] == DerivedGuid(epoch, IndexByte(i))
  }

  ghost predicate GuidsBefore(img: Bytes, g: Geo, epoch: bv64, m: Bytes, n: nat) {
    forall i: nat :: i < n && IsUsed(img, g, i) ==> HasGuid(m, g, epoch, i)
  }

  lemma UsedKept(img: Bytes, g: Geo, m: Bytes, i: nat)
    requires ValidGeo(g, |img|) && i < g.num && KeepsRest(img, g, m)
    ensures EntryAt(g, i) + 32 <= |img| && Used(m, EntryAt(g, i)) == Used(img, EntryAt(g, i))
  {
    EntryBounds(g, |img|, i);
    var e := EntryAt(g, i);
    forall p | e <= p < e + 16 ensures m[p] == img[p] { TypeBytesStay(img, g, i, p); }
    UsedDependsOnType(m, img, e);
  }

  lemma EntryWritten(img: Bytes, g: Geo, epoch: bv64, m: Bytes, i: nat)
    requires ValidGeo(g, |img|) && i < g.num && KeepsRest(img, g, m) && IsUsed(img, g, i)
    requires GuidsBefore(img, g, epoch, m, i)
    ensures var r := Splice(m, EntryAt(g, i) + 16, DerivedGuid(epoch, IndexByte(i)));
            KeepsRest(img, g, r) && GuidsBefore(img, g, epoch, r, i + 1)
  {
    hide DerivedGuid, HasGuid, Used;
    var e := EntryAt(g, i);
    var r := Splice(m, e + 16, DerivedGuid(epoch, IndexByte(i)));
    forall p | 0 <= p < |img| && !VolEntry(img, g, p) ensures r[p] == img[p] {
      assert !InField(p, e + 16, 16);
    }
    EntryHasGuid(g, epoch, m, i);
    forall j: nat | j < i && IsUsed(img, g, j) ensures HasGuid(r, g, epoch, j) {
      OtherGuidKept(g, epoch, m, j, i);
    }
  }

  lemma EntryHasGuid(g: Geo, epoch: bv64, m: Bytes, i: nat)
    requires EntryAt(g, i) + 32 <= |m|
    ensures HasGuid(Splice(m, EntryAt(g, i) + 16, DerivedGuid(epoch, IndexByte(i))), g, epoch, i)
  {
    hide DerivedGuid;
    var e, guid := EntryAt(g, i), DerivedGuid(epoch, IndexByte(i));
    assert Splice(m, e + 16, guid)[e + 16..e + 32] == guid;
  }

  lemma OtherGuidKept(g: Geo, epoch: bv64, m: Bytes, j: nat, i: nat)
    requires j < i && g.esz >= 128 && EntryAt(g, i) + 32 <= |m| && HasGuid(m, g, epoch, j)
    ensures HasGuid(Splice(m, EntryAt(g, i) + 16, DerivedGuid(epoch, IndexByte(i))), g, epoch, j)
  {
    hide DerivedGuid;
    EntriesApart(g, j, i);
    var f, r := EntryAt(g, j), Splice(m, EntryAt(g, i) + 16, DerivedGuid(epoch, IndexByte(i)));
    assert r[f + 16..f + 32] == m[f + 16..f + 32];
  }

  /** The loop dies exactly when the build checks the index byte of a used entry that overflows;
      otherwise it rewrites the unique GUID of each used entry and nothing else. */
  lemma {:induction false} EntryLoop(img: Bytes, g: Geo, epoch: bv64, build: Build, n: nat)
    requires ValidGeo(g, |img|) && n <= g.num
    ensures SetGuids(img, g, epoch, build, n).None? <==> build == Checked && OverflowBefore(img, g, n)
    ensures SetGuids(img, g, epoch, build, n).Some? ==>
              (var m := SetGuids(img, g, epoch, build, n).value;
               KeepsRest(img, g, m) && GuidsBefore(img, g, epoch, m, n))
  {
    if n > 0 {
      hide DerivedGuid, Splice, Used, KeepsRest, HasGuid;
      EntryLoop(img, g, epoch, build, n - 1);
      EntryLoopStep(img, g, epoch, build, n - 1);
    } else {
      hide IsUsed, VolEntry;
    }
  }

  lemma EntryLoopStep(img: Bytes, g: Geo, epoch: bv64, build: Build, i: nat)
    requires ValidGeo(g, |img|) && i < g.num
    requires SetGuids(img, g, epoch, build, i).None? <==> build == Checked && OverflowBefore(img, g, i)
    requires SetGuids(img, g, epoch, build, i).Some? ==>
               (var m := SetGuids(img, g, epoch, build, i).value;
                KeepsRest(img, g, m) && GuidsBefore(img, g, epoch, m, i))
    ensures SetGuids(img, g, epoch, build, i + 1).None? <==> build == Checked && OverflowBefore(img, g, i + 1)
    ensures SetGuids(img, g, epoch, build, i + 1).Some? ==>
              (var m := SetGuids(img, g, epoch, build, i + 1).value;
               KeepsRest(img, g, m) && GuidsBefore(img, g, epoch, m, i + 1))
  {
    hide DerivedGuid, Splice, Used, KeepsRest, HasGuid, IndexByte;
    if SetGuids(img, g, epoch, build, i).Some? {
      var m := SetGuids(img, g, epoch, build, i).value;
      UsedKept(img, g, m, i);
      if Used(m, EntryAt(g, i)) {
        assert IsUsed(img, g, i);
        EntryWritten(img, g, epoch, m, i);
      }
    }
  }

  // --- One header ---------------------------------------------------------------

  function ArrayBytes(img: Bytes, g: Geo): Bytes
    requires ValidGeo(g, |img|)
  {
    img[g.arr..g.arr + ArrayLen(g)]
  }

  /** The header bytes its checksum covers: its own field counts as zero. */
  function ZeroedHeader(img: Bytes, g: Geo): Bytes
    requires ValidGeo(g, |img|)
  {
    Splice(img, g.hdr + HDR_CRC_OFF, ZERO4)[g.hdr..g.hdr + g.hdrSize]
  }

  ghost predicate ArraySealed(img: Bytes, g: Geo)
    requires ValidGeo(g, |img|)
  {
    img[g.hdr + ARRAY_CRC_OFF..g.hdr + ARRAY_CRC_OFF + 4] == LE32(Crc32(ArrayBytes(img, g)))
  }

  ghost predicate HeaderSealed(img: Bytes, g: Geo)
    requires ValidGeo(g, |img|)
  {
    img[g.hdr + HDR_CRC_OFF..g.hdr + HDR_CRC_OFF + 4] == LE32(Crc32(ZeroedHeader(img, g)))
  }

  ghost predicate HasDiskGuid(img: Bytes, g: Geo, epoch: bv64)
    requires ValidGeo(g, |img|)
  {
    img[g.hdr + DISK_GUID_OFF..g.hdr + DISK_GUID_OFF + 16] == DerivedGuid(epoch, 0)
  }

  lemma SpliceSlice(s: Bytes, off: nat, t: Bytes, lo: nat, hi: nat)
    requires off + |t| <= |s| && lo <= hi <= |s|
    ensures (hi <= off || off + |t| <= lo) ==> Splice(s, off, t)[lo..hi] == s[lo..hi]
    ensures lo == off && hi == off + |t| ==> Splice(s, off, t)[lo..hi] == t
  {
  }

  lemma SpliceTwice(s: Bytes, off: nat, t: Bytes, u: Bytes)
    requires off + |t| <= |s| && |t| == |u|
    ensures Splice(Splice(s, off, u), off, t) == Splice(s, off, t)
  {
  }

  /** The two checksums hold afterwards, although each is written inside what the next one covers. */
  lemma SealsHold(m: Bytes, g: Geo)
    requires ValidGeo(g, |m|) && Separate(g)
    ensures var r := SealHeader(SealArray(m, g), g);
            ArraySealed(r, g) && HeaderSealed(r, g)
  {
    hide Splice, Crc32, LE32;
    var r := SealHeader(SealArray(m, g), g);
    SealedArray(m, g);
    SealedHeader(SealArray(m, g), g);
  }

  lemma SealedArray(m: Bytes, g: Geo)
    requires ValidGeo(g, |m|) && Separate(g)
    ensures ArraySealed(SealHeader(SealArray(m, g), g), g)
  {
    hide Splice, Crc32, LE32;
    var crc := LE32(Crc32(ArrayBytes(m, g)));
    var c := Splice(m, g.hdr + ARRAY_CRC_OFF, crc);
    var z := Splice(c, g.hdr + HDR_CRC_OFF, ZERO4);
    var own := LE32(Crc32(z[g.hdr..g.hdr + g.hdrSize]));
    var lo, hi := g.arr, g.arr + ArrayLen(g);
    if lo < hi {
      SpliceSlice(m, g.hdr + ARRAY_CRC_OFF, crc, lo, hi);
      SpliceSlice(c, g.hdr + HDR_CRC_OFF, ZERO4, lo, hi);
      SpliceSlice(z, g.hdr + HDR_CRC_OFF, own, lo, hi);
    }
    assert Splice(z, g.hdr + HDR_CRC_OFF, own)[lo..hi] == m[lo..hi];
    SpliceSlice(m, g.hdr + ARRAY_CRC_OFF, crc, g.hdr + 88, g.hdr + 92);
    SpliceSlice(c, g.hdr + HDR_CRC_OFF, ZERO4, g.hdr + 88, g.hdr + 92);
    SpliceSlice(z, g.hdr + HDR_CRC_OFF, own, g.hdr + 88, g.hdr + 92);
  }

  lemma SealedHeader(c: Bytes, g: Geo)
    requires ValidGeo(g, |c|)
    ensures HeaderSealed(SealHeader(c, g), g)
  {
    hide Splice, Crc32, LE32;
    var z := Splice(c, g.hdr + HDR_CRC_OFF, ZERO4);
    var own := LE32(Crc32(z[g.hdr..g.hdr + g.hdrSize]));
    SpliceSlice(z, g.hdr + HDR_CRC_OFF, own, g.hdr + 16, g.hdr + 20);
    SpliceTwice(z, g.hdr + HDR_CRC_OFF, ZERO4, own);
    SpliceTwice(c, g.hdr + HDR_CRC_OFF, ZERO4, ZERO4);
  }

  ghost predicate KeepsFixed(img: Bytes, g: Geo, r: Bytes) {
    |r| == |img| && forall p :: 0 <= p < |img| && !Volatile(img, g, p) ==> r[p] == img[p]
  }

  /** Everything a pass over one header does. */
  ghost predicate Patched(img: Bytes, g: Geo, epoch: bv64, r: Bytes)
    requires ValidGeo(g, |img|)
  {
    && KeepsFixed(img, g, r)
    && GuidsBefore(img, g, epoch, r, g.num)
    && HasDiskGuid(r, g, epoch) && ArraySealed(r, g) && HeaderSealed(r, g)
  }

  lemma DiskGuidKeepsArray(img: Bytes, g: Geo, epoch: bv64)
    requires ValidGeo(g, |img|) && Separate(g)
    ensures var a := SetDiskGuid(img, g, epoch);
            && (forall i: nat :: IsUsed(a, g, i) == IsUsed(img, g, i))
            && (forall p: nat :: VolEntry(a, g, p) == VolEntry(img, g, p))
  {
    hide DerivedGuid;
    var a := SetDiskGuid(img, g, epoch);
    forall i: nat ensures IsUsed(a, g, i) == IsUsed(img, g, i) {
      if i < g.num {
        EntryBounds(g, |img|, i);
        UsedDependsOnType(a, img, EntryAt(g, i));
      }
    }
    hide IsUsed, SetDiskGuid;
    forall p: nat ensures VolEntry(a, g, p) == VolEntry(img, g, p) { VolEntrySame(a, img, g, p); }
  }

  lemma VolEntrySame(a: Bytes, b: Bytes, g: Geo, p: nat)
    requires forall i: nat :: IsUsed(a, g, i) == IsUsed(b, g, i)
    ensures VolEntry(a, g, p) == VolEntry(b, g, p)
  {
    hide IsUsed;
    if VolEntry(a, g, p) {
      var i: nat :| IsUsed(a, g, i) && InField(p, EntryAt(g, i) + 16, 16);
      assert IsUsed(b, g, i);
    }
    if VolEntry(b, g, p) {
      var i: nat :| IsUsed(b, g, i) && InField(p, EntryAt(g, i) + 16, 16);
      assert IsUsed(a, g, i);
    }
  }

  /** `r` is `m` but for the two checksums of `g`. */
  ghost predicate KeepsBut(m: Bytes, g: Geo, r: Bytes) {
    |r| == |m| &&
    forall p: nat :: p < |m| && !InField(p, g.hdr + HDR_CRC_OFF, 4) && !InField(p, g.hdr + ARRAY_CRC_OFF, 4) ==>
      r[p] == m[p]
  }

  lemma SealsKeep(m: Bytes, g: Geo)
    requires ValidGeo(g, |m|)
    ensures KeepsBut(m, g, SealHeader(SealArray(m, g), g))
  {
    hide Crc32, LE32;
  }

  lemma EntryOutsideHeader(g: Geo, n: nat, i: nat)
    requires ValidGeo(g, n) && Separate(g) && i < g.num
    ensures NoOverlap(g.hdr, SECTOR, EntryAt(g, i), 128) && EntryAt(g, i) + 128 <= n
  {
    EntryBounds(g, n, i);
  }

  /** A pass dies exactly on a checked overflow, and otherwise does all it should. */
  lemma PatchIsPatched(img: Bytes, g: Geo, epoch: bv64, build: Build)
    requires ValidGeo(g, |img|) && Separate(g)
    ensures Patch(img, g, epoch, build).None? <==> build == Checked && OverflowBefore(img, g, g.num)
    ensures Patch(img, g, epoch, build).Some? ==> Patched(img, g, epoch, Patch(img, g, epoch, build).value)
  {
    hide SetDiskGuid, SetGuids, SealHeader, SealArray, Patched, KeepsRest, IsUsed;
    var a := SetDiskGuid(img, g, epoch);
    EntryLoop(a, g, epoch, build, g.num);
    DiskGuidKeepsArray(img, g, epoch);
    OverflowSame(a, img, g);
    if SetGuids(a, g, epoch, build, g.num).Some? {
      PatchedFrom(img, g, epoch, SetGuids(a, g, epoch, build, g.num).value);
    }
  }

  lemma OverflowSame(a: Bytes, b: Bytes, g: Geo)
    requires forall i: nat :: IsUsed(a, g, i) == IsUsed(b, g, i)
    ensures OverflowBefore(a, g, g.num) == OverflowBefore(b, g, g.num)
  {
    hide IsUsed;
  }

  lemma PatchedFrom(img: Bytes, g: Geo, epoch: bv64, m: Bytes)
    requires ValidGeo(g, |img|) && Separate(g)
    requires KeepsRest(SetDiskGuid(img, g, epoch), g, m)
    requires GuidsBefore(SetDiskGuid(img, g, epoch), g, epoch, m, g.num)
    ensures Patched(img, g, epoch, SealHeader(SealArray(m, g), g))
  {
    hide SealHeader, SealArray, IsUsed, HasGuid, ArraySealed, HeaderSealed, DerivedGuid;
    var a, r := SetDiskGuid(img, g, epoch), SealHeader(SealArray(m, g), g);
    DiskGuidKeepsArray(img, g, epoch);
    SealsHold(m, g);
    SealsKeep(m, g);
    forall p | 0 <= p < |img| && !Volatile(img, g, p) ensures r[p] == img[p] {
      assert m[p] == a[p];
    }
    PatchedDiskGuid(img, g, epoch, m, r);
    forall i: nat | i < g.num && IsUsed(img, g, i) ensures HasGuid(r, g, epoch, i) {
      assert IsUsed(a, g, i) && HasGuid(m, g, epoch, i);
      PatchedGuid(g, epoch, m, r, i);
    }
  }

  lemma PatchedGuid(g: Geo, epoch: bv64, m: Bytes, r: Bytes, i: nat)
    requires ValidGeo(g, |m|) && Separate(g) && i < g.num && HasGuid(m, g, epoch, i)
    requires KeepsBut(m, g, r)
    ensures HasGuid(r, g, epoch, i)
  {
    hide DerivedGuid;
    EntryOutsideHeader(g, |m|, i);
    var e := EntryAt(g, i);
    assert r[e + 16..e + 32] == m[e + 16..e + 32];
  }

  lemma PatchedDiskGuid(img: Bytes, g: Geo, epoch: bv64, m: Bytes, r: Bytes)
    requires ValidGeo(g, |img|) && Separate(g) && KeepsRest(SetDiskGuid(img, g, epoch), g, m)
    requires KeepsBut(m, g, r)
    ensures HasDiskGuid(r, g, epoch)
  {
    hide DerivedGuid;
    var a := SetDiskGuid(img, g, epoch);
    var lo, hi := g.hdr + DISK_GUID_OFF, g.hdr + DISK_GUID_OFF + 16;
    forall p: nat | lo <= p < hi ensures !VolEntry(a, g, p) { HeaderNotInEntry(a, g, p); }
    assert r[lo..hi] == a[lo..hi];
    SpliceSlice(img, lo, DerivedGuid(epoch, 0), lo, hi);
  }

  lemma HeaderNotInEntry(img: Bytes, g: Geo, p: nat)
    requires ValidGeo(g, |img|) && Separate(g) && InHeader(g, p)
    ensures !VolEntry(img, g, p)
  {
    forall i: nat | IsUsed(img, g, i) ensures !InField(p, EntryAt(g, i) + 16, 16) {
      EntryOutsideHeader(g, |img|, i);
    }
  }

  // --- Two images, one header -----------------------------------------------------

  ghost predicate InRegion(g: Geo, p: nat) { InHeader(g, p) || InArray(g, p) }

  /** `a` and `b` differ, within the sectors of `g`, at most where normalisation writes. */
  ghost predicate AgreeOn(a: Bytes, b: Bytes, g: Geo) {
    |a| == |b| && forall p :: 0 <= p < |a| && InRegion(g, p) && !Volatile(a, g, p) ==> a[p] == b[p]
  }

  lemma AgreeType(a: Bytes, b: Bytes, g: Geo, i: nat)
    requires ValidGeo(g, |a|) && Separate(g) && AgreeOn(a, b, g) && i < g.num
    ensures var e := EntryAt(g, i); e + 32 <= |a| && forall p :: e <= p < e + 16 ==> a[p] == b[p]
  {
    EntryOutsideHeader(g, |a|, i);
    var e := EntryAt(g, i);
    forall p | e <= p < e + 16 ensures a[p] == b[p] { AgreeTypeByte(a, b, g, i, p); }
  }

  lemma AgreeTypeByte(a: Bytes, b: Bytes, g: Geo, i: nat, p: nat)
    requires ValidGeo(g, |a|) && Separate(g) && AgreeOn(a, b, g) && i < g.num && InField(p, EntryAt(g, i), 16)
    ensures p < |a| == |b| && a[p] == b[p]
  {
    EntryOutsideHeader(g, |a|, i);
    EntryBounds(g, |a|, i);
    TypeBytesStay(a, g, i, p);
    hide VolEntry;
    assert InRegion(g, p);
  }

  lemma AgreeUsed(a: Bytes, b: Bytes, g: Geo)
    requires ValidGeo(g, |a|) && Separate(g) && AgreeOn(a, b, g)
    ensures forall i: nat :: IsUsed(a, g, i) == IsUsed(b, g, i)
  {
    forall i: nat ensures IsUsed(a, g, i) == IsUsed(b, g, i) {
      if i < g.num {
        AgreeType(a, b, g, i);
        UsedDependsOnType(a, b, EntryAt(g, i));
      }
    }
  }

  lemma GuidByte(r: Bytes, s: Bytes, g: Geo, epoch: bv64, i: nat, p: nat)
    requires |r| == |s| && HasGuid(r, g, epoch, i) && HasGuid(s, g, epoch, i) && InField(p, EntryAt(g, i) + 16, 16)
    ensures r[p] == s[p]
  {
    hide DerivedGuid;
    var e := EntryAt(g, i);
    assert r[p] == r[e + 16..e + 32][p - e - 16] && s[p] == s[e + 16..e + 32][p - e - 16];
  }

  lemma ArrayByteConverges(a: Bytes, b: Bytes, g: Geo, epoch: bv64, r: Bytes, s: Bytes, p: nat)
    requires |a| == |b| == |r| == |s| && p < |a|
    requires forall i: nat :: IsUsed(a, g, i) == IsUsed(b, g, i)
    requires GuidsBefore(a, g, epoch, r, g.num) && GuidsBefore(b, g, epoch, s, g.num)
    requires !VolEntry(a, g, p) ==> r[p] == a[p] && s[p] == b[p] && a[p] == b[p]
    ensures r[p] == s[p]
  {
    hide IsUsed, HasGuid;
    if VolEntry(a, g, p) {
      var i: nat :| IsUsed(a, g, i) && InField(p, EntryAt(g, i) + 16, 16);
      UsedBelowNum(a, g, i);
      assert IsUsed(b, g, i);
      GuidByte(r, s, g, epoch, i, p);
    }
  }

  /** Outside the GUIDs of used entries, a pass leaves the array alone. */
  lemma ArrayByteKept(a: Bytes, g: Geo, r: Bytes, p: nat)
    requires Separate(g) && KeepsFixed(a, g, r) && InArray(g, p) && p < |a| && !VolEntry(a, g, p)
    ensures r[p] == a[p]
  {
    hide VolEntry;
    ArrayNotInHeader(g, p);
  }

  lemma ArrayByteSame(a: Bytes, b: Bytes, g: Geo, epoch: bv64, r: Bytes, s: Bytes, p: nat)
    requires ValidGeo(g, |a|) && Separate(g) && AgreeOn(a, b, g) && InArray(g, p)
    requires Patched(a, g, epoch, r) && Patched(b, g, epoch, s)
    ensures |r| == |s| == |a| && r[p] == s[p]
  {
    AgreeUsed(a, b, g);
    hide IsUsed, ArraySealed, HeaderSealed, HasDiskGuid, VolEntry, GuidsBefore;
    VolEntrySame(a, b, g, p);
    if !VolEntry(a, g, p) {
      ArrayByteKept(a, g, r, p);
      ArrayByteKept(b, g, s, p);
      ArrayNotInHeader(g, p);
    }
    ArrayByteConverges(a, b, g, epoch, r, s, p);
  }

  lemma PatchedLength(a: Bytes, g: Geo, epoch: bv64, r: Bytes)
    requires ValidGeo(g, |a|) && Patched(a, g, epoch, r)
    ensures |r| == |a|
  {
    hide GuidsBefore, HasDiskGuid, ArraySealed, HeaderSealed;
  }

  /** After a pass the two arrays are equal. */
  lemma ArraysConverge(a: Bytes, b: Bytes, g: Geo, epoch: bv64, r: Bytes, s: Bytes)
    requires ValidGeo(g, |a|) && Separate(g) && AgreeOn(a, b, g)
    requires Patched(a, g, epoch, r) && Patched(b, g, epoch, s)
    ensures ArrayBytes(r, g) == ArrayBytes(s, g)
  {
    hide Patched, AgreeOn, Separate;
    PatchedLength(a, g, epoch, r);
    AgreeLength(a, b, g);
    PatchedLength(b, g, epoch, s);
    forall p: nat | InField(p, g.arr, ArrayLen(g)) ensures r[p] == s[p] { ArrayByteSame(a, b, g, epoch, r, s, p); }
    SlicesEqual(r, s, g.arr, ArrayLen(g));
  }

  lemma AgreeLength(a: Bytes, b: Bytes, g: Geo)
    requires AgreeOn(a, b, g)
    ensures |a| == |b|
  {
    hide Volatile;
  }

  lemma SlicesEqual(r: Bytes, s: Bytes, lo: nat, n: nat)
    requires |r| == |s| && lo + n <= |r| && forall p: nat :: InField(p, lo, n) ==> r[p] == s[p]
    ensures r[lo..lo + n] == s[lo..lo + n]
  {
  }

  lemma UsedBelowNum(a: Bytes, g: Geo, i: nat)
    requires IsUsed(a, g, i)
    ensures i < g.num
  {
  }

  lemma ArrayNotInHeader(g: Geo, p: nat)
    requires Separate(g) && InArray(g, p)
    ensures !VolHeader(g, p)
  {
  }

  lemma SliceByte(r: Bytes, s: Bytes, lo: nat, n: nat, p: nat)
    requires |r| == |s| && lo + n <= |r| && r[lo..lo + n] == s[lo..lo + n] && InField(p, lo, n)
    ensures r[p] == s[p]
  {
    assert r[p] == r[lo..lo + n][p - lo] && s[p] == s[lo..lo + n][p - lo];
  }

  lemma HeaderByteConverges(a: Bytes, b: Bytes, g: Geo, epoch: bv64, r: Bytes, s: Bytes, p: nat)
    requires ValidGeo(g, |a|) && Separate(g) && AgreeOn(a, b, g)
    requires Patched(a, g, epoch, r) && Patched(b, g, epoch, s) && ArrayBytes(r, g) == ArrayBytes(s, g)
    requires InHeader(g, p) && !InField(p, g.hdr + HDR_CRC_OFF, 4)
    ensures r[p] == s[p]
  {
    hide IsUsed, GuidsBefore, DerivedGuid, LE32, Crc32, HeaderSealed, VolEntry, ArrayBytes;
    HeaderNotInEntry(a, g, p);
    HeaderNotInEntry(b, g, p);
    if InField(p, g.hdr + DISK_GUID_OFF, 16) {
      SliceByte(r, s, g.hdr + DISK_GUID_OFF, 16, p);
    } else if InField(p, g.hdr + ARRAY_CRC_OFF, 4) {
      SliceByte(r, s, g.hdr + ARRAY_CRC_OFF, 4, p);
    } else {
      assert r[p] == a[p] && s[p] == b[p];
    }
  }

  /** After a pass the two headers are equal. */
  lemma HeadersConverge(a: Bytes, b: Bytes, g: Geo, epoch: bv64, r: Bytes, s: Bytes)
    requires ValidGeo(g, |a|) && Separate(g) && AgreeOn(a, b, g)
    requires Patched(a, g, epoch, r) && Patched(b, g, epoch, s) && ArrayBytes(r, g) == ArrayBytes(s, g)
    ensures r[g.hdr..g.hdr + SECTOR] == s[g.hdr..g.hdr + SECTOR]
  {
    PatchedSeals(a, g, epoch, r);
    PatchedSeals(b, g, epoch, s);
    var h := g.hdr;
    hide Patched, AgreeOn, ArrayBytes, Separate, HeaderSealed;
    forall p: nat | InHeader(g, p) && !InField(p, h + HDR_CRC_OFF, 4) ensures r[p] == s[p] {
      HeaderByteConverges(a, b, g, epoch, r, s, p);
    }
    SealedSame(r, s, g);
  }

  /** Sealed headers that agree outside their checksum field agree in it too. */
  lemma SealedSame(r: Bytes, s: Bytes, g: Geo)
    requires |r| == |s| && ValidGeo(g, |r|) && HeaderSealed(r, g) && HeaderSealed(s, g)
    requires forall p: nat :: InHeader(g, p) && !InField(p, g.hdr + HDR_CRC_OFF, 4) ==> r[p] == s[p]
    ensures r[g.hdr..g.hdr + SECTOR] == s[g.hdr..g.hdr + SECTOR]
  {
    ZeroedEqual(r, s, g);
    hide ZeroedHeader, LE32, Crc32;
    forall p: nat | InHeader(g, p) ensures r[p] == s[p] {
      if InField(p, g.hdr + HDR_CRC_OFF, 4) { SliceByte(r, s, g.hdr + HDR_CRC_OFF, 4, p); }
    }
  }

  lemma PatchedSeals(a: Bytes, g: Geo, epoch: bv64, r: Bytes)
    requires ValidGeo(g, |a|) && Patched(a, g, epoch, r)
    ensures |r| == |a| && HeaderSealed(r, g)
  {
  }

  lemma ZeroedEqual(r: Bytes, s: Bytes, g: Geo)
    requires |r| == |s| && ValidGeo(g, |r|)
    requires forall p: nat :: InHeader(g, p) && !InField(p, g.hdr + HDR_CRC_OFF, 4) ==> r[p] == s[p]
    ensures ZeroedHeader(r, g) == ZeroedHeader(s, g)
  {
    var x, y := Splice(r, g.hdr + HDR_CRC_OFF, ZERO4), Splice(s, g.hdr + HDR_CRC_OFF, ZERO4);
    forall p: nat | InHeader(g, p) ensures x[p] == y[p] { }
  }

  /** A pass over one header makes its sectors equal in both images. */
  lemma RegionConverges(a: Bytes, b: Bytes, g: Geo, epoch: bv64, r: Bytes, s: Bytes)
    requires ValidGeo(g, |a|) && Separate(g) && AgreeOn(a, b, g)
    requires Patched(a, g, epoch, r) && Patched(b, g, epoch, s)
    ensures |r| == |s| == |a|
    ensures forall p: nat :: InRegion(g, p) ==> p < |a| && r[p] == s[p]
  {
    hide IsUsed, GuidsBefore, KeepsFixed, HasDiskGuid, ArraySealed, HeaderSealed;
    ArraysConverge(a, b, g, epoch, r, s);
    HeadersConverge(a, b, g, epoch, r, s);
    PatchedSeals(a, g, epoch, r);
    PatchedSeals(b, g, epoch, s);
    hide Patched, AgreeOn;
    forall p: nat | InRegion(g, p) ensures p < |a| && r[p] == s[p] {
      if InArray(g, p) {
        SliceByte(r, s, g.arr, ArrayLen(g), p);
      } else {
        SliceByte(r, s, g.hdr, SECTOR, p);
      }
    }
  }
}
