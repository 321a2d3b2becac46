/** The GUIDs normalisation derives: where they are distinct, and where they collide. */
module GptGuids {
  import opened Crc
  import opened Gpt
  import opened GptLayout
  import opened GptProofs
  import opened GptTheorems

  // --- Distinct GUIDs -----------------------------------------------------------------

  lemma IndexByteInjective(i: nat, j: nat)
    ensures IndexByte(i) == IndexByte(j) <==> i % 256 == j % 256
    ensures IndexByte(i) == 0 <==> i % 256 == 255
  {
    NextResidue(i % 256, j % 256);
    CountedInjective((1 + i % 256) % 256, (1 + j % 256) % 256);
    CountedInjective((1 + i % 256) % 256, 0);
    hide CountedByte;
  }

  lemma NextResidue(a: nat, b: nat)
    requires a < 256 && b < 256
    ensures (1 + a) % 256 == (1 + b) % 256 <==> a == b
    ensures (1 + a) % 256 == 0 <==> a == 255
  {
  }

  lemma CountedInjective(m: nat, n: nat)
    requires m < 256 && n < 256
    ensures CountedByte(m) == CountedByte(n) <==> m == n
    ensures CountedByte(0) == 0
  {
    ByteValue(m);
    ByteValue(n);
  }

  lemma {:induction false} ByteValue(n: nat)
    requires n < 256
    ensures CountedByte(n) as int == n
  {
    if n > 0 {
      ByteValue(n - 1);
      ByteSucc(CountedByte(n - 1));
    }
  }

  lemma ByteSucc(b: bv8)
    requires b != 255
    ensures (b + 1) as int == b as int + 1
  {
  }

  lemma GuidIndex(epoch: bv64, x: bv8, y: bv8)
    ensures DerivedGuid(epoch, x) == DerivedGuid(epoch, y) <==> x == y
  {
  }

  function UniqueGuid(img: Bytes, g: Geo, i: nat): Bytes
    requires EntryAt(g, i) + 32 <= |img|
  {
    img[EntryAt(g, i) + 16..EntryAt(g, i) + 32]
  }

  function DiskGuid(img: Bytes, g: Geo): Bytes
    requires ValidGeo(g, |img|)
  {
    img[g.hdr + DISK_GUID_OFF..g.hdr + DISK_GUID_OFF + 16]
  }

  /** What a normalised table holds: its disk GUID, and the derived GUID of each used entry. */
  ghost predicate HasGuids(a: Bytes, t: Geo, epoch: bv64, s: Bytes) {
    && ValidGeo(t, |a|) && |s| == |a| && HasDiskGuid(s, t, epoch)
    && forall i: nat :: IsUsed(a, t, i) ==> HasGuid(s, t, epoch, i)
  }

  lemma PatchedHasGuids(a: Bytes, t: Geo, epoch: bv64, r: Bytes)
    requires ValidGeo(t, |a|) && Patched(a, t, epoch, r)
    ensures HasGuids(a, t, epoch, r)
  {
    hide IsUsed, HasGuid, HasDiskGuid;
    forall i: nat | IsUsed(a, t, i) ensures HasGuid(r, t, epoch, i) { UsedBelowNum(a, t, i); }
  }

  /** The GUIDs of a table stay when its sectors do. */
  lemma GuidsKept(a: Bytes, t: Geo, epoch: bv64, r: Bytes, s: Bytes)
    requires Separate(t) && HasGuids(a, t, epoch, r) && |s| == |r|
    requires forall p: nat :: InRegion(t, p) && p < |r| ==> s[p] == r[p]
    ensures HasGuids(a, t, epoch, s)
  {
    hide DerivedGuid, IndexByte, IsUsed;
    var lo, hi := t.hdr + DISK_GUID_OFF, t.hdr + DISK_GUID_OFF + 16;
    forall p: nat | lo <= p < hi ensures s[p] == r[p] { assert InRegion(t, p); }
    assert s[lo..hi] == r[lo..hi];
    forall i: nat | IsUsed(a, t, i) ensures HasGuid(s, t, epoch, i) {
      UsedBelowNum(a, t, i);
      EntryBounds(t, |a|, i);
      GuidKept(t, epoch, r, s, i);
    }
  }

  lemma GuidKept(t: Geo, epoch: bv64, r: Bytes, s: Bytes, i: nat)
    requires |s| == |r| && HasGuid(r, t, epoch, i) && t.esz >= 128 && i < t.num && ValidGeo(t, |r|)
    requires forall p: nat :: InRegion(t, p) && p < |r| ==> s[p] == r[p]
    ensures HasGuid(s, t, epoch, i)
  {
    hide DerivedGuid, IndexByte;
    EntryBounds(t, |r|, i);
    EntryAboveStart(t, i);
    var e := EntryAt(t, i);
    forall p: nat | e + 16 <= p < e + 32 ensures s[p] == r[p] { assert InArray(t, p); }
    assert s[e + 16..e + 32] == r[e + 16..e + 32];
  }

  /** Both tables of the final image hold their GUIDs: the second pass leaves the first alone. */
  lemma NormalizedHasGuids(a: Bytes, g: Geo, h: Geo, epoch: bv64, build: Build)
    requires Describes(a, g, h, build) && Accepts(a, g, h, build)
    ensures var s := Normalize(a, epoch, build).1; HasGuids(a, g, epoch, s) && HasGuids(a, h, epoch, s)
  {
    DescribedGeos(a, g, h, build);
    NormalizeSucceedsIff(a, g, h, epoch, build);
    var s := Normalize(a, epoch, build).1;
    hide Describes, Normalize, Patched, HasGuids, Accepts;
    var r :| Passes(a, g, h, epoch, r, s);
    DisjointSymmetric(g, h);
    PatchedHasGuids(a, g, epoch, r);
    PassKeepsOther(r, h, g, epoch, s);
    GuidsKept(a, g, epoch, r, s);
    PatchedHasGuids(r, h, epoch, s);
    PassKeepsOther(a, g, h, epoch, r);
    SameArraySameVolatile(r, a, h);
    UsedGuids(r, a, h, epoch, s);
  }

  lemma UsedGuids(r: Bytes, a: Bytes, t: Geo, epoch: bv64, s: Bytes)
    requires |r| == |a| && HasGuids(r, t, epoch, s) && forall i: nat :: IsUsed(r, t, i) == IsUsed(a, t, i)
    ensures HasGuids(a, t, epoch, s)
  {
    hide IsUsed, HasGuid, HasDiskGuid;
  }

  /** In the final image, used entries of either table share a GUID exactly when their indices agree
      modulo 256, and an entry has the disk GUID exactly when its index is 255 modulo 256. */
  lemma GuidsDistinct(a: Bytes, g: Geo, h: Geo, epoch: bv64, build: Build, t: Geo, i: nat, u: Geo, j: nat)
    requires Describes(a, g, h, build) && Accepts(a, g, h, build)
    requires (t == g || t == h) && (u == g || u == h) && IsUsed(a, t, i) && IsUsed(a, u, j)
    ensures var s := Normalize(a, epoch, build).1;
            && |s| == |a| && ValidGeo(t, |a|) && ValidGeo(u, |a|)
            && EntryAt(t, i) + 32 <= |a| && EntryAt(u, j) + 32 <= |a|
            && (UniqueGuid(s, t, i) == UniqueGuid(s, u, j) <==> i % 256 == j % 256)
            && (UniqueGuid(s, t, i) == DiskGuid(s, u) <==> i % 256 == 255)
            && DiskGuid(s, t) == DiskGuid(s, u)
  {
    NormalizedHasGuids(a, g, h, epoch, build);
    var s := Normalize(a, epoch, build).1;
    hide Describes, Normalize, Accepts;
    EntryGuid(a, t, epoch, s, i);
    EntryGuid(a, u, epoch, s, j);
    hide *;
    GuidsCompared(epoch, i, j);
  }

  lemma EntryGuid(a: Bytes, t: Geo, epoch: bv64, s: Bytes, i: nat)
    requires HasGuids(a, t, epoch, s) && IsUsed(a, t, i)
    ensures ValidGeo(t, |a|) && |s| == |a| && EntryAt(t, i) + 32 <= |s|
    ensures UniqueGuid(s, t, i) == DerivedGuid(epoch, IndexByte(i)) && DiskGuid(s, t) == DerivedGuid(epoch, 0)
  {
    hide IndexByte, DerivedGuid, IsUsed;
    assert HasGuid(s, t, epoch, i);
  }

  lemma GuidsCompared(epoch: bv64, i: nat, j: nat)
    ensures DerivedGuid(epoch, IndexByte(i)) == DerivedGuid(epoch, IndexByte(j)) <==> i % 256 == j % 256
    ensures DerivedGuid(epoch, IndexByte(i)) == DerivedGuid(epoch, 0) <==> i % 256 == 255
  {
    hide DerivedGuid, IndexByte;
    IndexByteInjective(i, j);
    GuidIndex(epoch, IndexByte(i), IndexByte(j));
    GuidIndex(epoch, IndexByte(i), 0);
  }

  /** A table of at most 255 entries has pairwise distinct GUIDs, none of them the disk's, in every build. */
  lemma SmallTableDistinct(a: Bytes, g: Geo, h: Geo, epoch: bv64, build: Build, t: Geo, i: nat, j: nat)
    requires Describes(a, g, h, build) && Accepts(a, g, h, build) && (t == g || t == h) && t.num <= 255
    requires IsUsed(a, t, i) && IsUsed(a, t, j) && i != j
    ensures var s := Normalize(a, epoch, build).1;
            && |s| == |a| && ValidGeo(t, |a|) && EntryAt(t, i) + 32 <= |a| && EntryAt(t, j) + 32 <= |a|
            && UniqueGuid(s, t, i) != UniqueGuid(s, t, j) && UniqueGuid(s, t, i) != DiskGuid(s, t)
  {
    hide *;
    UsedBelowNum(a, t, i);
    UsedBelowNum(a, t, j);
    assert i % 256 == i < 255 && j % 256 == j;
    GuidsDistinct(a, g, h, epoch, build, t, i, t, j);
  }

  // --- An image with a colliding entry ----------------------------------------------------

  /** Byte `i` of a header naming 256 entries of 128 bytes from sector `arr` on. */
  function HeaderByte(i: nat, other: bv8, arr: bv8): bv8 {
    if i < 8 then EFI_PART[i]
    else if i == 12 then 92
    else if i == 32 then other
    else if i == 72 then arr
    else if i == 81 then 1
    else if i == 84 then 128
    else 0
  }

  function Header(other: bv8, arr: bv8): (x: Bytes)
    ensures |x| == SECTOR
  {
    seq(SECTOR, i requires 0 <= i => HeaderByte(i, other, arr))
  }

  const PRIMARY: Geo := Geo(SECTOR, 92, 2 * SECTOR, 256, 128)
  const BACKUP: Geo := Geo(130 * SECTOR, 92, 66 * SECTOR, 256, 128)

  /** An array of 256 entries of which only the last is used. */
  function LastUsed(): (x: Bytes)
    ensures |x| == 64 * SECTOR && x[255 * 128] == 0xEF
  {
    seq(255 * 128, _ => 0) + [0xEF] + seq(127, _ => 0)
  }

  /** Two full tables of 256 entries whose last entry is used. */
  function FullTable(): (img: Bytes)
    ensures |img| == 131 * SECTOR
    ensures img[SECTOR..2 * SECTOR] == Header(130, 2) && img[130 * SECTOR..131 * SECTOR] == Header(1, 66)
    ensures img[2 * SECTOR..66 * SECTOR] == LastUsed() && img[66 * SECTOR..130 * SECTOR] == LastUsed()
  {
    var a, b, c := seq(SECTOR, _ => 0), Header(130, 2), Header(1, 66);
    FiveParts(a, b, LastUsed(), c);
    a + b + LastUsed() + LastUsed() + c
  }

  lemma FiveParts(a: Bytes, b: Bytes, x: Bytes, c: Bytes)
    requires |a| == |b| == |c| == SECTOR && |x| == 64 * SECTOR
    ensures var img := a + b + x + x + c;
            && img[SECTOR..2 * SECTOR] == b && img[130 * SECTOR..131 * SECTOR] == c
            && img[2 * SECTOR..66 * SECTOR] == x && img[66 * SECTOR..130 * SECTOR] == x
  {
  }

  /** Header fields, and the numbers they stand for. */
  lemma HeaderFields(other: bv8, arr: bv8)
    ensures var x := Header(other, arr);
            && x[0..8] == EFI_PART && LittleEndian(x[12..16]) == 92
            && LittleEndian(x[80..84]) == 256 && LittleEndian(x[84..88]) == 128
  {
    var x := Header(other, arr);
    hide LittleEndian;
    assert x[0..8] == EFI_PART;
    LittleEndian4(x[12..16]);
    LittleEndian4(x[80..84]);
    LittleEndian4(x[84..88]);
  }

  lemma HeaderSectors(other: bv8, arr: bv8)
    ensures var x := Header(other, arr);
            LittleEndian(x[32..40]) == other as nat && LittleEndian(x[72..80]) == arr as nat
  {
    var x := Header(other, arr);
    hide LittleEndian;
    SmallField(x[32..40]);
    SmallField(x[72..80]);
  }

  lemma SmallField(s: Bytes)
    requires |s| == 8 && forall k :: 0 < k < 8 ==> s[k] == 0
    ensures LittleEndian(s) == s[0] as nat
  {
    hide LittleEndian;
    LittleEndian4(s[..4]);
    LittleEndian4(s[4..]);
    LittleEndianConcat(s[..4], s[4..]);
    assert s == s[..4] + s[4..];
  }

  lemma SubSlice(img: Bytes, x: Bytes, h: nat, i: nat, j: nat)
    requires h + |x| <= |img| && img[h..h + |x|] == x && i <= j <= |x|
    ensures img[h + i..h + j] == x[i..j]
  {
    forall k | 0 <= k < j - i ensures img[h + i..h + j][k] == x[i..j][k] {
      assert img[h..h + |x|][i + k] == img[h + i + k];
    }
  }

  lemma HeaderLaidOut(img: Bytes, g: Geo, other: bv8, arr: bv8, build: Build)
    requires g.hdr + SECTOR <= |img| && img[g.hdr..g.hdr + SECTOR] == Header(other, arr)
    requires g.hdrSize == 92 && g.arr == (arr as nat) * 512 && g.num == 256 && g.esz == 128
    ensures img[g.hdr..g.hdr + 8] == EFI_PART && Fields(img, build, g)
    ensures LittleEndian(img[g.hdr + 32..g.hdr + 40]) == other as nat
  {
    var h, x := g.hdr, Header(other, arr);
    HeaderFields(other, arr);
    HeaderSectors(other, arr);
    hide Header, LittleEndian;
    SubSlice(img, x, h, 0, 8);
    SubSlice(img, x, h, 12, 16);
    SubSlice(img, x, h, 32, 40);
    SubSlice(img, x, h, 72, 80);
    SubSlice(img, x, h, 80, 84);
    SubSlice(img, x, h, 84, 88);
  }

  lemma FullTableParses(build: Build)
    ensures Describes(FullTable(), PRIMARY, BACKUP, build)
  {
    var img := FullTable();
    hide FullTable, LittleEndian, Fields, Header, LastUsed;
    HeaderLaidOut(img, PRIMARY, 130, 2, build);
    HeaderLaidOut(img, BACKUP, 1, 66, build);
    assert ArrayLen(PRIMARY) == 64 * SECTOR && ArrayLen(BACKUP) == 64 * SECTOR;
    assert BackupLba(img) == 130;
    assert StartsAt(1, build, 512) && StartsAt(130, build, 130 * SECTOR);
  }

  lemma FullTableUsed()
    ensures IsUsed(FullTable(), PRIMARY, 255) && IsUsed(FullTable(), BACKUP, 255)
  {
    var img := FullTable();
    hide FullTable, Header, LastUsed;
    var e, f := EntryAt(PRIMARY, 255), EntryAt(BACKUP, 255);
    assert e == 2 * SECTOR + 255 * 128 && f == 66 * SECTOR + 255 * 128;
    assert img[2 * SECTOR..66 * SECTOR][255 * 128] == img[e] && img[66 * SECTOR..130 * SECTOR][255 * 128] == img[f];
    assert img[e..e + 16][0] == 0xEF && img[f..f + 16][0] == 0xEF;
  }

  /** The well-formed image on which the two builds differ: the checked one panics, the wrapping one
      succeeds and gives the last entry of each table the disk's GUID. */
  lemma FullTableOutcomes(epoch: bv64)
    ensures Describes(FullTable(), PRIMARY, BACKUP, Checked) && Describes(FullTable(), PRIMARY, BACKUP, Wrapping)
    ensures Normalize(FullTable(), epoch, Checked).0 == Panicked
    ensures var (outcome, s) := Normalize(FullTable(), epoch, Wrapping);
            && outcome == Done
            && UniqueGuid(s, PRIMARY, 255) == DiskGuid(s, PRIMARY) && UniqueGuid(s, BACKUP, 255) == DiskGuid(s, BACKUP)
  {
    FullTableParses(Checked);
    FullTableParses(Wrapping);
    FullTableUsed();
    var img := FullTable();
    hide FullTable, IsUsed, Normalize, Describes, UniqueGuid, DiskGuid;
    assert PRIMARY.num == 256 && !IndexFits(img, PRIMARY);
    NormalizeSucceedsIff(img, PRIMARY, BACKUP, epoch, Checked);
    NormalizeSucceedsIff(img, PRIMARY, BACKUP, epoch, Wrapping);
    GuidsDistinct(img, PRIMARY, BACKUP, epoch, Wrapping, PRIMARY, 255, PRIMARY, 255);
    GuidsDistinct(img, PRIMARY, BACKUP, epoch, Wrapping, BACKUP, 255, BACKUP, 255);
  }

  // --- Distinct epochs ------------------------------------------------------------------

  /** The bits of the epoch that the version and variant bits overwrite. */
  const LOST_BITS: bv64 := 0x0000_00C0_00F0_0000

  function Kept(x: bv64): bv64 { x | LOST_BITS }

  /** The epoch bits a GUID keeps can be read back from it. */
  function Recover(b0: bv8, b1: bv8, b2: bv8, b3: bv8, b4: bv8, b5: bv8, b6: bv8, b7: bv8): bv64 {
    (b0 as bv64) | ((b1 as bv64) << 8) | (((b2 | 0xF0) as bv64) << 16) | ((b3 as bv64) << 24) |
    (((b4 | 0xC0) as bv64) << 32) | ((b5 as bv64) << 40) | ((b6 as bv64) << 48) | ((b7 as bv64) << 56)
  }

  lemma RecoverKept(x: bv64)
    ensures Recover(EpochByte(x, 0), EpochByte(x, 8), (EpochByte(x, 16) & 0x0F) | 0x40, EpochByte(x, 24),
                    (EpochByte(x, 32) & 0x3F) | 0x80, EpochByte(x, 40), EpochByte(x, 48), EpochByte(x, 56)) == Kept(x)
  {
  }

  lemma KeptBytes(x: bv64)
    ensures EpochByte(Kept(x), 0) == EpochByte(x, 0) && EpochByte(Kept(x), 8) == EpochByte(x, 8)
    ensures EpochByte(Kept(x), 16) & 0x0F == EpochByte(x, 16) & 0x0F && EpochByte(Kept(x), 24) == EpochByte(x, 24)
    ensures EpochByte(Kept(x), 32) & 0x3F == EpochByte(x, 32) & 0x3F && EpochByte(Kept(x), 40) == EpochByte(x, 40)
    ensures EpochByte(Kept(x), 48) == EpochByte(x, 48) && EpochByte(Kept(x), 56) == EpochByte(x, 56)
  {
  }

  lemma GuidOfKept(x: bv64, index: bv8)
    ensures DerivedGuid(Kept(x), index) == DerivedGuid(x, index)
  {
    KeptBytes(x);
    hide EpochByte, Kept;
  }

  lemma RecoverFromGuid(x: bv64, index: bv8)
    ensures var g := DerivedGuid(x, index);
            Recover(g[4], g[5], g[6], g[7], g[8], g[9], g[10], g[11]) == Kept(x)
  {
    RecoverKept(x);
    hide Recover, Kept, EpochByte;
  }

  /** Two epochs give the same GUID exactly when they agree outside bits 20 to 23 and 38 to 39. */
  lemma EpochsCollideIff(x: bv64, y: bv64, index: bv8)
    ensures DerivedGuid(x, index) == DerivedGuid(y, index) <==> Kept(x) == Kept(y)
  {
    hide DerivedGuid, Recover, Kept;
    GuidOfKept(x, index);
    GuidOfKept(y, index);
    RecoverFromGuid(x, index);
    RecoverFromGuid(y, index);
  }

  /** Two real build epochs, 2^20 seconds apart, that collide. */
  lemma EpochsCollide()
    ensures DerivedGuid(1_767_225_600, 0) == DerivedGuid(1_768_274_176, 0)
  {
    EpochsCollideIff(1_767_225_600, 1_768_274_176, 0);
  }
}
