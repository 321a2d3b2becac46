/** Deterministic GPT normalisation of a disk image, patched in place. */
module Gpt {
  import opened Crc
  import opened Bits
  import opened Wrappers

  const SECTOR: nat := 512
  const HDR_SIZE_OFF: nat := 12
  const HDR_CRC_OFF: nat := 16
  const BACKUP_LBA_OFF: nat := 32
  const DISK_GUID_OFF: nat := 56
  const ARRAY_LBA_OFF: nat := 72
  const ARRAY_NUM_OFF: nat := 80
  const ARRAY_ENTRY_SIZE_OFF: nat := 84
  const ARRAY_CRC_OFF: nat := 88
  const USIZE_LIMIT: nat := 0x1_0000_0000_0000_0000
  const SIGNATURE: Bytes := [0x45, 0x46, 0x49, 0x20, 0x50, 0x41, 0x52, 0x54]
  const ZERO4: Bytes := [0, 0, 0, 0]
  const ZERO16: Bytes := [0, 0, 0, 0, 0, 0, 0, 0, 0, 0, 0, 0, 0, 0, 0, 0]

  datatype GptError = TooSmall | HeaderBeyondEnd | NoSignature | ImplausibleGeometry | ArrayBeyondEnd

  /** How the image builder was compiled. The development profile checks arithmetic; the release
      profile, which builds the shipped image, wraps. */
  datatype Build = Checked | Wrapping

  /** `Panicked` is a checked overflow or an index out of bounds: the builder dies without writing
      the image. */
  datatype Outcome = Done | Failed(error: GptError) | Panicked

  // --- Little-endian fields ---------------------------------------------------

  function LE32(x: bv32): (b: Bytes)
    ensures |b| == 4
  {
    [(x & 0xFF) as bv8, ((x >> 8) & 0xFF) as bv8, ((x >> 16) & 0xFF) as bv8, ((x >> 24) & 0xFF) as bv8]
  }

  function Word32(b0: bv8, b1: bv8, b2: bv8, b3: bv8): bv32 {
    (b0 as bv32) | ((b1 as bv32) << 8) | ((b2 as bv32) << 16) | ((b3 as bv32) << 24)
  }

  /** The 32-bit word stored at `off`. */
  function StoredU32(img: Bytes, off: nat): bv32
    requires off + 4 <= |img|
  {
    Word32(img[off], img[off + 1], img[off + 2], img[off + 3])
  }

  function ReadU32(img: Bytes, off: nat): nat
    requires off + 4 <= |img|
  {
    img[off] as nat + 0x100 * (img[off + 1] as nat) + 0x1_0000 * (img[off + 2] as nat) +
    0x100_0000 * (img[off + 3] as nat)
  }

  function ReadU64(img: Bytes, off: nat): nat
    requires off + 8 <= |img|
  {
    ReadU32(img, off) + 0x1_0000_0000 * ReadU32(img, off + 4)
  }

  /** The image with `t` written at `off`. */
  function Splice(s: Bytes, off: nat, t: Bytes): (r: Bytes)
    requires off + |t| <= |s|
    ensures |r| == |s|
    ensures forall p :: 0 <= p < |s| ==> r[p] == if off <= p < off + |t| then t[p - off] else s[p]
  {
    s[..off] + t + s[off + |t|..]
  }

  // --- Derived GUIDs ----------------------------------------------------------

  function EpochByte(epoch: bv64, k: bv64): bv8
    requires k < 64
  {
    ((epoch >> k) & 0xFF) as bv8
  }

  /** "OMNI", the epoch, an index byte, and the version-4 and variant bits. */
  function DerivedGuid(epoch: bv64, index: bv8): (g: Bytes)
    ensures |g| == 16 && g[12] == index
  {
    [0x4F, 0x4D, 0x4E, 0x49,
     EpochByte(epoch, 0), EpochByte(epoch, 8), (EpochByte(epoch, 16) & 0x0F) | 0x40, EpochByte(epoch, 24),
     (EpochByte(epoch, 32) & 0x3F) | 0x80, EpochByte(epoch, 40), EpochByte(epoch, 48), EpochByte(epoch, 56),
     index, 0, 0, 0]
  }

  /** The byte `n`, counted up from zero. */
  function CountedByte(n: nat): bv8 { if n == 0 then 0 else CountedByte(n - 1) + 1 }

  /** `1 + i as u8`, wrapping; a checked build panics where it wraps. */
  function IndexByte(i: nat): bv8 { CountedByte((1 + i % 256) % 256) }

  // --- Reading a header -------------------------------------------------------

  datatype Geo = Geo(hdr: nat, hdrSize: nat, arr: nat, num: nat, esz: nat)

  datatype Parsed = Overflowed | Rejected(error: GptError) | Found(geo: Geo)

  function ArrayLen(g: Geo): nat { g.num * g.esz }

  predicate ValidGeo(g: Geo, n: nat) {
    && g.hdr + SECTOR <= n
    && 92 <= g.hdrSize <= SECTOR
    && g.esz >= 128
    && g.arr + ArrayLen(g) <= n
  }

  /** `lba as usize * SECTOR`; `None` where a checked build panics. */
  function Offset(lba: nat, build: Build): Option<nat> {
    if lba * SECTOR < USIZE_LIMIT then Some(lba * SECTOR)
    else if build == Checked then None
    else Some(lba * SECTOR % USIZE_LIMIT)
  }

  /** The bounds check on the array. A wrapped end that passes it sends the entry loop out of the
      image (`WrappedArrayLeaves`). */
  function CheckArray(len: nat, g: Geo, build: Build): Parsed {
    var end := g.arr + ArrayLen(g);
    if end < USIZE_LIMIT then (if end > len then Rejected(ArrayBeyondEnd) else Found(g))
    else if build == Wrapping && end - USIZE_LIMIT > len then Rejected(ArrayBeyondEnd)
    else Overflowed
  }

  function ParseFields(img: Bytes, hdr: nat, build: Build): Parsed
    requires hdr + SECTOR <= |img|
  {
    var hdrSize := ReadU32(img, hdr + HDR_SIZE_OFF);
    var arrLba := ReadU64(img, hdr + ARRAY_LBA_OFF);
    var num := ReadU32(img, hdr + ARRAY_NUM_OFF);
    var esz := ReadU32(img, hdr + ARRAY_ENTRY_SIZE_OFF);
    if hdrSize < 92 || hdrSize > SECTOR || esz < 128 then Rejected(ImplausibleGeometry)
    else
      match Offset(arrLba, build)
      case None => Overflowed
      case Some(arr) => CheckArray(|img|, Geo(hdr, hdrSize, arr, num, esz), build)
  }

  /** A header at the last sector below the address limit overflows in a checked build, and lies
      outside the image in a wrapping one. */
  function Parse(img: Bytes, lba: nat, build: Build): (r: Parsed)
    ensures r.Found? ==> ValidGeo(r.geo, |img|) && Offset(lba, build) == Some(r.geo.hdr)
  {
    match Offset(lba, build)
    case None => Overflowed
    case Some(hdr) =>
      if hdr + SECTOR >= USIZE_LIMIT then Overflowed
      else if hdr + SECTOR > |img| then Rejected(HeaderBeyondEnd)
      else if img[hdr..hdr + 8] != SIGNATURE then Rejected(NoSignature)
      else ParseFields(img, hdr, build)
  }

  // --- Patching one header and its array --------------------------------------

  function EntryAt(g: Geo, i: nat): nat { g.arr + i * g.esz }

  lemma EntryBounds(g: Geo, n: nat, i: nat)
    requires ValidGeo(g, n) && i < g.num
    ensures EntryAt(g, i) + 128 <= EntryAt(g, i) + g.esz <= g.arr + ArrayLen(g) <= n
  {
    MulGap(g.esz, i, g.num);
  }

  /** Some byte of the type GUID is not zero. */
  predicate Used(img: Bytes, e: nat)
    requires e + 16 <= |img|
  {
    img[e..e + 16] != ZERO16
  }

  /** When the array's end wraps around, some entry lies outside the image, and the first that does
      is addressed without wrapping: the loop stops there, out of bounds. */
  lemma WrappedArrayLeaves(len: nat, g: Geo) returns (i: nat)
    requires len < USIZE_LIMIT / 2 && g.arr % SECTOR == 0 && g.esz < 0x1_0000_0000
    requires g.arr < USIZE_LIMIT <= g.arr + ArrayLen(g)
    ensures i < g.num && len < EntryAt(g, i) + 16 && EntryAt(g, i) + 32 < USIZE_LIMIT
    ensures forall j: nat :: j < i ==> EntryAt(g, j) + 16 <= len
  {
    assert g.num > 0;
    assert EntryAt(g, g.num - 1) + g.esz == g.arr + ArrayLen(g);
    i := 0;
    while EntryAt(g, i) + 16 <= len
      invariant i < g.num
      invariant forall j: nat :: j < i ==> EntryAt(g, j) + 16 <= len
      decreases g.num - i
    {
      i := i + 1;
    }
    if i > 0 { assert EntryAt(g, i) == EntryAt(g, i - 1) + g.esz; }
  }

  /** The image after the first `n` turns of the entry loop; `None` once a checked index byte overflowed. */
  function SetGuids(img: Bytes, g: Geo, epoch: bv64, build: Build, n: nat): (r: Option<Bytes>)
    requires ValidGeo(g, |img|) && n <= g.num
    ensures r.Some? ==> |r.value| == |img|
  {
    if n == 0 then Some(img)
    else
      match SetGuids(img, g, epoch, build, n - 1)
      case None => None
      case Some(m) =>
        EntryBounds(g, |img|, n - 1);
        var e := EntryAt(g, n - 1);
        if !Used(m, e) then Some(m)
        else if build == Checked && (n - 1) % 256 == 255 then None
        else Some(Splice(m, e + 16, DerivedGuid(epoch, IndexByte(n - 1))))
  }

  function SealArray(img: Bytes, g: Geo): (r: Bytes)
    requires ValidGeo(g, |img|)
    ensures |r| == |img|
  {
    Splice(img, g.hdr + ARRAY_CRC_OFF, LE32(Crc32(img[g.arr..g.arr + ArrayLen(g)])))
  }

  function SealHeader(img: Bytes, g: Geo): (r: Bytes)
    requires ValidGeo(g, |img|)
    ensures |r| == |img|
  {
    var z := Splice(img, g.hdr + HDR_CRC_OFF, ZERO4);
    Splice(z, g.hdr + HDR_CRC_OFF, LE32(Crc32(z[g.hdr..g.hdr + g.hdrSize])))
  }

  function SetDiskGuid(img: Bytes, g: Geo, epoch: bv64): (r: Bytes)
    requires ValidGeo(g, |img|)
    ensures |r| == |img|
  {
    Splice(img, g.hdr + DISK_GUID_OFF, DerivedGuid(epoch, 0))
  }

  /** The patched image of a header that parsed to `g`. */
  function Patch(img: Bytes, g: Geo, epoch: bv64, build: Build): (r: Option<Bytes>)
    requires ValidGeo(g, |img|)
    ensures r.Some? ==> |r.value| == |img|
  {
    match SetGuids(SetDiskGuid(img, g, epoch), g, epoch, build, g.num)
    case None => None
    case Some(m) => Some(SealHeader(SealArray(m, g), g))
  }

  function HeaderPass(img: Bytes, lba: nat, epoch: bv64, build: Build): (r: (Outcome, Bytes))
    ensures |r.1| == |img|
  {
    match Parse(img, lba, build)
    case Overflowed => (Panicked, img)
    case Rejected(e) => (Failed(e), img)
    case Found(g) =>
      match Patch(img, g, epoch, build)
      case None => (Panicked, img)
      case Some(m) => (Done, m)
  }

  /** `normalize_gpt`: the primary header at LBA 1, then the backup it names. */
  function Normalize(img: Bytes, epoch: bv64, build: Build): (r: (Outcome, Bytes))
    ensures |r.1| == |img|
  {
    if |img| < 3 * SECTOR then (Failed(TooSmall), img)
    else
      var backup := ReadU64(img, SECTOR + BACKUP_LBA_OFF);
      var first := HeaderPass(img, 1, epoch, build);
      if first.0 != Done then first else HeaderPass(first.1, backup, epoch, build)
  }

  // --- The code itself ----------------------------------------------------------

  method CopyInto(img: array<bv8>, off: nat, t: Bytes)
    requires off + |t| <= img.Length
    modifies img
    ensures img[..] == Splice(old(img[..]), off, t)
  {
    for k := 0 to |t|
      invariant forall p :: 0 <= p < img.Length ==>
                  img[p] == if off <= p < off + k then t[p - off] else old(img[p])
    {
      img[off + k] := t[k];
    }
  }

  method SetEntryGuids(img: array<bv8>, g: Geo, epoch: bv64, build: Build) returns (ok: bool)
    requires ValidGeo(g, img.Length)
    modifies img
    ensures ok <==> SetGuids(old(img[..]), g, epoch, build, g.num).Some?
    ensures ok ==> Some(img[..]) == SetGuids(old(img[..]), g, epoch, build, g.num)
  {
    hide DerivedGuid, Splice, ValidGeo, Used, IndexByte;
    ghost var start := img[..];
    for i := 0 to g.num
      invariant SetGuids(start, g, epoch, build, i) == Some(img[..])
    {
      EntryBounds(g, img.Length, i);
      var e := EntryAt(g, i);
      assert SetGuids(start, g, epoch, build, i + 1) ==
             if !Used(img[..], e) then Some(img[..]) else if build == Checked && i % 256 == 255 then None
             else Some(Splice(img[..], e + 16, DerivedGuid(epoch, IndexByte(i))));
      if Used(img[..], e) {
        if build == Checked && i % 256 == 255 {
          NoneStays(start, g, epoch, build, i + 1, g.num);
          return false;
        }
        CopyInto(img, e + 16, DerivedGuid(epoch, IndexByte(i)));
      }
    }
    ok := true;
  }

  lemma {:induction false} NoneStays(img: Bytes, g: Geo, epoch: bv64, build: Build, i: nat, n: nat)
    requires ValidGeo(g, |img|) && i <= n <= g.num && SetGuids(img, g, epoch, build, i).None?
    ensures SetGuids(img, g, epoch, build, n).None?
    decreases n
  {
    if i < n { NoneStays(img, g, epoch, build, i, n - 1); }
  }

  method SealCrcs(img: array<bv8>, g: Geo)
    requires ValidGeo(g, img.Length)
    modifies img
    ensures img[..] == SealHeader(SealArray(old(img[..]), g), g)
  {
    hide Splice, Crc32, LE32;
    var arrayCrc := ComputeCrc32(img, g.arr, g.arr + ArrayLen(g));
    assert img[g.arr..g.arr + ArrayLen(g)] == img[..][g.arr..g.arr + ArrayLen(g)];
    CopyInto(img, g.hdr + ARRAY_CRC_OFF, LE32(arrayCrc));
    assert img[..] == SealArray(old(img[..]), g);
    hide SealArray;
    CopyInto(img, g.hdr + HDR_CRC_OFF, ZERO4);
    var hdrCrc := ComputeCrc32(img, g.hdr, g.hdr + g.hdrSize);
    assert img[g.hdr..g.hdr + g.hdrSize] == img[..][g.hdr..g.hdr + g.hdrSize];
    CopyInto(img, g.hdr + HDR_CRC_OFF, LE32(hdrCrc));
  }
}
