/**
 * Packed page-table entries, the page table they are written into, and the
 * atlas geometry the uploads are placed in.
 */
module Entries {
  import opened Bits

  const ImageW: int := 4096
  const ImageH: int := 4096
  const PageW: int := 1024
  const PageH: int := 1024
  const PagesX: int := 4
  const PagesY: int := 4

  /**
   * `v & 0xFFu` for a C++ `int v`: the int converts to `unsigned` modulo
   * 2^32 and the mask keeps its low byte, which is `v mod 256`.
   */
  function LowByte(v: int): bv32 {
    ((v % 256) as bv8) as bv32
  }

  /**
   * The entry `FlushUploadQueue` writes for a page placed in slot
   * (ax, ay): bit 0 residency flag, bits 1-8 slot x, bits 9-16 slot y.
   */
  function PackEntry(ax: int, ay: int): (e: bv32)
    ensures e & 1 == 1
    ensures e != 0
  {
    1 | (LowByte(ax) << 1) | (LowByte(ay) << 9)
  }

  /** Slot x stored in bits 1-8 of an entry. */
  function EntryX(e: bv32): int {
    (((e >> 1) & 0xFF) as bv8) as int
  }

  /** Slot y stored in bits 9-16 of an entry. */
  function EntryY(e: bv32): int {
    (((e >> 9) & 0xFF) as bv8) as int
  }

  lemma ByteFields(sx: bv8, sy: bv8)
    ensures var e := 1 | ((sx as bv32) << 1) | ((sy as bv32) << 9);
      ((e >> 1) & 0xFF) as bv8 == sx && ((e >> 9) & 0xFF) as bv8 == sy
  {
  }

  /** The entry's slot fields read back the coordinates' low bytes. */
  lemma UnpackPackEntry(ax: int, ay: int)
    ensures EntryX(PackEntry(ax, ay)) == ax % 256
    ensures EntryY(PackEntry(ax, ay)) == ay % 256
  {
    ByteFields((ax % 256) as bv8, (ay % 256) as bv8);
    SmallByte(ax % 256);
    SmallByte(ay % 256);
  }

  /** Coordinates below 256 survive the packing exactly. */
  lemma PackEntryRoundTrip(ax: int, ay: int)
    requires 0 <= ax < 256 && 0 <= ay < 256
    ensures EntryX(PackEntry(ax, ay)) == ax && EntryY(PackEntry(ax, ay)) == ay
  {
    UnpackPackEntry(ax, ay);
  }

  /** Different slots of a grid up to 256 x 256 get different entries. */
  lemma PackEntryInjective(ax: int, ay: int, sx: int, sy: int)
    requires 0 <= ax < 256 && 0 <= ay < 256 && 0 <= sx < 256 && 0 <= sy < 256
    requires PackEntry(ax, ay) == PackEntry(sx, sy)
    ensures ax == sx && ay == sy
  {
    PackEntryRoundTrip(ax, ay);
    PackEntryRoundTrip(sx, sy);
  }

  /** A cell of the page-table grid. */
  datatype Cell = Cell(x: int, y: int)

  /**
   * The page table (`page_table.h` is not part of this model): a grid of
   * 32-bit entries, zero wherever nothing has been written.
   */
  type Table = map<Cell, bv32>

  function Entry(t: Table, c: Cell): bv32 {
    if c in t then t[c] else 0
  }

  /** `PageTable::IsResident`: the entry is nonzero. */
  predicate IsResident(t: Table, x: int, y: int) {
    Entry(t, Cell(x, y)) != 0
  }

  /** `PageTable::Write`: store `e` at cell `c`, leaving every other cell alone. */
  function Write(t: Table, c: Cell, e: bv32): (t': Table)
    ensures Entry(t', c) == e
    ensures forall c' | c' != c :: Entry(t', c') == Entry(t, c')
  {
    t[c := e]
  }

  /** Writing a packed entry makes the cell resident and decodable to its slot. */
  lemma WritePackedIsResident(t: Table, c: Cell, ax: int, ay: int)
    requires 0 <= ax < 256 && 0 <= ay < 256
    ensures IsResident(Write(t, c, PackEntry(ax, ay)), c.x, c.y)
    ensures EntryX(Entry(Write(t, c, PackEntry(ax, ay)), c)) == ax
    ensures EntryY(Entry(Write(t, c, PackEntry(ax, ay)), c)) == ay
  {
    PackEntryRoundTrip(ax, ay);
  }

  /** One `atlas.Update` call: a rectangle of the atlas; the pixel data is not recorded. */
  datatype AtlasWrite = AtlasWrite(px: int, py: int, w: int, h: int)

  predicate InsideAtlas(u: AtlasWrite) {
    0 <= u.px && u.px + u.w <= ImageW && 0 <= u.py && u.py + u.h <= ImageH
  }

  /** Two atlas rectangles share no pixel. */
  predicate Disjoint(u: AtlasWrite, v: AtlasWrite) {
    u.px + u.w <= v.px || v.px + v.w <= u.px || u.py + u.h <= v.py || v.py + v.h <= u.py
  }

  /**
   * The region the upload for slot (ax, ay) covers: the page-aligned page
   * whose page column is ax and whose page row is ay.
   */
  function UploadRegion(ax: int, ay: int): (u: AtlasWrite)
    ensures u.w == PageW && u.h == PageH
    ensures u.px % PageW == 0 && u.py % PageH == 0
    ensures u.px / PageW == ax && u.py / PageH == ay
    ensures 0 <= ax < PagesX && 0 <= ay < PagesY ==> InsideAtlas(u)
  {
    AtlasWrite(PageW * ax, PageH * ay, PageW, PageH)
  }

  /** Uploads for different slots never overwrite each other's pixels. */
  lemma UploadRegionsDisjoint(ax: int, ay: int, sx: int, sy: int)
    requires ax != sx || ay != sy
    ensures Disjoint(UploadRegion(ax, ay), UploadRegion(sx, sy))
  {
  }
}
