/** The display writer: border, stereo duplication, RGB565 packing and the
    byte image written to the framebuffer, plus the shape of the
    precomputed barrel-distortion tables. */
module StereoDisplay {
  import opened Common
  import Settings

  /** An unsigned 8-bit value (one channel, one byte of output). */
  type Byte = x: int | 0 <= x < 0x100

  /** An unsigned 16-bit value (one packed RGB565 pixel). */
  type Word = x: int | 0 <= x < 0x1_0000

  /** One pixel of an 8-bit-per-channel image; `r`, `g`, `b` are channels
      0, 1 and 2 of the image array. */
  datatype Pixel = Pixel(r: Byte, g: Byte, b: Byte)

  const Black: Pixel := Pixel(0, 0, 0)

  /** A row-major image: a sequence of rows. */
  type Image = seq<seq<Pixel>>

  /** `img` has `h` rows of `w` elements each. */
  predicate IsShape<T>(img: seq<seq<T>>, h: nat, w: nat) {
    |img| == h && forall i :: 0 <= i < h ==> |img[i]| == w
  }

  // ---------------------------------------------------------------------
  // RGB888 -> RGB565
  //
  // On non-negative integers `x >> k` is `x / 2^k`, `x << k` is `x * 2^k`
  // (no field overflows 16 bits here), and `|` of fields occupying
  // disjoint bits is their sum.
  // ---------------------------------------------------------------------

  /** Packs one pixel: the top 5 bits of red in bits 15..11, the top 6 bits
      of green in bits 10..5 and the top 5 bits of blue in bits 4..0. */
  function Pack565(p: Pixel): (w: Word)
    ensures w / 2048 == p.r / 8
    ensures (w / 32) % 64 == p.g / 4
    ensures w % 32 == p.b / 8
  {
    var r5, g6, b5 := p.r / 8, p.g / 4, p.b / 8;
    var high := r5 * 64 + g6;
    assert high / 64 == r5 && high % 64 == g6;
    assert (high * 32 + b5) / 32 == high && (high * 32 + b5) % 32 == b5;
    assert (high * 32 + b5) / 2048 == high / 64;
    r5 * 2048 + g6 * 32 + b5
  }

  /** Expands a packed pixel back to 8 bits per channel by shifting each
      field back into place (`(v >> 11) << 3` and so on). */
  function Unpack565(v: Word): Pixel {
    Pixel((v / 2048) * 8, ((v / 32) % 64) * 4, (v % 32) * 8)
  }

  /** Unpacking truncates rather than rounds: each channel comes back rounded
      down to a multiple of 8 (red, blue) or 4 (green), so it is at most 7
      (red, blue) or 3 (green) below the original. */
  lemma Pack565Truncates(p: Pixel)
    ensures Unpack565(Pack565(p)) == Pixel(p.r - p.r % 8, p.g - p.g % 4, p.b - p.b % 8)
    ensures var q := Unpack565(Pack565(p));
            && p.r - 7 <= q.r <= p.r && q.r % 8 == 0
            && p.g - 3 <= q.g <= p.g && q.g % 4 == 0
            && p.b - 7 <= q.b <= p.b && q.b % 8 == 0
  {
  }

  /** Every 16-bit value is the packing of its own expansion: packing
      reaches all 65536 values, and on expanded colours it loses nothing. */
  lemma Unpack565Pack565(v: Word)
    ensures Pack565(Unpack565(v)) == v
  {
    var q := Unpack565(v);
    assert q.r / 8 == v / 2048;
    assert q.g / 4 == (v / 32) % 64;
    assert q.b / 8 == v % 32;
    assert v == (v / 2048) * 2048 + ((v / 32) % 64) * 32 + v % 32;
  }

  /** A packed pixel, low byte first (numpy `'<u2'`). */
  function LeBytes(v: Word): (bs: seq<Byte>)
    ensures |bs| == 2
    ensures bs[1] as int * 256 + bs[0] as int == v
  {
    [v % 256, v / 256]
  }

  /** The packed image, element by element. */
  function ToRgb565(img: Image): (packed: seq<seq<Word>>)
    ensures |packed| == |img|
    ensures forall i :: 0 <= i < |img| ==> |packed[i]| == |img[i]|
    ensures forall i, j :: 0 <= i < |img| && 0 <= j < |img[i]| ==> packed[i][j] == Pack565(img[i][j])
  {
    seq(|img|, i requires 0 <= i < |img| => seq(|img[i]|, j requires 0 <= j < |img[i]| => Pack565(img[i][j])))
  }

  /** The bytes of one packed row, pixel after pixel. */
  function RowBytes(row: seq<Word>): seq<Byte> {
    if |row| == 0 then [] else LeBytes(row[0]) + RowBytes(row[1..])
  }

  /** The bytes of a packed image in row-major order (`tobytes()`). */
  function FrameBytes(rows: seq<seq<Word>>): seq<Byte> {
    if |rows| == 0 then [] else RowBytes(rows[0]) + FrameBytes(rows[1..])
  }

  lemma {:induction false} RowBytesLength(row: seq<Word>)
    ensures |RowBytes(row)| == 2 * |row|
  {
    if |row| > 0 {
      RowBytesLength(row[1..]);
    }
  }

  /** Pixel `j` of a row occupies bytes `2j` (low) and `2j + 1` (high). */
  lemma {:induction false} RowBytesAt(row: seq<Word>, j: nat)
    requires j < |row|
    ensures |RowBytes(row)| == 2 * |row|
    ensures RowBytes(row)[2 * j] == LeBytes(row[j])[0]
    ensures RowBytes(row)[2 * j + 1] == LeBytes(row[j])[1]
  {
    RowBytesLength(row);
    if j > 0 {
      RowBytesAt(row[1..], j - 1);
      assert RowBytes(row) == LeBytes(row[0]) + RowBytes(row[1..]);
    }
  }

  /** The framebuffer image of an `h` x `w` packed frame has `h * w * 2`
      bytes. */
  lemma {:induction false} FrameBytesLength(rows: seq<seq<Word>>, h: nat, w: nat)
    requires IsShape(rows, h, w)
    ensures |FrameBytes(rows)| == h * w * 2
  {
    if h > 0 {
      ShapeTail(rows, h, w);
      FrameBytesLength(rows[1..], h - 1, w);
      RowBytesLength(rows[0]);
      OneMoreRow(h, w);
    }
  }

  /** Pixel `(i, j)` of an `h` x `w` packed frame occupies bytes
      `2(i*w + j)` (low byte) and `2(i*w + j) + 1` (high byte). */
  lemma {:induction false} FrameBytesAt(rows: seq<seq<Word>>, h: nat, w: nat, i: nat, j: nat)
    requires IsShape(rows, h, w)
    requires i < h && j < w
    ensures |FrameBytes(rows)| == h * w * 2
    ensures var k := 2 * (i * w + j);
            && k + 1 < |FrameBytes(rows)|
            && FrameBytes(rows)[k] == LeBytes(rows[i][j])[0]
            && FrameBytes(rows)[k + 1] == LeBytes(rows[i][j])[1]
  {
    FrameBytesLength(rows, h, w);
    FrameBytesInRow(rows, h, w, i, j);
    RowStartIs(w, i);
  }

  /** The byte offset of row `i` in a frame of width `w`: each earlier row
      takes `2w` bytes. */
  function RowStart(w: nat, i: nat): (k: nat)
    decreases i
  {
    if i == 0 then 0 else RowStart(w, i - 1) + 2 * w
  }

  lemma {:induction false} RowStartIs(w: nat, i: nat)
    ensures RowStart(w, i) == 2 * (i * w)
    decreases i
  {
    if i > 0 {
      RowStartIs(w, i - 1);
      assert i * w == (i - 1) * w + w;
    }
  }

  /** Pixel `(i, j)` is the pair of bytes `2j` into row `i`, which starts
      at `RowStart(w, i)`. */
  lemma {:induction false} FrameBytesInRow(rows: seq<seq<Word>>, h: nat, w: nat, i: nat, j: nat)
    requires IsShape(rows, h, w)
    requires i < h && j < w
    ensures var k := RowStart(w, i) + 2 * j;
            && k + 1 < |FrameBytes(rows)|
            && FrameBytes(rows)[k] == LeBytes(rows[i][j])[0]
            && FrameBytes(rows)[k + 1] == LeBytes(rows[i][j])[1]
    decreases h
  {
    RowBytesLength(rows[0]);
    if i == 0 {
      RowBytesAt(rows[0], j);
      FrameBytesHead(rows, 2 * j);
      FrameBytesHead(rows, 2 * j + 1);
    } else {
      ShapeTail(rows, h, w);
      FrameBytesInRow(rows[1..], h - 1, w, i - 1, j);
      assert rows[1..][i - 1] == rows[i];
      FrameBytesShift(rows, RowStart(w, i - 1) + 2 * j, LeBytes(rows[i][j]));
    }
  }

  /** A byte pair at offset `k` in the bytes of the rows after the first
      sits right after the first row's bytes in the whole frame. */
  lemma FrameBytesShift(rows: seq<seq<Word>>, k: nat, pair: seq<Byte>)
    requires |rows| > 0 && |pair| == 2
    requires k + 1 < |FrameBytes(rows[1..])|
    requires FrameBytes(rows[1..])[k] == pair[0] && FrameBytes(rows[1..])[k + 1] == pair[1]
    ensures var n := |RowBytes(rows[0])|;
            && n + k + 1 < |FrameBytes(rows)|
            && FrameBytes(rows)[n + k] == pair[0]
            && FrameBytes(rows)[n + k + 1] == pair[1]
  {
    FrameBytesTail(rows, k);
    FrameBytesTail(rows, k + 1);
  }

  lemma ShapeTail<T>(img: seq<seq<T>>, h: nat, w: nat)
    requires IsShape(img, h, w) && h > 0
    ensures IsShape(img[1..], h - 1, w)
  {
  }

  lemma OneMoreRow(h: nat, w: nat)
    requires h > 0
    ensures 2 * w + (h - 1) * w * 2 == h * w * 2
  {
  }

  /** The first row's bytes open the frame's. */
  lemma FrameBytesHead(rows: seq<seq<Word>>, k: nat)
    requires |rows| > 0 && k < |RowBytes(rows[0])|
    ensures k < |FrameBytes(rows)| && FrameBytes(rows)[k] == RowBytes(rows[0])[k]
  {
  }

  /** The remaining rows' bytes follow the first row's. */
  lemma FrameBytesTail(rows: seq<seq<Word>>, k: nat)
    requires |rows| > 0 && k < |FrameBytes(rows[1..])|
    ensures |RowBytes(rows[0])| + k < |FrameBytes(rows)|
    ensures FrameBytes(rows)[|RowBytes(rows[0])| + k] == FrameBytes(rows[1..])[k]
  {
  }

  lemma PixelIndexInRange(h: nat, w: nat, i: nat, j: nat)
    requires i < h && j < w
    ensures i * w + j < h * w
  {
    assert i * w + j < i * w + w == (i + 1) * w;
    assert (i + 1) * w <= h * w;
  }

  /** The 16-bit word stored little-endian at bytes `2k`, `2k + 1`. */
  function WordAt(bytes: seq<Byte>, k: nat): Word
    requires 2 * k + 1 < |bytes|
  {
    bytes[2 * k + 1] as int * 256 + bytes[2 * k] as int
  }

  /** Reads a framebuffer byte image back as an `h` x `w` packed frame. */
  function DecodeFrame(bytes: seq<Byte>, h: nat, w: nat): (rows: seq<seq<Word>>)
    requires |bytes| == h * w * 2
    ensures IsShape(rows, h, w)
  {
    seq(h, i requires 0 <= i < h => DecodeRow(bytes, h, w, i))
  }

  function DecodeRow(bytes: seq<Byte>, h: nat, w: nat, i: nat): (row: seq<Word>)
    requires |bytes| == h * w * 2 && i < h
    ensures |row| == w
  {
    seq<Word>(w, j requires 0 <= j < w =>
      PixelIndexInRange(h, w, i, j);
      WordAt(bytes, i * w + j))
  }

  /** Reading the written bytes back gives the packed frame: the byte image
      loses nothing. */
  lemma DecodeFrameBytes(rows: seq<seq<Word>>, h: nat, w: nat)
    requires IsShape(rows, h, w)
    ensures |FrameBytes(rows)| == h * w * 2
    ensures DecodeFrame(FrameBytes(rows), h, w) == rows
  {
    FrameBytesLength(rows, h, w);
    var d := DecodeFrame(FrameBytes(rows), h, w);
    forall i | 0 <= i < h
      ensures d[i] == rows[i]
    {
      forall j | 0 <= j < w
        ensures d[i][j] == rows[i][j]
      {
        FrameBytesAt(rows, h, w, i, j);
      }
    }
  }

  // ---------------------------------------------------------------------
  // Border and stereo duplication
  // ---------------------------------------------------------------------

  function BlackRow(w: nat): (row: seq<Pixel>)
    ensures |row| == w && forall j :: 0 <= j < w ==> row[j] == Black
  {
    seq(w, _ => Black)
  }

  /** `img[lo:hi, :, :] = 0` */
  function BlankRows(img: Image, w: nat, lo: nat, hi: nat): (r: Image)
    requires IsShape(img, |img|, w) && lo <= hi <= |img|
    ensures IsShape(r, |img|, w)
    ensures forall i, j :: 0 <= i < |img| && 0 <= j < w ==>
              r[i][j] == if lo <= i < hi then Black else img[i][j]
  {
    var black := BlackRow(w);
    seq(|img|, i requires 0 <= i < |img| => if lo <= i < hi then black else img[i])
  }

  /** `img[:, lo:hi, :] = 0` */
  function BlankCols(img: Image, w: nat, lo: nat, hi: nat): (r: Image)
    requires IsShape(img, |img|, w) && lo <= hi <= w
    ensures IsShape(r, |img|, w)
    ensures forall i, j :: 0 <= i < |img| && 0 <= j < w ==>
              r[i][j] == if lo <= j < hi then Black else img[i][j]
  {
    seq(|img|, i requires 0 <= i < |img| =>
      seq(w, j requires 0 <= j < w => if lo <= j < hi then Black else img[i][j]))
  }

  /** Whether pixel `(i, j)` of an `h` x `w` half-frame is blanked by a
      border of `b` pixels. A zero border blanks everything, because the
      slice `[-0:]` covers the whole axis. */
  predicate InBorder(h: nat, w: nat, b: nat, i: nat, j: nat) {
    b == 0 || i < b || i >= h - b || j < b || j >= w - b
  }

  /** The four slice assignments of the thin black border:
      `[:b]` and `[-b:]` on rows, then on columns. */
  function Border(img: Image, w: nat, b: nat): (r: Image)
    requires IsShape(img, |img|, w)
    ensures IsShape(r, |img|, w)
    ensures forall i, j :: 0 <= i < |img| && 0 <= j < w ==>
              r[i][j] == if InBorder(|img|, w, b, i, j) then Black else img[i][j]
  {
    var h := |img|;
    var top := BlankRows(img, w, 0, PyBound(h, b));
    var bottom := BlankRows(top, w, PyBound(h, -(b as int)), h);
    var left := BlankCols(bottom, w, 0, PyBound(w, b));
    BlankCols(left, w, PyBound(w, -(b as int)), w)
  }

  /** With a border of at least one pixel, the pixels that are not within
      `b` of an edge keep their value. */
  lemma BorderKeepsInterior(img: Image, w: nat, b: nat, i: nat, j: nat)
    requires IsShape(img, |img|, w)
    requires 1 <= b && b <= i < |img| - b && b <= j < w - b
    ensures Border(img, w, b)[i][j] == img[i][j]
  {
  }

  /** With `border_px = 0` the whole half-frame is blanked. */
  lemma ZeroBorderBlanksAll(img: Image, w: nat)
    requires IsShape(img, |img|, w)
    ensures Border(img, w, 0) == seq(|img|, _ => BlackRow(w))
  {
    var r := Border(img, w, 0);
    forall i | 0 <= i < |img|
      ensures r[i] == BlackRow(w)
    {
      forall j | 0 <= j < w
        ensures r[i][j] == Black
      {
        assert InBorder(|img|, w, 0, i, j);
      }
    }
  }

  /** `np.concatenate((corrected, corrected), axis=1)`: every row next to
      itself. */
  function StereoDuplicate(img: Image, w: nat): (r: Image)
    requires IsShape(img, |img|, w)
    ensures IsShape(r, |img|, 2 * w)
    ensures forall i :: 0 <= i < |img| ==> r[i][..w] == img[i] && r[i][w..] == img[i]
  {
    seq(|img|, i requires 0 <= i < |img| => img[i] + img[i])
  }

  // ---------------------------------------------------------------------
  // Barrel map shape and the display itself
  // ---------------------------------------------------------------------

  /** The destination pixel (column, row) an entry of a remap table
      belongs to; the float sample positions themselves are not modelled. */
  datatype GridPoint = GridPoint(col: nat, row: nat)

  type RemapTable = seq<seq<GridPoint>>

  /** `np.meshgrid(linspace(.., width), linspace(.., height))`: one row per
      destination row, one entry per destination column. */
  function MeshGrid(width: nat, height: nat): (m: RemapTable)
    ensures IsShape(m, height, width)
    ensures forall i, j :: 0 <= i < height && 0 <= j < width ==> m[i][j] == GridPoint(j, i)
  {
    seq(height, i requires 0 <= i < height => seq(width, j requires 0 <= j < width => GridPoint(j, i)))
  }

  datatype BarrelMap = BarrelMap(mapX: RemapTable, mapY: RemapTable)

  /** `_create_barrel_map(width, height)`: both tables are computed
      element-wise over the same mesh, so both have the mesh's shape. */
  function CreateBarrelMap(width: nat, height: nat): (m: BarrelMap)
    ensures IsShape(m.mapX, height, width) && IsShape(m.mapY, height, width)
  {
    var mesh := MeshGrid(width, height);
    BarrelMap(mesh, mesh)
  }

  /** The display: its configured size and border, and the barrel map
      computed once for one half-frame. */
  datatype Display = Display(width: nat, height: nat, border: nat, barrel: BarrelMap)

  function HalfWidth(d: Display): nat { d.width / 2 }

  /** `StereoDisplay.__init__`: the barrel map is computed for a half-frame
      of `width // 2` columns and `height` rows. */
  function NewDisplay(width: nat, height: nat, border: nat): (d: Display)
    ensures d.width == width && d.height == height && d.border == border
    ensures IsShape(d.barrel.mapX, height, width / 2) && IsShape(d.barrel.mapY, height, width / 2)
  {
    Display(width, height, border, CreateBarrelMap(width / 2, height))
  }

  /** One write to the framebuffer: a byte offset (after `lseek`) and the
      bytes written there. */
  datatype FbWrite = FbWrite(offset: nat, data: seq<Byte>)

  /** The bytes `show` writes for the remapped half-frame `corrected`
      (`hw` columns, border `b`): bordered, duplicated, packed and
      serialised row by row. */
  function StereoBytes(corrected: Image, hw: nat, b: nat): seq<Byte>
    requires IsShape(corrected, |corrected|, hw)
  {
    FrameBytes(ToRgb565(StereoDuplicate(Border(corrected, hw, b), hw)))
  }

  /** `show` after resize and remap: `corrected` is the remapped half-frame,
      whose shape is the barrel map's. Every call rewrites the whole frame
      from offset 0. */
  function Show(d: Display, corrected: Image): (out: FbWrite)
    requires IsShape(corrected, d.height, HalfWidth(d))
    ensures out.offset == 0
    ensures |out.data| == d.height * (2 * HalfWidth(d)) * 2
    ensures out.data == StereoBytes(corrected, HalfWidth(d), d.border)
  {
    var hw := HalfWidth(d);
    FrameBytesLength(ToRgb565(StereoDuplicate(Border(corrected, hw, d.border), hw)), d.height, 2 * hw);
    FbWrite(0, StereoBytes(corrected, hw, d.border))
  }

  /** The pixel shown at `(i, j)` of the stereo frame built from the
      `hw`-column half-frame `corrected` with border `b`: column `j` of
      the left half and column `hw + j` of the right half both read column
      `j` of the bordered half-frame. */
  function ShownPixel(corrected: Image, hw: nat, b: nat, i: nat, j: nat): Pixel
    requires IsShape(corrected, |corrected|, hw)
    requires i < |corrected| && j < 2 * hw
  {
    var c := HalfColumn(hw, j);
    if InBorder(|corrected|, hw, b, i, c) then Black else corrected[i][c]
  }

  /** The half-frame column shown at stereo column `j`. */
  function HalfColumn(hw: nat, j: nat): (c: nat)
    requires j < 2 * hw
    ensures c < hw
  {
    if j < hw then j else j - hw
  }

  /** The display `main` builds, `StereoDisplay(width=FRAME_WIDTH,
      height=FRAME_HEIGHT, border_px=BORDER_PX)`: 400-column half-frames
      with a 10-pixel border, and a whole 800 x 480 frame of 2-byte pixels
      written by every `show`. */
  lemma ConfiguredDisplay()
    ensures var d := NewDisplay(Settings.FrameWidth, Settings.FrameHeight, Settings.BorderPx);
            && HalfWidth(d) == 400 && d.height == 480 && d.border == 10
            && IsShape(d.barrel.mapX, 480, 400) && IsShape(d.barrel.mapY, 480, 400)
            && forall corrected :: IsShape(corrected, 480, 400) ==> |Show(d, corrected).data| == 768000
  {
  }

  /** Pixel `(i, j)` of the stereo frame lands at bytes `2(i*W + j)` and
      `2(i*W + j) + 1` of the written bytes, packed to RGB565 and low byte
      first, where `W = 2 * hw` is the stereo width. */
  lemma StereoBytesLayout(corrected: Image, hw: nat, b: nat, i: nat, j: nat, k: nat)
    requires IsShape(corrected, |corrected|, hw)
    requires i < |corrected| && j < 2 * hw
    requires k == 2 * (i * (2 * hw) + j)
    ensures k + 1 < |StereoBytes(corrected, hw, b)|
    ensures StereoBytes(corrected, hw, b)[k] == LeBytes(Pack565(ShownPixel(corrected, hw, b, i, j)))[0]
    ensures StereoBytes(corrected, hw, b)[k + 1] == LeBytes(Pack565(ShownPixel(corrected, hw, b, i, j)))[1]
  {
    var stereo := StereoDuplicate(Border(corrected, hw, b), hw);
    StereoShape(corrected, hw, b);
    PackedBytesAt(stereo, |corrected|, 2 * hw, i, j);
    StereoPixel(corrected, hw, b, i, j);
  }

  lemma StereoShape(corrected: Image, hw: nat, b: nat)
    requires IsShape(corrected, |corrected|, hw)
    ensures IsShape(StereoDuplicate(Border(corrected, hw, b), hw), |corrected|, 2 * hw)
    ensures StereoBytes(corrected, hw, b) == FrameBytes(ToRgb565(StereoDuplicate(Border(corrected, hw, b), hw)))
  {
  }

  lemma PackedBytesAt(img: Image, h: nat, w: nat, i: nat, j: nat)
    requires IsShape(img, h, w)
    requires i < h && j < w
    ensures var bytes := FrameBytes(ToRgb565(img));
            && 2 * (i * w + j) + 1 < |bytes|
            && bytes[2 * (i * w + j)] == LeBytes(Pack565(img[i][j]))[0]
            && bytes[2 * (i * w + j) + 1] == LeBytes(Pack565(img[i][j]))[1]
  {
    var packed := ToRgb565(img);
    assert IsShape(packed, h, w);
    FrameBytesAt(packed, h, w, i, j);
  }

  lemma StereoPixel(corrected: Image, hw: nat, b: nat, i: nat, j: nat)
    requires IsShape(corrected, |corrected|, hw)
    requires i < |corrected| && j < 2 * hw
    ensures var stereo := StereoDuplicate(Border(corrected, hw, b), hw);
            i < |stereo| && j < |stereo[i]| && stereo[i][j] == ShownPixel(corrected, hw, b, i, j)
  {
    DuplicateAt(Border(corrected, hw, b), hw, i, j);
  }

  lemma DuplicateAt(img: Image, w: nat, i: nat, j: nat)
    requires IsShape(img, |img|, w)
    requires i < |img| && j < 2 * w
    ensures StereoDuplicate(img, w)[i][j] == img[i][HalfColumn(w, j)]
  {
    assert StereoDuplicate(img, w)[i] == img[i] + img[i];
  }
}
