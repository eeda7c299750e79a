/** The tile layout of `src/libane/ane.c`: rows of 16-bit elements are copied between a dense
    N x C x H x W array and one whose planes and rows are padded. */
module Tiling {
  import opened Words
  import opened Bits

  // ----- Copying rows -----

  /** `memcpy(dst + to, src + from, len)`. */
  function Blit(dst: seq<byte>, to: nat, src: seq<byte>, from: nat, len: nat): (r: seq<byte>)
    requires to + len <= |dst| && from + len <= |src|
    ensures |r| == |dst|
  {
    dst[..to] + src[from..from + len] + dst[to + len..]
  }

  /** Rows of `len` bytes at the offsets `rows` fit into `size` bytes. */
  ghost predicate Inside(rows: seq<nat>, len: nat, size: nat) {
    forall i | 0 <= i < |rows| :: rows[i] + len <= size
  }

  /** Rows follow each other without overlap. */
  ghost predicate Ascending(rows: seq<nat>, len: nat) {
    forall i, k | 0 <= i < k < |rows| :: rows[i] + len <= rows[k]
  }

  /** The result of copying the first `k` rows. */
  function CopyRows(dst: seq<byte>, to: seq<nat>, src: seq<byte>, from: seq<nat>, len: nat, k: nat): (r: seq<byte>)
    requires k <= |to| == |from| && Inside(to, len, |dst|) && Inside(from, len, |src|)
    ensures |r| == |dst|
  {
    if k == 0 then dst else Blit(CopyRows(dst, to, src, from, len, k - 1), to[k - 1], src, from[k - 1], len)
  }

  function CopyAll(dst: seq<byte>, to: seq<nat>, src: seq<byte>, from: seq<nat>, len: nat): (r: seq<byte>)
    requires |to| == |from| && Inside(to, len, |dst|) && Inside(from, len, |src|)
    ensures |r| == |dst|
  {
    CopyRows(dst, to, src, from, len, |to|)
  }

  /** Byte `q` belongs to row `i`. */
  predicate InRow(rows: seq<nat>, len: nat, i: nat, q: nat) {
    i < |rows| && rows[i] <= q < rows[i] + len
  }

  /** Byte `j` of each copied row is byte `j` of the source row. */
  lemma {:induction false} CopiedByte(dst: seq<byte>, to: seq<nat>, src: seq<byte>, from: seq<nat>, len: nat,
                                      k: nat, i: nat, j: nat)
    requires k <= |to| == |from| && Inside(to, len, |dst|) && Inside(from, len, |src|) && Ascending(to, len)
    requires i < k && j < len
    ensures CopyRows(dst, to, src, from, len, k)[to[i] + j] == src[from[i] + j]
  {
    if i < k - 1 {
      CopiedByte(dst, to, src, from, len, k - 1, i, j);
      assert to[i] + len <= to[k - 1];
    }
  }

  /** A byte in none of the copied rows keeps its value. */
  lemma {:induction false} KeptByte(dst: seq<byte>, to: seq<nat>, src: seq<byte>, from: seq<nat>, len: nat,
                                    k: nat, q: nat)
    requires k <= |to| == |from| && Inside(to, len, |dst|) && Inside(from, len, |src|)
    requires q < |dst| && forall i: nat | i < k :: !InRow(to, len, i, q)
    ensures CopyRows(dst, to, src, from, len, k)[q] == dst[q]
  {
    if k > 0 {
      assert !InRow(to, len, k - 1, q);
      KeptByte(dst, to, src, from, len, k - 1, q);
    }
  }

  // ----- Layouts -----

  /** Byte distances between images, planes and rows. */
  datatype Layout = Layout(image: nat, plane: nat, row: nat)

  function Offset(l: Layout, n: nat, c: nat, h: nat): nat {
    n * l.image + c * l.plane + h * l.row
  }

  /** The offsets of the rows that come before row (n, c, h) in the triple loop. */
  function Rows(l: Layout, C: nat, H: nat, n: nat, c: nat, h: nat): seq<nat>
    decreases n, c, h
  {
    if h > 0 then Rows(l, C, H, n, c, h - 1) + [Offset(l, n, c, h - 1)]
    else if c > 0 then Rows(l, C, H, n, c - 1, H)
    else if n > 0 then Rows(l, C, H, n - 1, C, 0)
    else []
  }

  /** Rows fit into planes and planes into images. */
  predicate Proper(l: Layout, C: nat, H: nat, len: nat) {
    len <= l.row && H * l.row <= l.plane && C * l.plane <= l.image
  }

  lemma {:induction false} RowsCount(l: Layout, m: Layout, C: nat, H: nat, n: nat, c: nat, h: nat)
    ensures |Rows(l, C, H, n, c, h)| == |Rows(m, C, H, n, c, h)|
    decreases n, c, h
  {
    if h > 0 {
      RowsCount(l, m, C, H, n, c, h - 1);
    } else if c > 0 {
      RowsCount(l, m, C, H, n, c - 1, H);
    } else if n > 0 {
      RowsCount(l, m, C, H, n - 1, C, 0);
    }
  }

  /** All earlier rows end before row (n, c, h) begins, and are ascending. */
  lemma {:induction false} RowsAscend(l: Layout, C: nat, H: nat, len: nat, n: nat, c: nat, h: nat)
    requires Proper(l, C, H, len) && c <= C && h <= H
    ensures Inside(Rows(l, C, H, n, c, h), len, Offset(l, n, c, h))
    ensures Ascending(Rows(l, C, H, n, c, h), len)
    decreases n, c, h
  {
    hide Proper;
    if h > 0 {
      RowsAscend(l, C, H, len, n, c, h - 1);
      OffsetNextRow(l, C, H, len, n, c, h);
    } else if c > 0 {
      RowsAscend(l, C, H, len, n, c - 1, H);
      OffsetNextPlane(l, C, H, len, n, c);
    } else if n > 0 {
      RowsAscend(l, C, H, len, n - 1, C, 0);
      OffsetNextImage(l, C, H, len, n);
    }
  }

  lemma OffsetNextRow(l: Layout, C: nat, H: nat, len: nat, n: nat, c: nat, h: nat)
    requires Proper(l, C, H, len) && h > 0
    ensures Offset(l, n, c, h - 1) + len <= Offset(l, n, c, h)
  {
    MulStep(h - 1, h, l.row);
  }

  lemma OffsetNextPlane(l: Layout, C: nat, H: nat, len: nat, n: nat, c: nat)
    requires Proper(l, C, H, len) && c > 0
    ensures Offset(l, n, c - 1, H) <= Offset(l, n, c, 0)
  {
    MulStep(c - 1, c, l.plane);
  }

  lemma OffsetNextImage(l: Layout, C: nat, H: nat, len: nat, n: nat)
    requires Proper(l, C, H, len) && n > 0
    ensures Offset(l, n - 1, C, 0) <= Offset(l, n, 0, 0)
  {
    MulStep(n - 1, n, l.image);
  }

  /** In the dense layout the rows follow each other without gaps. */
  predicate Dense(l: Layout, C: nat, H: nat, len: nat) {
    l.row == len && l.plane == H * l.row && l.image == C * l.plane
  }

  lemma {:induction false} DenseRows(l: Layout, C: nat, H: nat, len: nat, n: nat, c: nat, h: nat)
    requires Dense(l, C, H, len)
    ensures Offset(l, n, c, h) == |Rows(l, C, H, n, c, h)| * len
    ensures forall i | 0 <= i < |Rows(l, C, H, n, c, h)| :: Rows(l, C, H, n, c, h)[i] == i * len
    decreases n, c, h
  {
    if h > 0 {
      DenseRows(l, C, H, len, n, c, h - 1);
      MulDistributes(h - 1, 1, l.row);
      MulDistributes(|Rows(l, C, H, n, c, h - 1)|, 1, len);
    } else if c > 0 {
      DenseRows(l, C, H, len, n, c - 1, H);
      MulDistributes(c - 1, 1, l.plane);
    } else if n > 0 {
      DenseRows(l, C, H, len, n - 1, C, 0);
      MulDistributes(n - 1, 1, l.image);
    }
  }

  // ----- The dimensions of a tensor -----

  datatype Dims = Dims(N: nat, C: nat, H: nat, W: nat, P: nat, R: nat) {

    /** What the two routines need: a padded row holds a row, a padded plane its rows. */
    predicate Ok() {
      R > 0 && H <= NewH() && W <= NewW()
    }

    function NewH(): nat
      requires R > 0
    {
      Div(P, R)
    }

    function NewW(): nat {
      R / 2
    }

    /** The layouts of the dense data (`C0`, `H0`, `W`) and of the tile (`C1`, `H1`, `new_W`). */
    function DataLayout(): Layout {
      Layout(C * H * W * 2, H * W * 2, W * 2)
    }

    function TileLayout(): Layout
      requires R > 0
    {
      Layout(C * NewH() * NewW() * 2, NewH() * NewW() * 2, NewW() * 2)
    }

    function Len(): nat { W * 2 }
    function DataSize(): nat { N * C * H * W * 2 }
    function TileSize(): nat { N * C * P }

    /** The rows in loop order. */
    function DataRows(): seq<nat> {
      Rows(DataLayout(), C, H, N, 0, 0)
    }

    function TileRows(): seq<nat>
      requires R > 0
    {
      Rows(TileLayout(), C, H, N, 0, 0)
    }

    /** When the padded sizes are the real ones, everything is copied at once. */
    predicate Fast()
      requires R > 0
    {
      NewH() == H && NewW() == W
    }
  }

  lemma MulAssoc4(a: nat, b: nat, c: nat, d: nat)
    ensures a * b * c * d == a * (b * c * d)
  {
  }

  lemma DataIsDense(d: Dims)
    ensures Dense(d.DataLayout(), d.C, d.H, d.Len())
    ensures d.DataSize() == d.N * d.DataLayout().image
  {
    MulAssoc4(d.C, d.H, d.W, 2);
    MulAssoc(d.H, d.W, 2);
    MulAssoc(d.N * d.C, d.H * d.W, 2);
    MulAssoc(d.N, d.C, d.H * d.W * 2);
  }

  lemma TileIsProper(d: Dims)
    requires d.Ok()
    ensures Proper(d.TileLayout(), d.C, d.H, d.Len())
    ensures d.N * d.TileLayout().image <= d.TileSize()
  {
    var h, w := d.NewH(), d.NewW();
    MulAssoc4(d.C, h, w, 2);
    MulAssoc(h, w, 2);
    MulMono(d.H, h, w * 2);
    var plane := h * w * 2;
    assert h * (w * 2) <= h * d.R by { MulMono(w * 2, d.R, h); }
    assert plane <= d.P;
    MulMono(plane, d.P, d.N * d.C);
    MulAssoc(d.N, d.C, plane);
  }

  /** Every row read or written lies inside its array, and rows do not overlap. */
  lemma RowsFit(d: Dims)
    requires d.Ok()
    ensures Inside(d.TileRows(), d.Len(), d.TileSize()) && Ascending(d.TileRows(), d.Len())
    ensures Inside(d.DataRows(), d.Len(), d.DataSize()) && Ascending(d.DataRows(), d.Len())
    ensures |d.TileRows()| == |d.DataRows()|
  {
    hide Rows, Inside, Ascending;
    TileIsProper(d);
    DataIsDense(d);
    RowsAscend(d.TileLayout(), d.C, d.H, d.Len(), d.N, 0, 0);
    RowsAscend(d.DataLayout(), d.C, d.H, d.Len(), d.N, 0, 0);
    InsideMore(d.TileRows(), d.Len(), d.N * d.TileLayout().image, d.TileSize());
    RowsCount(d.TileLayout(), d.DataLayout(), d.C, d.H, d.N, 0, 0);
  }

  lemma InsideMore(rows: seq<nat>, len: nat, a: nat, b: nat)
    requires Inside(rows, len, a) && a <= b
    ensures Inside(rows, len, b)
  {
  }

  // ----- What the two routines compute -----

  function Zeroed(dst: seq<byte>, size: nat): (r: seq<byte>)
    requires size <= |dst|
    ensures |r| == |dst|
  {
    seq(size, _ => 0) + dst[size..]
  }

  predicate TileArgs(d: Dims, data: seq<byte>, tile: seq<byte>) {
    d.Ok() && d.TileSize() <= |tile| && d.DataSize() <= |data| && (d.Fast() ==> d.TileSize() <= |data|)
  }

  predicate UntileArgs(d: Dims, data: seq<byte>, tile: seq<byte>) {
    d.Ok() && d.TileSize() <= |tile| && d.DataSize() <= |data|
  }

  /** The tile array after `ane_tile`. */
  function TileOf(d: Dims, tile: seq<byte>, data: seq<byte>): (r: seq<byte>)
    requires TileArgs(d, data, tile)
    ensures |r| == |tile|
  {
    RowsFit(d);
    if d.Fast() then Blit(tile, 0, data, 0, d.TileSize())
    else CopyAll(Zeroed(tile, d.TileSize()), d.TileRows(), data, d.DataRows(), d.Len())
  }

  /** The data array after `ane_untile`. */
  function UntileOf(d: Dims, data: seq<byte>, tile: seq<byte>): (r: seq<byte>)
    requires UntileArgs(d, data, tile)
    ensures |r| == |data|
  {
    RowsFit(d);
    DataFitsTile(d);
    if d.Fast() then Blit(data, 0, tile, 0, d.DataSize())
    else CopyAll(Zeroed(data, d.DataSize()), d.DataRows(), tile, d.TileRows(), d.Len())
  }

  lemma DataFitsTile(d: Dims)
    requires d.Ok()
    ensures d.DataSize() <= d.TileSize()
  {
    var h, w := d.NewH(), d.NewW();
    MulMono(d.H, h, d.W);
    MulMono(d.W, w, h);
    MulMono(d.H * d.W * 2, h * w * 2, d.N * d.C);
    MulAssoc(d.N * d.C, d.H * d.W, 2);
    MulAssoc(d.N * d.C, d.H, d.W);
    MulAssoc(h, w, 2);
    MulMono(w * 2, d.R, h);
    MulMono(h * w * 2, d.P, d.N * d.C);
  }

  // ----- The properties of the layout -----

  /** The tile has no bytes beyond its rows. */
  predicate Exact(d: Dims)
    requires d.Ok()
  {
    d.P == d.NewH() * d.NewW() * 2
  }

  /** In a tensor that needs no padding both layouts are the same. */
  lemma FastRows(d: Dims)
    requires d.Ok() && d.Fast()
    ensures d.TileRows() == d.DataRows()
  {
  }

  lemma DenseCover(d: Dims, q: nat) returns (i: nat)
    requires d.Ok() && q < d.DataSize()
    ensures InRow(d.DataRows(), d.Len(), i, q)
  {
    hide Rows;
    DataIsDense(d);
    DenseRows(d.DataLayout(), d.C, d.H, d.Len(), d.N, 0, 0);
    var count := |d.DataRows()|;
    assert d.DataSize() == count * d.Len();
    assert d.Len() > 0;
    i := Div(q, d.Len());
    if i >= count {
      MulMono(count, i, d.Len());
    }
  }

  /** Every element of the data is found at its place in the tile. */
  lemma TileImage(d: Dims, tile: seq<byte>, data: seq<byte>, i: nat, j: nat)
    requires TileArgs(d, data, tile) && i < |d.TileRows()| == |d.DataRows()| && j < d.Len()
    ensures d.TileRows()[i] + j < d.TileSize() && d.DataRows()[i] + j < d.DataSize()
    ensures TileOf(d, tile, data)[d.TileRows()[i] + j] == data[d.DataRows()[i] + j]
  {
    hide Rows;
    RowsFit(d);
    if d.Fast() {
      FastRows(d);
    } else {
      CopiedByte(Zeroed(tile, d.TileSize()), d.TileRows(), data, d.DataRows(), d.Len(), |d.TileRows()|, i, j);
    }
  }

  /** And the other way round. */
  lemma UntileImage(d: Dims, data: seq<byte>, tile: seq<byte>, i: nat, j: nat)
    requires UntileArgs(d, data, tile) && i < |d.TileRows()| == |d.DataRows()| && j < d.Len()
    ensures d.TileRows()[i] + j < d.TileSize() && d.DataRows()[i] + j < d.DataSize()
    ensures UntileOf(d, data, tile)[d.DataRows()[i] + j] == tile[d.TileRows()[i] + j]
  {
    hide Rows;
    RowsFit(d);
    if d.Fast() {
      FastRows(d);
    } else {
      CopiedByte(Zeroed(data, d.DataSize()), d.DataRows(), tile, d.TileRows(), d.Len(), |d.DataRows()|, i, j);
    }
  }

  // ----- Elements -----

  /** Element (n, c, h, w) of an array with planes of `H` rows of `W` elements: its first byte. */
  function ByteOf(C: nat, H: nat, W: nat, n: nat, c: nat, h: nat, w: nat): nat {
    Nth(Nth(Nth(n, C, c), H, h), W, w) * 2
  }

  /** The `r`-th of the `q`-th `m`. */
  function Nth(q: nat, m: nat, r: nat): nat {
    q * m + r
  }

  /** Row (n, c, h) comes before row (N, c', h') in the triple loop. */
  predicate Earlier(n: nat, c: nat, h: nat, n': nat, c': nat, h': nat) {
    n < n' || (n == n' && (c < c' || (c == c' && h < h')))
  }

  /** The loop visits every row, at the number of rows before it. */
  lemma {:induction false} RowAt(l: Layout, C: nat, H: nat, n': nat, c': nat, h': nat, n: nat, c: nat, h: nat)
    requires Earlier(n, c, h, n', c', h') && c < C && h < H
    ensures |Rows(l, C, H, n, c, h)| < |Rows(l, C, H, n', c', h')|
    ensures Rows(l, C, H, n', c', h')[|Rows(l, C, H, n, c, h)|] == Offset(l, n, c, h)
    decreases n', c', h'
  {
    hide Offset;
    if h' > 0 {
      if (n, c, h) != (n', c', h' - 1) {
        RowAt(l, C, H, n', c', h' - 1, n, c, h);
      }
    } else if c' > 0 {
      RowAt(l, C, H, n', c' - 1, H, n, c, h);
    } else {
      RowAt(l, C, H, n' - 1, C, 0, n, c, h);
    }
  }

  /** And nothing else. */
  lemma {:induction false} RowFrom(l: Layout, C: nat, H: nat, n': nat, c': nat, h': nat, i: nat)
    returns (n: nat, c: nat, h: nat)
    requires i < |Rows(l, C, H, n', c', h')| && c' <= C && h' <= H && (c' < C || h' == 0)
    ensures Earlier(n, c, h, n', c', h') && c < C && h < H
    ensures Rows(l, C, H, n', c', h')[i] == Offset(l, n, c, h)
    decreases n', c', h'
  {
    hide Offset;
    if h' > 0 {
      if i == |Rows(l, C, H, n', c', h' - 1)| {
        n, c, h := n', c', h' - 1;
      } else {
        n, c, h := RowFrom(l, C, H, n', c', h' - 1, i);
      }
    } else if c' > 0 {
      n, c, h := RowFrom(l, C, H, n', c' - 1, H, i);
    } else {
      n, c, h := RowFrom(l, C, H, n' - 1, C, 0, i);
    }
  }

  lemma Horner(n: nat, C: nat, c: nat, H: nat, h: nat, W: nat, w: nat)
    ensures ((n * C + c) * H + h) * W + w == n * (C * H * W) + c * (H * W) + h * W + w
  {
    MulDistributes(n * C, c, H);
    MulDistributes((n * C + c) * H, h, W);
    MulDistributes(n * C * H, c * H, W);
    MulAssoc(n * C, H, W);
    MulAssoc(n, C, H * W);
    MulAssoc(C, H, W);
    MulAssoc(c, H, W);
  }

  /** Where the rows of the two layouts put an element. */
  lemma RowOfElement(d: Dims, n: nat, c: nat, h: nat, w: nat) returns (i: nat)
    requires d.Ok() && n < d.N && c < d.C && h < d.H
    ensures i < |d.TileRows()| == |d.DataRows()|
    ensures d.DataRows()[i] + w * 2 == ByteOf(d.C, d.H, d.W, n, c, h, w)
    ensures d.TileRows()[i] + w * 2 == ByteOf(d.C, d.NewH(), d.NewW(), n, c, h, w)
  {
    hide Rows, Offset;
    i := |Rows(d.DataLayout(), d.C, d.H, n, c, h)|;
    RowsFit(d);
    RowsCount(d.TileLayout(), d.DataLayout(), d.C, d.H, n, c, h);
    RowAt(d.DataLayout(), d.C, d.H, d.N, 0, 0, n, c, h);
    RowAt(d.TileLayout(), d.C, d.H, d.N, 0, 0, n, c, h);
    OffsetInElements(d, n, c, h);
    Horner(n, d.C, c, d.H, h, d.W, w);
    Horner(n, d.C, c, d.NewH(), h, d.NewW(), w);
  }

  /** Tiling moves every element to the same coordinates of the padded array, whose planes have
      `P / R` rows of `R / 2` elements. */
  lemma TileElement(d: Dims, tile: seq<byte>, data: seq<byte>, n: nat, c: nat, h: nat, w: nat, b: nat)
    requires TileArgs(d, data, tile) && n < d.N && c < d.C && h < d.H && w < d.W && b < 2
    ensures var to, from := ByteOf(d.C, d.P / d.R, d.R / 2, n, c, h, w) + b, ByteOf(d.C, d.H, d.W, n, c, h, w) + b;
      to < d.N * d.C * d.P && from < d.N * d.C * d.H * d.W * 2 && TileOf(d, tile, data)[to] == data[from]
  {
    hide Rows, TileOf, ByteOf;
    PaddedSizes(d);
    var i := RowOfElement(d, n, c, h, w);
    TileImage(d, tile, data, i, w * 2 + b);
  }

  lemma UntileElement(d: Dims, data: seq<byte>, tile: seq<byte>, n: nat, c: nat, h: nat, w: nat, b: nat)
    requires UntileArgs(d, data, tile) && n < d.N && c < d.C && h < d.H && w < d.W && b < 2
    ensures var to, from := ByteOf(d.C, d.H, d.W, n, c, h, w) + b, ByteOf(d.C, d.P / d.R, d.R / 2, n, c, h, w) + b;
      to < d.N * d.C * d.H * d.W * 2 && from < d.N * d.C * d.P && UntileOf(d, data, tile)[to] == tile[from]
  {
    hide Rows, UntileOf, ByteOf;
    PaddedSizes(d);
    var i := RowOfElement(d, n, c, h, w);
    UntileImage(d, data, tile, i, w * 2 + b);
  }

  lemma PaddedSizes(d: Dims)
    requires d.R > 0
    ensures d.NewH() == d.P / d.R && d.NewW() == d.R / 2
  {
    DivUnique(d.P, d.R, d.P / d.R);
  }

  /** No two elements share a place. */
  lemma PlacesDistinct(C: nat, H: nat, W: nat, n: nat, c: nat, h: nat, w: nat, n': nat, c': nat, h': nat, w': nat)
    requires c < C && h < H && w < W && c' < C && h' < H && w' < W
    requires ByteOf(C, H, W, n, c, h, w) == ByteOf(C, H, W, n', c', h', w')
    ensures n == n' && c == c' && h == h' && w == w'
  {
    hide Nth;
    SameNth(Nth(Nth(n, C, c), H, h), w, Nth(Nth(n', C, c'), H, h'), w', W);
    SameNth(Nth(n, C, c), h, Nth(n', C, c'), h', H);
    SameNth(n, c, n', c', C);
  }

  lemma SameNth(q: nat, r: nat, q': nat, r': nat, m: nat)
    requires r < m && r' < m && Nth(q, m, r) == Nth(q', m, r')
    ensures q == q' && r == r'
  {
    if q < q' {
      MulStep(q, q', m);
    } else if q' < q {
      MulStep(q', q, m);
    }
  }

  /** The padding is every byte of the tile that is not part of an element. */
  lemma PaddingIs(d: Dims, q: nat)
    requires d.Ok() && q < d.TileSize()
    ensures Padding(d, q) <==> !exists n, c, h, w: nat, b: nat :: IsElementByte(d, q, n, c, h, w, b)
  {
    hide Rows, ByteOf, Offset;
    RowsFit(d);
    if n: nat, c: nat, h: nat, w: nat, b: nat :| IsElementByte(d, q, n, c, h, w, b) {
      var i := RowOfElement(d, n, c, h, w);
      assert InRow(d.TileRows(), d.Len(), i, q);
    }
    if !Padding(d, q) {
      var i: nat :| i < |d.TileRows()| && InRow(d.TileRows(), d.Len(), i, q);
      var n, c, h := RowFrom(d.TileLayout(), d.C, d.H, d.N, 0, 0, i);
      var k := RowOfElement(d, n, c, h, 0);
      var j := q - d.TileRows()[i];
      OffsetInElements(d, n, c, h);
      Horner(n, d.C, c, d.NewH(), h, d.NewW(), j / 2);
      ByteOfIs(d.C, d.NewH(), d.NewW(), n, c, h, j / 2);
      assert IsElementByte(d, q, n, c, h, j / 2, j % 2);
    }
  }

  lemma ByteOfIs(C: nat, H: nat, W: nat, n: nat, c: nat, h: nat, w: nat)
    ensures ByteOf(C, H, W, n, c, h, w) == (((n * C + c) * H + h) * W + w) * 2
  {
  }

  predicate IsElementByte(d: Dims, q: nat, n: nat, c: nat, h: nat, w: nat, b: nat)
    requires d.Ok()
  {
    n < d.N && c < d.C && h < d.H && w < d.W && b < 2 && q == ByteOf(d.C, d.NewH(), d.NewW(), n, c, h, w) + b
  }

  /** Neither routine touches a byte beyond its array's N*C*P or N*C*H*W*2 bytes. */
  lemma WritesStayInside(d: Dims, tile: seq<byte>, data: seq<byte>, q: nat)
    requires TileArgs(d, data, tile)
    ensures d.N * d.C * d.P <= q < |tile| ==> TileOf(d, tile, data)[q] == tile[q]
    ensures d.N * d.C * d.H * d.W * 2 <= q < |data| ==> UntileOf(d, data, tile)[q] == data[q]
  {
    hide TileOf, UntileOf;
    BeyondKept(d, tile, data, q);
  }

  lemma BeyondKept(d: Dims, tile: seq<byte>, data: seq<byte>, q: nat)
    requires TileArgs(d, data, tile)
    ensures d.TileSize() <= q < |tile| ==> TileOf(d, tile, data)[q] == tile[q]
    ensures d.DataSize() <= q < |data| ==> UntileOf(d, data, tile)[q] == data[q]
  {
    hide Rows, Dims.TileSize, Dims.DataSize;
    RowsFit(d);
    DataFitsTile(d);
    if !d.Fast() {
      if d.TileSize() <= q < |tile| {
        KeptByte(Zeroed(tile, d.TileSize()), d.TileRows(), data, d.DataRows(), d.Len(), |d.TileRows()|, q);
      }
      if d.DataSize() <= q < |data| {
        KeptByte(Zeroed(data, d.DataSize()), d.DataRows(), tile, d.TileRows(), d.Len(), |d.DataRows()|, q);
      }
    }
  }

  /** Untiling what was tiled restores the data, whatever the two arrays held before. */
  lemma UntileTile(d: Dims, tile: seq<byte>, data: seq<byte>, data': seq<byte>)
    requires TileArgs(d, data, tile) && UntileArgs(d, data', tile)
    ensures UntileOf(d, data', TileOf(d, tile, data))[..d.DataSize()] == data[..d.DataSize()]
  {
    hide Rows, TileOf, UntileOf;
    RowsFit(d);
    var t := TileOf(d, tile, data);
    var back := UntileOf(d, data', t);
    forall q | 0 <= q < d.DataSize() ensures back[q] == data[q] {
      var i := DenseCover(d, q);
      var j := q - d.DataRows()[i];
      TileImage(d, tile, data, i, j);
      UntileImage(d, data', t, i, j);
    }
  }

  /** Tiling what was untiled keeps every image row of the tile. */
  lemma TileUntile(d: Dims, tile: seq<byte>, tile': seq<byte>, data: seq<byte>, i: nat, j: nat)
    requires TileArgs(d, data, tile) && |tile'| == |tile| && i < |d.TileRows()| == |d.DataRows()| && j < d.Len()
    ensures d.TileRows()[i] + j < d.TileSize()
    ensures TileOf(d, tile', UntileOf(d, data, tile))[d.TileRows()[i] + j] == tile[d.TileRows()[i] + j]
  {
    hide Rows, TileOf, UntileOf;
    UntileImage(d, data, tile, i, j);
    TileImage(d, tile', UntileOf(d, data, tile), i, j);
  }

  /** Byte `q` of the tile is padding. */
  predicate Padding(d: Dims, q: nat)
    requires d.Ok()
  {
    q < d.TileSize() && forall i: nat | i < |d.TileRows()| :: !InRow(d.TileRows(), d.Len(), i, q)
  }

  /** All padding ends zero, in the row loop, or if there is none in the fast path. */
  lemma PaddingIsZero(d: Dims, tile: seq<byte>, data: seq<byte>, q: nat)
    requires TileArgs(d, data, tile) && Padding(d, q)
    requires !d.Fast() || d.TileSize() == d.DataSize()
    ensures TileOf(d, tile, data)[q] == 0
  {
    hide Rows;
    RowsFit(d);
    if d.Fast() {
      FastRows(d);
      var i := DenseCover(d, q);
    } else {
      KeptByte(Zeroed(tile, d.TileSize()), d.TileRows(), data, d.DataRows(), d.Len(), |d.TileRows()|, q);
    }
  }

  /** The padding is zeroed for all contents exactly when the fast path has no padding to copy. */
  lemma PaddingIsZeroIff(d: Dims, tile: seq<byte>, size: nat)
    requires d.Ok() && d.TileSize() <= |tile| && d.TileSize() <= size && d.DataSize() <= size
    ensures !d.Fast() || d.TileSize() == d.DataSize() <==>
      forall data: seq<byte>, q: nat | |data| == size && Padding(d, q) :: TileOf(d, tile, data)[q] == 0
  {
    hide Rows;
    if !d.Fast() || d.TileSize() == d.DataSize() {
      forall data: seq<byte>, q: nat | |data| == size && Padding(d, q) ensures TileOf(d, tile, data)[q] == 0 {
        PaddingIsZero(d, tile, data, q);
      }
    } else {
      DataFitsTile(d);
      var q, ones: seq<byte> := d.DataSize(), seq(size, _ => 1);
      BeyondIsPadding(d);
      assert TileOf(d, tile, ones)[q] == 1;
    }
  }

  lemma BeyondIsPadding(d: Dims)
    requires d.Ok() && d.Fast() && d.DataSize() < d.TileSize()
    ensures Padding(d, d.DataSize())
  {
    hide Rows;
    RowsFit(d);
    FastRows(d);
  }

  /** If `R` is even and divides `P`, the fast path is never wrong. */
  lemma ExactSizes(d: Dims)
    requires d.Ok() && Exact(d) && d.Fast()
    ensures d.TileSize() == d.DataSize()
  {
    MulAssoc(d.N * d.C, d.H * d.W, 2);
    MulAssoc(d.N * d.C, d.H, d.W);
  }

  /** A regular layout: rows of whole elements that tile a plane, with room for the image. */
  predicate Regular(d: Dims) {
    d.R > 0 && d.R % 2 == 0 && d.P % d.R == 0 && 2 * d.W <= d.R && d.H * d.R <= d.P
  }

  lemma RegularIsExact(d: Dims)
    requires Regular(d)
    ensures d.Ok() && Exact(d)
    ensures d.Fast() ==> d.TileSize() == d.DataSize()
  {
    hide Dims.TileSize, Dims.DataSize;
    var q := d.P / d.R;
    DivUnique(d.P, d.R, q);
    if q < d.H {
      MulStep(q, d.H, d.R);
    }
    MulAssoc(q, d.R / 2, 2);
    if d.Fast() {
      ExactSizes(d);
    }
  }

  /** In a regular layout all padding ends zero, */
  lemma RegularPaddingIsZero(d: Dims, tile: seq<byte>, data: seq<byte>, q: nat)
    requires Regular(d) && TileArgs(d, data, tile) && Padding(d, q)
    ensures TileOf(d, tile, data)[q] == 0
  {
    hide Rows, TileOf, Padding, Exact, Dims.TileSize, Dims.DataSize;
    RegularIsExact(d);
    PaddingIsZero(d, tile, data, q);
  }

  /** and the fast path, when it is taken, gives what the row loop would give. */
  lemma RegularFastPath(d: Dims, tile: seq<byte>, data: seq<byte>)
    requires Regular(d) && TileArgs(d, data, tile) && d.Fast()
    ensures |d.TileRows()| == |d.DataRows()|
    ensures Inside(d.TileRows(), d.Len(), d.TileSize()) && Inside(d.DataRows(), d.Len(), d.DataSize())
    ensures TileOf(d, tile, data) ==
            CopyAll(Zeroed(tile, d.TileSize()), d.TileRows(), data, d.DataRows(), d.Len())
  {
    hide Rows, TileOf, CopyAll, Inside, Exact, Dims.TileSize, Dims.DataSize;
    RegularIsExact(d);
    RowsFit(d);
    FastPathEqualsLoop(d, tile, data);
  }

  /** Copying everything at once gives what the row loop would give. */
  lemma FastPathEqualsLoop(d: Dims, tile: seq<byte>, data: seq<byte>)
    requires TileArgs(d, data, tile) && d.Fast() && d.TileSize() == d.DataSize()
    requires |d.TileRows()| == |d.DataRows()|
    requires Inside(d.TileRows(), d.Len(), d.TileSize()) && Inside(d.DataRows(), d.Len(), d.DataSize())
    ensures TileOf(d, tile, data) ==
            CopyAll(Zeroed(tile, d.TileSize()), d.TileRows(), data, d.DataRows(), d.Len())
  {
    hide Rows, TileOf, Blit;
    RowsFit(d);
    var loop := CopyAll(Zeroed(tile, d.TileSize()), d.TileRows(), data, d.DataRows(), d.Len());
    var fast := TileOf(d, tile, data);
    forall q | 0 <= q < |tile| ensures fast[q] == loop[q] {
      if q < d.TileSize() {
        FastRows(d);
        var i := DenseCover(d, q);
        var j := q - d.DataRows()[i];
        TileImage(d, tile, data, i, j);
        CopiedByte(Zeroed(tile, d.TileSize()), d.TileRows(), data, d.DataRows(), d.Len(), |d.TileRows()|, i, j);
      } else {
        WritesStayInside(d, tile, data, q);
        KeptByte(Zeroed(tile, d.TileSize()), d.TileRows(), data, d.DataRows(), d.Len(), |d.TileRows()|, q);
      }
    }
  }

  // ----- The routines -----

  lemma {:induction false} CopyPrefix(dst: seq<byte>, to: seq<nat>, src: seq<byte>, from: seq<nat>, len: nat,
                                      x: nat, y: nat, k: nat)
    requires k <= |to| == |from| && x + len <= |dst| && y + len <= |src|
    requires Inside(to, len, |dst|) && Inside(from, len, |src|)
    ensures Inside(to + [x], len, |dst|) && Inside(from + [y], len, |src|)
    ensures CopyRows(dst, to + [x], src, from + [y], len, k) == CopyRows(dst, to, src, from, len, k)
  {
    if k > 0 {
      CopyPrefix(dst, to, src, from, len, x, y, k - 1);
    }
  }

  /** Copying one more row. */
  lemma CopyExtend(dst: seq<byte>, to: seq<nat>, src: seq<byte>, from: seq<nat>, len: nat, x: nat, y: nat)
    requires |to| == |from| && x + len <= |dst| && y + len <= |src|
    requires Inside(to, len, |dst|) && Inside(from, len, |src|)
    ensures Inside(to + [x], len, |dst|) && Inside(from + [y], len, |src|)
    ensures CopyAll(dst, to + [x], src, from + [y], len) == Blit(CopyAll(dst, to, src, from, len), x, src, y, len)
  {
    CopyPrefix(dst, to, src, from, len, x, y, |to|);
  }

  /** The state of the triple loop before row (n, c, h). */
  ghost predicate Progress(to: Layout, from: Layout, d: Dims, base: seq<byte>, src: seq<byte>, cur: seq<byte>,
                           n: nat, c: nat, h: nat)
  {
    var t, f := Rows(to, d.C, d.H, n, c, h), Rows(from, d.C, d.H, n, c, h);
    |t| == |f| && Inside(t, d.Len(), |base|) && Inside(f, d.Len(), |src|) &&
    cur == CopyAll(base, t, src, f, d.Len())
  }

  lemma ProgressRow(to: Layout, from: Layout, d: Dims, base: seq<byte>, src: seq<byte>, cur: seq<byte>,
                    n: nat, c: nat, h: nat)
    requires Progress(to, from, d, base, src, cur, n, c, h)
    requires Offset(to, n, c, h) + d.Len() <= |base| && Offset(from, n, c, h) + d.Len() <= |src|
    ensures |cur| == |base| &&
      Progress(to, from, d, base, src, Blit(cur, Offset(to, n, c, h), src, Offset(from, n, c, h), d.Len()), n, c, h + 1)
  {
    hide Inside, Offset, Blit;
    var t, f := Rows(to, d.C, d.H, n, c, h), Rows(from, d.C, d.H, n, c, h);
    CopyExtend(base, t, src, f, d.Len(), Offset(to, n, c, h), Offset(from, n, c, h));
  }

  /** The end of a plane is the beginning of the next, the end of an image likewise. */
  lemma ProgressTurn(to: Layout, from: Layout, d: Dims, base: seq<byte>, src: seq<byte>, cur: seq<byte>, n: nat, c: nat)
    ensures Progress(to, from, d, base, src, cur, n, c, d.H) == Progress(to, from, d, base, src, cur, n, c + 1, 0)
    ensures Progress(to, from, d, base, src, cur, n, d.C, 0) == Progress(to, from, d, base, src, cur, n + 1, 0, 0)
  {
    hide Inside, CopyAll;
  }

  lemma RowInside(l: Layout, N: nat, C: nat, H: nat, len: nat, n: nat, c: nat, h: nat)
    requires Proper(l, C, H, len) && n < N && c < C && h < H
    ensures Offset(l, n, c, h) + len <= N * l.image
  {
    MulStep(h, H, l.row);
    MulStep(c, C, l.plane);
    MulStep(n, N, l.image);
  }

  lemma DenseIsProper(l: Layout, C: nat, H: nat, len: nat)
    requires Dense(l, C, H, len)
    ensures Proper(l, C, H, len)
  {
  }

  /** The byte offsets as the two routines compute them, from element counts. */
  lemma OffsetInElements(d: Dims, n: nat, c: nat, h: nat)
    requires d.Ok()
    ensures (n * (d.C * d.H * d.W) + c * (d.H * d.W) + h * d.W) * 2 == Offset(d.DataLayout(), n, c, h)
    ensures (n * (d.C * d.NewH() * d.NewW()) + c * (d.NewH() * d.NewW()) + h * d.NewW()) * 2 ==
            Offset(d.TileLayout(), n, c, h)
  {
    MulAssoc(n, d.C * d.H * d.W, 2);
    MulAssoc(c, d.H * d.W, 2);
    MulAssoc(h, d.W, 2);
    MulAssoc(n, d.C * d.NewH() * d.NewW(), 2);
    MulAssoc(c, d.NewH() * d.NewW(), 2);
    MulAssoc(h, d.NewW(), 2);
  }

  /** In the loops of a valid tensor, the computed offsets stay inside both arrays. */
  lemma LoopOffsets(d: Dims, n: nat, c: nat, h: nat)
    requires d.Ok() && n < d.N && c < d.C && h < d.H
    ensures Offset(d.DataLayout(), n, c, h) + d.Len() <= d.DataSize()
    ensures Offset(d.TileLayout(), n, c, h) + d.Len() <= d.TileSize()
  {
    hide Offset;
    DataIsDense(d);
    TileIsProper(d);
    DenseIsProper(d.DataLayout(), d.C, d.H, d.Len());
    RowInside(d.DataLayout(), d.N, d.C, d.H, d.Len(), n, c, h);
    RowInside(d.TileLayout(), d.N, d.C, d.H, d.Len(), n, c, h);
  }

  method Memcpy(dst: array<byte>, to: nat, src: array<byte>, from: nat, len: nat)
    requires dst != src && to + len <= dst.Length && from + len <= src.Length
    modifies dst
    ensures dst[..] == Blit(old(dst[..]), to, src[..], from, len)
  {
    forall j | 0 <= j < len {
      dst[to + j] := src[from + j];
    }
  }

  method ClearBytes(dst: array<byte>, size: nat)
    requires size <= dst.Length
    modifies dst
    ensures dst[..] == Zeroed(old(dst[..]), size)
  {
    forall j | 0 <= j < size {
      dst[j] := 0;
    }
  }

  method AneTile(data: array<byte>, tile: array<byte>, d: Dims)
    requires data != tile && TileArgs(d, data[..], tile[..])
    modifies tile
    ensures tile[..] == TileOf(d, old(tile[..]), data[..])
  {
    hide Progress, Inside, Ascending, Offset, Blit, Rows, Dims.TileSize, Dims.DataSize;
    var newH, newW := Div(d.P, d.R), d.R / 2;
    var stride := d.W * 2;
    var c0, c1 := d.C * d.H * d.W, d.C * newH * newW;
    var h0, h1 := d.H * d.W, newH * newW;
    if newH == d.H && newW == d.W {
      Memcpy(tile, 0, data, 0, d.TileSize());
      return;
    }
    ClearBytes(tile, d.TileSize());
    ghost var to, from, base := d.TileLayout(), d.DataLayout(), tile[..];
    ProgressStart(to, from, d, base, data[..]);
    for n := 0 to d.N
      invariant Progress(to, from, d, base, data[..], tile[..], n, 0, 0)
    {
      for c := 0 to d.C
        invariant Progress(to, from, d, base, data[..], tile[..], n, c, 0)
      {
        for h := 0 to d.H
          invariant Progress(to, from, d, base, data[..], tile[..], n, c, h)
        {
          OffsetInElements(d, n, c, h);
          LoopOffsets(d, n, c, h);
          ProgressRow(to, from, d, base, data[..], tile[..], n, c, h);
          Memcpy(tile, (n * c1 + c * h1 + h * newW) * 2, data, (n * c0 + c * h0 + h * d.W) * 2, stride);
        }
        ProgressTurn(to, from, d, base, data[..], tile[..], n, c);
      }
      ProgressTurn(to, from, d, base, data[..], tile[..], n, 0);
    }
    ProgressEnd(to, from, d, base, data[..], tile[..]);
  }

  lemma ProgressStart(to: Layout, from: Layout, d: Dims, base: seq<byte>, src: seq<byte>)
    ensures Progress(to, from, d, base, src, base, 0, 0, 0)
  {
  }

  lemma ProgressEnd(to: Layout, from: Layout, d: Dims, base: seq<byte>, src: seq<byte>, cur: seq<byte>)
    requires Progress(to, from, d, base, src, cur, d.N, 0, 0)
    ensures var t, f := Rows(to, d.C, d.H, d.N, 0, 0), Rows(from, d.C, d.H, d.N, 0, 0);
      |t| == |f| && Inside(t, d.Len(), |base|) && Inside(f, d.Len(), |src|) &&
      cur == CopyAll(base, t, src, f, d.Len())
  {
  }

  method AneUntile(data: array<byte>, tile: array<byte>, d: Dims)
    requires data != tile && UntileArgs(d, data[..], tile[..])
    modifies data
    ensures data[..] == UntileOf(d, old(data[..]), tile[..])
  {
    hide Progress, Inside, Ascending, Offset, Blit, Rows, Dims.TileSize, Dims.DataSize;
    var newH, newW := Div(d.P, d.R), d.R / 2;
    var stride := d.W * 2;
    var c0, c1 := d.C * d.H * d.W, d.C * newH * newW;
    var h0, h1 := d.H * d.W, newH * newW;
    DataFitsTile(d);
    if newH == d.H && newW == d.W {
      Memcpy(data, 0, tile, 0, d.DataSize());
      return;
    }
    ClearBytes(data, d.DataSize());
    ghost var to, from, base := d.DataLayout(), d.TileLayout(), data[..];
    ProgressStart(to, from, d, base, tile[..]);
    for n := 0 to d.N
      invariant Progress(to, from, d, base, tile[..], data[..], n, 0, 0)
    {
      for c := 0 to d.C
        invariant Progress(to, from, d, base, tile[..], data[..], n, c, 0)
      {
        for h := 0 to d.H
          invariant Progress(to, from, d, base, tile[..], data[..], n, c, h)
        {
          OffsetInElements(d, n, c, h);
          LoopOffsets(d, n, c, h);
          ProgressRow(to, from, d, base, tile[..], data[..], n, c, h);
          Memcpy(data, (n * c0 + c * h0 + h * d.W) * 2, tile, (n * c1 + c * h1 + h * newW) * 2, stride);
        }
        ProgressTurn(to, from, d, base, tile[..], data[..], n, c);
      }
      ProgressTurn(to, from, d, base, tile[..], data[..], n, 0);
    }
    ProgressEnd(to, from, d, base, tile[..], data[..]);
  }
}
