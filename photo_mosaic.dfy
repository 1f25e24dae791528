/**
 * The Mosaic object of the photo-mosaic builder: the row-major tiling of the
 * source image, the per-instance handler table keyed by a running counter,
 * the worker pool and its cursor, and the per-build completion counter.
 *
 * Asynchronous callbacks (a worker's message, the settlement of a colour
 * request, a tile image's load event) are methods that the environment calls
 * in whatever order it likes.
 */
module PhotoMosaic {

  import opened Wrappers
  import Arithmetic
  import ImageHelper

  type Byte = ImageHelper.Byte

  // ---------------------------------------------------------------------------
  // The tile grid
  // ---------------------------------------------------------------------------

  /**
   * Math.ceil(extent / size): the number of values i = 0, 1, ... for which the
   * loop test `i < extent / size` holds.
   */
  function TileCount(extent: nat, size: nat): (c: nat)
    requires size > 0
    ensures c == 0 <==> extent == 0
  {
    (extent + size - 1) / size
  }

  /** On integers the loop test `i < extent / size` reads `i * size < extent`. */
  lemma TileCountExact(extent: nat, size: nat, i: nat)
    requires size > 0
    ensures i < TileCount(extent, size) <==> i * size < extent
  {
    var c := TileCount(extent, size);
    assert extent + size - 1 == size * c + (extent + size - 1) % size;
    assert size * (i + 1) == i * size + size;
    assert size * (c + 1) == size * c + size;
    Arithmetic.MulMono(size, i + 1, c);
    Arithmetic.MulMono(size, c + 1, i + 1);
  }

  /** The tiles reach at least as far as the image in each direction. */
  lemma TileCountCovers(extent: nat, size: nat)
    requires size > 0
    ensures extent <= TileCount(extent, size) * size
  {
    var c := TileCount(extent, size);
    TileCountExact(extent, size, c);
  }

  datatype Rect = Rect(x: int, y: int, width: int, height: int)

  predicate Contains(r: Rect, px: int, py: int) {
    r.x <= px < r.x + r.width && r.y <= py < r.y + r.height
  }

  /** The rectangles `build` cuts, in the order its nested loops visit them. */
  function Layout(width: nat, height: nat, tileWidth: nat, tileHeight: nat): (rs: seq<Rect>)
    requires tileWidth > 0 && tileHeight > 0
    ensures |rs| == 0 <==> width == 0 || height == 0
    ensures forall k :: 0 <= k < |rs| ==> rs[k].width == tileWidth && rs[k].height == tileHeight
  {
    var rows := TileCount(height, tileHeight);
    var cols := TileCount(width, tileWidth);
    seq(rows * cols, k requires 0 <= k < rows * cols =>
      Rect(tileWidth * (k % cols), tileHeight * (k / cols), tileWidth, tileHeight))
  }

  /**
   * Row-major numbering: the tile in row `row`, column `col` is number
   * row * cols + col, sits at (tileWidth * col, tileHeight * row) and keeps the
   * full nominal size.
   */
  lemma TileAt(width: nat, height: nat, tileWidth: nat, tileHeight: nat, row: nat, col: nat)
    requires tileWidth > 0 && tileHeight > 0
    requires row < TileCount(height, tileHeight) && col < TileCount(width, tileWidth)
    ensures var k := row * TileCount(width, tileWidth) + col;
      k < |Layout(width, height, tileWidth, tileHeight)| &&
      Layout(width, height, tileWidth, tileHeight)[k] == Rect(tileWidth * col, tileHeight * row, tileWidth, tileHeight)
  {
    var rows, cols := TileCount(height, tileHeight), TileCount(width, tileWidth);
    Arithmetic.RowMajorBound(row, col, rows, cols);
    Arithmetic.DivModUnique(row, col, cols);
  }

  /** Tile number k lies in row k / cols and column k % cols of the grid. */
  lemma TileNumber(width: nat, height: nat, tileWidth: nat, tileHeight: nat, k: nat)
    requires tileWidth > 0 && tileHeight > 0
    requires k < |Layout(width, height, tileWidth, tileHeight)|
    ensures var cols := TileCount(width, tileWidth);
      cols > 0 && k / cols < TileCount(height, tileHeight) && k % cols < cols &&
      k == k / cols * cols + k % cols &&
      Layout(width, height, tileWidth, tileHeight)[k]
        == Rect(tileWidth * (k % cols), tileHeight * (k / cols), tileWidth, tileHeight)
  {
    var rows, cols := TileCount(height, tileHeight), TileCount(width, tileWidth);
    assert cols > 0;
    Arithmetic.MulCancel(cols, k / cols, rows) by {
      assert k == cols * (k / cols) + k % cols;
    }
  }

  /** A coordinate inside the band [size * i, size * i + size) determines i. */
  lemma BandIndex(p: int, size: nat, i: int)
    requires size > 0 && size * i <= p < size * i + size
    ensures p / size == i
  {
    Arithmetic.DivModUnique(i, p - size * i, size);
  }

  /** No point lies in two tiles: the tiles are pairwise disjoint. */
  lemma TilesDisjoint(width: nat, height: nat, tileWidth: nat, tileHeight: nat, i: nat, j: nat, px: int, py: int)
    requires tileWidth > 0 && tileHeight > 0
    requires i < |Layout(width, height, tileWidth, tileHeight)| && j < |Layout(width, height, tileWidth, tileHeight)|
    requires Contains(Layout(width, height, tileWidth, tileHeight)[i], px, py)
    requires Contains(Layout(width, height, tileWidth, tileHeight)[j], px, py)
    ensures i == j
  {
    var cols := TileCount(width, tileWidth);
    TileNumber(width, height, tileWidth, tileHeight, i);
    TileNumber(width, height, tileWidth, tileHeight, j);
    BandIndex(px, tileWidth, i % cols);
    BandIndex(px, tileWidth, j % cols);
    BandIndex(py, tileHeight, i / cols);
    BandIndex(py, tileHeight, j / cols);
  }

  /**
   * Every point of [0, cols * tileWidth) x [0, rows * tileHeight) lies in the
   * tile numbered (py / tileHeight) * cols + px / tileWidth.
   */
  lemma TilesCover(width: nat, height: nat, tileWidth: nat, tileHeight: nat, px: int, py: int)
    requires tileWidth > 0 && tileHeight > 0
    requires 0 <= px < TileCount(width, tileWidth) * tileWidth
    requires 0 <= py < TileCount(height, tileHeight) * tileHeight
    ensures var k := (py / tileHeight) * TileCount(width, tileWidth) + px / tileWidth;
      0 <= k < |Layout(width, height, tileWidth, tileHeight)| &&
      Contains(Layout(width, height, tileWidth, tileHeight)[k], px, py)
  {
    var rows, cols := TileCount(height, tileHeight), TileCount(width, tileWidth);
    var row, col := py / tileHeight, px / tileWidth;
    Arithmetic.DivNonneg(py, tileHeight);
    Arithmetic.DivNonneg(px, tileWidth);
    assert px == tileWidth * col + px % tileWidth;
    assert py == tileHeight * row + py % tileHeight;
    Arithmetic.MulCancel(tileWidth, col, cols);
    Arithmetic.MulCancel(tileHeight, row, rows);
    TileAt(width, height, tileWidth, tileHeight, row, col);
  }

  /** Every tile lies inside [0, cols * tileWidth) x [0, rows * tileHeight). */
  lemma TileInsideGrid(width: nat, height: nat, tileWidth: nat, tileHeight: nat, k: nat)
    requires tileWidth > 0 && tileHeight > 0
    requires k < |Layout(width, height, tileWidth, tileHeight)|
    ensures var r := Layout(width, height, tileWidth, tileHeight)[k];
      0 <= r.x && r.x + r.width <= TileCount(width, tileWidth) * tileWidth &&
      0 <= r.y && r.y + r.height <= TileCount(height, tileHeight) * tileHeight
  {
    var rows, cols := TileCount(height, tileHeight), TileCount(width, tileWidth);
    TileNumber(width, height, tileWidth, tileHeight, k);
    BandWithin(tileWidth, k % cols, cols);
    BandWithin(tileHeight, k / cols, rows);
  }

  /** Band i of n bands of the given size lies inside [0, n * size). */
  lemma BandWithin(size: nat, i: nat, n: nat)
    requires i < n
    ensures 0 <= size * i && size * i + size <= n * size
  {
    Arithmetic.MulMono(size, 0, i);
    Arithmetic.MulMono(size, i + 1, n);
    assert size * (i + 1) == size * i + size;
  }

  /** Every pixel of the image lies in exactly one tile, the k-th. */
  lemma PixelInOneTile(width: nat, height: nat, tileWidth: nat, tileHeight: nat, px: int, py: int)
    returns (k: nat)
    requires tileWidth > 0 && tileHeight > 0
    requires 0 <= px < width && 0 <= py < height
    ensures k < |Layout(width, height, tileWidth, tileHeight)|
    ensures Contains(Layout(width, height, tileWidth, tileHeight)[k], px, py)
    ensures forall j :: (0 <= j < |Layout(width, height, tileWidth, tileHeight)| &&
                         Contains(Layout(width, height, tileWidth, tileHeight)[j], px, py)) ==> j == k
  {
    assert px < TileCount(width, tileWidth) * tileWidth by {
      TileCountCovers(width, tileWidth);
    }
    assert py < TileCount(height, tileHeight) * tileHeight by {
      TileCountCovers(height, tileHeight);
    }
    TilesCover(width, height, tileWidth, tileHeight, px, py);
    Arithmetic.DivNonneg(py, tileHeight);
    Arithmetic.DivNonneg(px, tileWidth);
    var row: nat, col: nat := py / tileHeight, px / tileWidth;
    Arithmetic.MulMono(TileCount(width, tileWidth), 0, row);
    k := row * TileCount(width, tileWidth) + col;
    forall j | 0 <= j < |Layout(width, height, tileWidth, tileHeight)| &&
      Contains(Layout(width, height, tileWidth, tileHeight)[j], px, py)
      ensures j == k
    {
      TilesDisjoint(width, height, tileWidth, tileHeight, j, k, px, py);
    }
  }

  /**
   * Edge tiles are not clamped: when the width is not a multiple of the tile
   * width, the last tile of every row reaches past the image's right edge.
   */
  lemma EdgeTileOverhangs(width: nat, height: nat, tileWidth: nat, tileHeight: nat, row: nat)
    requires tileWidth > 0 && tileHeight > 0 && row < TileCount(height, tileHeight)
    requires width % tileWidth != 0
    ensures var L := Layout(width, height, tileWidth, tileHeight);
      var cols := TileCount(width, tileWidth);
      var last := row * cols + cols - 1;
      0 < cols && last < |L| && L[last].width == tileWidth && L[last].x + L[last].width > width
  {
    var rows, cols := TileCount(height, tileHeight), TileCount(width, tileWidth);
    var L := Layout(width, height, tileWidth, tileHeight);
    assert width < cols * tileWidth by {
      TileCountCovers(width, tileWidth);
      Arithmetic.DivModUnique(cols, 0, tileWidth);
    }
    assert tileWidth * (cols - 1) + tileWidth == cols * tileWidth;
    TileAt(width, height, tileWidth, tileHeight, row, cols - 1);
  }

  /** A 100x100 image with 50x50 tiles gives four tiles, row by row. */
  lemma SquareScenario()
    ensures Layout(100, 100, 50, 50)
         == [Rect(0, 0, 50, 50), Rect(50, 0, 50, 50), Rect(0, 50, 50, 50), Rect(50, 50, 50, 50)]
  {
    var L := Layout(100, 100, 50, 50);
    assert TileCount(100, 50) == 2;
    assert |L| == 4;
  }

  /** A 101x100 image with 50x50 tiles gives 3 columns by 2 rows, the third column 50 wide too. */
  lemma RaggedScenario()
    ensures var L := Layout(101, 100, 50, 50);
      |L| == 6 && L[2] == Rect(100, 0, 50, 50) && L[5] == Rect(100, 50, 50, 50)
  {
    assert TileCount(101, 50) == 3 && TileCount(100, 50) == 2;
  }

  // ---------------------------------------------------------------------------
  // Tiles, jobs and the tile path
  // ---------------------------------------------------------------------------

  /** A loaded reference image, known by the URL it was loaded from. */
  datatype LoadedImage = LoadedImage(src: string)

  /** An entry of `slicedImageList`: the snapshot and its place, later its reference image. */
  datatype Tile = Tile(data: seq<Byte>, width: int, height: int, x: int, y: int,
                       src: Option<string>, image: Option<LoadedImage>)

  /**
   * The tiles `build` pushes. `snapshot(x, y)` stands for the pixel data that
   * the canvas calls return for the tile whose top-left corner is (x, y).
   */
  function Tiles(width: nat, height: nat, tileWidth: nat, tileHeight: nat,
                 snapshot: (int, int) -> seq<Byte>): (ts: seq<Tile>)
    requires tileWidth > 0 && tileHeight > 0
    ensures var L := Layout(width, height, tileWidth, tileHeight);
      |ts| == |L| &&
      forall k :: 0 <= k < |ts| ==>
        Rect(ts[k].x, ts[k].y, ts[k].width, ts[k].height) == L[k] &&
        ts[k].data == snapshot(ts[k].x, ts[k].y) && ts[k].src.None? && ts[k].image.None?
  {
    var L := Layout(width, height, tileWidth, tileHeight);
    seq(|L|, k requires 0 <= k < |L| => Tile(snapshot(L[k].x, L[k].y), L[k].width, L[k].height, L[k].x, L[k].y, None, None))
  }

  /** The message `getAverageColor` posts: handler key, pixels, and the tile's number. */
  datatype Job = Job(index: int, imageData: seq<Byte>, tileIndex: int)

  /** The colour result a worker reports; its fields are whatever the worker put there. */
  datatype ColorResult = ColorResult(index: int, colorHex: string)

  /** `'color/' + colorHex.substring(1)`: the URL requested for a tile's reference image. */
  function TilePath(colorHex: string): (path: string)
    ensures |path| >= 6 && path[..6] == "color/"
  {
    "color/" + (if |colorHex| == 0 then "" else colorHex[1..])
  }

  /** Reads a colour back from a `color/rrggbb` path; None for any other path. */
  function ColourOfTilePath(path: string): Option<ImageHelper.Rgb> {
    if |path| == 12 && path[..6] == "color/" then ImageHelper.HexToRgb("#" + path[6..]) else None
  }

  /**
   * For a hex string made by convertRgbToHex, the tile path is `color/`
   * followed by the six hex digits, and the colour can be read back from it.
   */
  lemma TilePathOfColour(r: Byte, g: Byte, b: Byte)
    ensures var path := TilePath(ImageHelper.ConvertRgbToHex(r, g, b));
      |path| == 12 && (forall i :: 6 <= i < 12 ==> ImageHelper.IsHexDigit(path[i])) &&
      ColourOfTilePath(path) == Some(ImageHelper.Rgb(r, g, b))
  {
    var hex := ImageHelper.ConvertRgbToHex(r, g, b);
    var path := TilePath(hex);
    assert path[6..] == hex[1..];
    assert "#" + path[6..] == hex;
    ImageHelper.HexRoundTrip(r, g, b);
  }

  // ---------------------------------------------------------------------------
  // Promises, workers and worker messages
  // ---------------------------------------------------------------------------

  /** The state of a promise: settled at most once. */
  datatype Settlement<T> = Pending | Fulfilled(value: T) | Rejected(reason: string)

  /** Calling resolve or reject: only a pending promise changes. */
  function Settle<T>(s: Settlement<T>, outcome: Settlement<T>): (r: Settlement<T>)
    ensures r == s || r == outcome
    ensures !s.Pending? ==> r == s
    ensures !outcome.Pending? ==> !r.Pending?
  {
    if s.Pending? then outcome else s
  }

  /** The script every pool member runs. */
  const WorkerScript: string := "js/worker.js"

  /** `_workersCount`: workers launched per `launchWorkers` call, and the cursor's period. */
  const WorkersCount: nat := 4

  /** What is thrown when `undefined` is used as an object. */
  const TypeError: string := "TypeError"

  /** A Web Worker; what it runs is not part of this model. */
  class Worker {
    const script: string
    /** The Mosaic whose `onWorkerMessage` receives this worker's messages. */
    var listener: Mosaic?

    constructor(script: string)
      ensures this.script == script && listener == null
    {
      this.script := script;
      listener := null;
    }
  }

  /** A message handed to a worker's `postMessage`. */
  datatype Post = Post(worker: Worker, job: Job)

  /** `e.data` of a worker's message event. */
  datatype WorkerMessage = WorkerMessage(index: int, err: Option<string>, result: ColorResult)

  /** `if (e.data.err)`: a missing or empty error is falsy. */
  predicate HasError(m: WorkerMessage)
    ensures m.err.None? ==> !HasError(m)
    ensures m.err == Some("") ==> !HasError(m)
    ensures HasError(m) ==> |m.err.value| > 0
  {
    m.err.Some? && m.err.value != ""
  }

  /** What `onWorkerMessage` did with a message. */
  datatype Dispatch = NoHandler | CalledReject(key: int, reason: string) | CalledResolve(key: int, value: ColorResult)

  /** The cursor step of `getWorkerFromPool`. */
  function NextCursor(cursor: nat): (next: nat)
    ensures cursor < WorkersCount ==> next == (cursor + 1) % WorkersCount
    ensures cursor >= WorkersCount ==> next == cursor + 1
  {
    if cursor == WorkersCount - 1 then 0 else cursor + 1
  }

  /** The cursor after `calls` calls on one closure started at 0. */
  function CursorAfter(calls: nat): nat {
    if calls == 0 then 0 else NextCursor(CursorAfter(calls - 1))
  }

  /** A cursor kept across calls would visit the slots round-robin. */
  lemma {:induction false} CursorRoundRobin(calls: nat)
    ensures CursorAfter(calls) == calls % WorkersCount
  {
    if calls > 0 {
      CursorRoundRobin(calls - 1);
    }
  }

  /** Handler keys base+1 .. base+n, all pending. */
  function Registered(base: int, n: nat): (r: map<int, Settlement<ColorResult>>)
    ensures base !in r
    ensures n > 0 ==> base + n in r && r[base + n] == Pending
  {
    if n == 0 then map[] else Registered(base, n - 1)[base + n := Pending]
  }

  /** The handlers registered for n requests are keyed base + 1 .. base + n, all still pending. */
  lemma {:induction false} RegisteredKeys(base: int, n: nat)
    ensures forall k :: k in Registered(base, n) <==> base < k <= base + n
    ensures forall k :: k in Registered(base, n) ==> Registered(base, n)[k] == Pending
  {
    if n > 0 {
      RegisteredKeys(base, n - 1);
    }
  }

  /** The messages `build` posts for its tiles, all to worker w. */
  function Jobs(w: Worker, base: int, tiles: seq<Tile>): (js: seq<Post>)
    ensures |js| == |tiles|
    ensures forall k :: 0 <= k < |js| ==>
      js[k].worker == w && js[k].job.imageData == tiles[k].data && js[k].job.tileIndex == k
    ensures forall i, j :: 0 <= i < j < |js| ==> base < js[i].job.index < js[j].job.index
  {
    seq(|tiles|, k requires 0 <= k < |tiles| => Post(w, Job(base + k + 1, tiles[k].data, k)))
  }

  lemma JobsStep(w: Worker, base: int, tiles: seq<Tile>, t: Tile)
    ensures Jobs(w, base, tiles + [t]) == Jobs(w, base, tiles) + [Post(w, Job(base + |tiles| + 1, t.data, |tiles|))]
  {
  }

  lemma RegisteredStep(h0: map<int, Settlement<ColorResult>>, base: int, n: nat)
    ensures (h0 + Registered(base, n))[base + n + 1 := Pending] == h0 + Registered(base, n + 1)
  {
  }

  /** The tiles of one grid row, left to right, as build's inner loop pushes them. */
  function RowTiles(width: nat, tileWidth: nat, tileHeight: nat,
                    snapshot: (int, int) -> seq<Byte>, row: nat): (ts: seq<Tile>)
    requires tileWidth > 0
    ensures |ts| == TileCount(width, tileWidth)
    ensures forall c :: 0 <= c < |ts| ==>
      ts[c].y == tileHeight * row && ts[c].width == tileWidth && ts[c].height == tileHeight
  {
    seq(TileCount(width, tileWidth), c requires 0 <= c =>
      Tile(snapshot(tileWidth * c, tileHeight * row), tileWidth, tileHeight,
           tileWidth * c, tileHeight * row, None, None))
  }

  lemma RowTilesStep(width: nat, tileWidth: nat, tileHeight: nat,
                     snapshot: (int, int) -> seq<Byte>, row: nat, col: nat)
    requires tileWidth > 0 && col < TileCount(width, tileWidth)
    ensures RowTiles(width, tileWidth, tileHeight, snapshot, row)[..col + 1]
         == RowTiles(width, tileWidth, tileHeight, snapshot, row)[..col]
          + [Tile(snapshot(tileWidth * col, tileHeight * row), tileWidth, tileHeight,
                  tileWidth * col, tileHeight * row, None, None)]
  {
    assert RowTiles(width, tileWidth, tileHeight, snapshot, row)[col] == Tile(snapshot(tileWidth * col, tileHeight * row), tileWidth, tileHeight, tileWidth * col, tileHeight * row, None, None);
  }

  /** The tile list is its rows laid end to end: row r fills numbers r * cols up to (r + 1) * cols. */
  lemma TilesByRows(width: nat, height: nat, tileWidth: nat, tileHeight: nat,
                    snapshot: (int, int) -> seq<Byte>, row: nat)
    requires tileWidth > 0 && tileHeight > 0
    requires row < TileCount(height, tileHeight)
    ensures (row + 1) * TileCount(width, tileWidth) <= |Tiles(width, height, tileWidth, tileHeight, snapshot)|
    ensures Tiles(width, height, tileWidth, tileHeight, snapshot)[..(row + 1) * TileCount(width, tileWidth)]
         == Tiles(width, height, tileWidth, tileHeight, snapshot)[..row * TileCount(width, tileWidth)]
          + RowTiles(width, tileWidth, tileHeight, snapshot, row)
  {
    var rows, cols := TileCount(height, tileHeight), TileCount(width, tileWidth);
    var all := Tiles(width, height, tileWidth, tileHeight, snapshot);
    var R := RowTiles(width, tileWidth, tileHeight, snapshot, row);
    Arithmetic.MulMono(cols, row + 1, rows);
    assert (row + 1) * cols == row * cols + cols;
    forall c | 0 <= c < cols
      ensures all[row * cols + c] == R[c]
    {
      TileAt(width, height, tileWidth, tileHeight, row, c);
    }
    assert all[..(row + 1) * cols] == all[..row * cols] + R by {
      forall i | 0 <= i < (row + 1) * cols
        ensures all[..(row + 1) * cols][i] == (all[..row * cols] + R)[i]
      {
        if i >= row * cols {
          assert all[row * cols + (i - row * cols)] == R[i - row * cols];
        }
      }
    }
  }

  // ---------------------------------------------------------------------------
  // The Mosaic object
  // ---------------------------------------------------------------------------

  class Mosaic {
    const imageWidth: nat
    const imageHeight: nat
    const tileWidth: nat
    const tileHeight: nat
    /** `_workersPool` */
    var workersPool: seq<Worker>
    /** `_index`: the last handler key handed out. */
    var index: nat
    /** `_handlers`, each entry standing for the promise whose resolve/reject it holds. */
    var handlers: map<int, Settlement<ColorResult>>
    /** Every message handed to a worker's postMessage, in order. */
    var posted: seq<Post>

    /** Handler keys run from 1 to `index`, and every posted job names a registered handler. */
    ghost predicate Valid()
      reads this
    {
      (forall k :: k in handlers ==> 1 <= k <= index) &&
      (forall i :: 0 <= i < |posted| ==> posted[i].job.index in handlers)
    }

    constructor(imageWidth: nat, imageHeight: nat, tileWidth: nat, tileHeight: nat)
      ensures Valid()
      ensures this.imageWidth == imageWidth && this.imageHeight == imageHeight
      ensures this.tileWidth == tileWidth && this.tileHeight == tileHeight
      ensures workersPool == [] && index == 0 && handlers == map[] && posted == []
    {
      this.imageWidth, this.imageHeight := imageWidth, imageHeight;
      this.tileWidth, this.tileHeight := tileWidth, tileHeight;
      workersPool, index, handlers, posted := [], 0, map[], [];
    }

    /** launchWorkers: push WorkersCount new workers, each wired to this object. */
    method LaunchWorkers()
      requires Valid()
      modifies this`workersPool
      ensures Valid()
      ensures |workersPool| == old(|workersPool|) + WorkersCount
      ensures workersPool[..old(|workersPool|)] == old(workersPool)
      ensures forall i :: old(|workersPool|) <= i < |workersPool| ==>
        fresh(workersPool[i]) && workersPool[i].script == WorkerScript && workersPool[i].listener == this
      ensures forall i, j :: old(|workersPool|) <= i < j < |workersPool| ==> workersPool[i] != workersPool[j]
    {
      for i := 0 to WorkersCount
        invariant |workersPool| == old(|workersPool|) + i
        invariant workersPool[..old(|workersPool|)] == old(workersPool)
        invariant forall j :: old(|workersPool|) <= j < |workersPool| ==>
          fresh(workersPool[j]) && workersPool[j].script == WorkerScript && workersPool[j].listener == this
        invariant forall j, k :: old(|workersPool|) <= j < k < |workersPool| ==> workersPool[j] != workersPool[k]
      {
        var worker := new Worker(WorkerScript);
        worker.listener := this;
        workersPool := workersPool + [worker];
      }
    }

    /** getWorkerFromPool: the slot at the cursor (undefined past the end) and the advanced cursor. */
    method GetWorkerFromPool(cursor: nat) returns (worker: Option<Worker>, next: nat)
      ensures worker.Some? <==> cursor < |workersPool|
      ensures worker.Some? ==> worker.value == workersPool[cursor]
      ensures next == NextCursor(cursor)
    {
      worker := if cursor < |workersPool| then Some(workersPool[cursor]) else None;
      if cursor == WorkersCount - 1 {
        next := 0;
      } else {
        next := cursor + 1;
      }
    }

    /**
     * getWorker: the cursor is a fresh local set to 0 on every call, so the
     * answer is always pool slot 0.
     */
    method GetWorker() returns (worker: Option<Worker>)
      ensures worker == if |workersPool| > 0 then Some(workersPool[0]) else None
    {
      var cursor := 0;
      var next;
      worker, next := GetWorkerFromPool(cursor);
    }

    /**
     * getAverageColor: take the next handler key, register a pending handler
     * under it and post the job to the worker getWorker picks. With an empty
     * pool `postMessage` is called on undefined and the promise rejects.
     */
    method GetAverageColor(imageData: seq<Byte>, tileIndex: int) returns (key: int)
      requires Valid()
      modifies this`index, this`handlers, this`posted
      ensures Valid()
      ensures index == old(index) + 1 && key == index
      ensures key !in old(handlers)
      ensures handlers == old(handlers)[key := if |workersPool| > 0 then Pending else Rejected(TypeError)]
      ensures posted == old(posted) +
        (if |workersPool| > 0 then [Post(workersPool[0], Job(key, imageData, tileIndex))] else [])
    {
      index := index + 1;
      key := index;
      handlers := handlers[key := Pending];
      var worker := GetWorker();
      match worker {
        case Some(w) =>
          posted := posted + [Post(w, Job(key, imageData, tileIndex))];
        case None =>
          handlers := handlers[key := Rejected(TypeError)];
      }
    }

    /**
     * onWorkerMessage: settle the handler stored under the message's index,
     * rejecting when the message carries an error. A missing handler throws
     * before anything is settled.
     */
    method OnWorkerMessage(msg: WorkerMessage) returns (outcome: Dispatch)
      requires Valid()
      modifies this`handlers
      ensures Valid()
      ensures outcome == if msg.index !in old(handlers) then NoHandler
                         else if HasError(msg) then CalledReject(msg.index, msg.err.value)
                         else CalledResolve(msg.index, msg.result)
      ensures handlers.Keys == old(handlers).Keys
      ensures forall k :: k in old(handlers) && k != msg.index ==> handlers[k] == old(handlers)[k]
      ensures msg.index in old(handlers) ==> handlers[msg.index] == Settle(old(handlers)[msg.index],
        if HasError(msg) then Rejected(msg.err.value) else Fulfilled(msg.result))
    {
      if msg.index !in handlers {
        outcome := NoHandler;
      } else if HasError(msg) {
        handlers := handlers[msg.index := Settle(handlers[msg.index], Rejected(msg.err.value))];
        outcome := CalledReject(msg.index, msg.err.value);
      } else {
        handlers := handlers[msg.index := Settle(handlers[msg.index], Fulfilled(msg.result))];
        outcome := CalledResolve(msg.index, msg.result);
      }
    }

    /**
     * build: launch a fresh set of workers, then walk the grid row by row,
     * pushing each tile and requesting its average colour under the tile's
     * number. The completion counter starts at ceil(rows) * ceil(cols).
     */
    method Build(snapshot: (int, int) -> seq<Byte>) returns (session: BuildSession)
      requires Valid() && tileWidth > 0 && tileHeight > 0
      modifies this
      ensures Valid() && fresh(session) && session.Valid()
      ensures session.slicedImageList == Tiles(imageWidth, imageHeight, tileWidth, tileHeight, snapshot)
      ensures session.total == TileCount(imageHeight, tileHeight) * TileCount(imageWidth, tileWidth)
      ensures session.total == |session.slicedImageList|
      ensures session.state == Pending && session.loads == 0
      ensures |workersPool| == old(|workersPool|) + WorkersCount
      ensures workersPool[..old(|workersPool|)] == old(workersPool)
      ensures forall i :: old(|workersPool|) <= i < |workersPool| ==>
        fresh(workersPool[i]) && workersPool[i].script == WorkerScript && workersPool[i].listener == this
      ensures forall i, j :: old(|workersPool|) <= i < j < |workersPool| ==> workersPool[i] != workersPool[j]
      ensures index == old(index) + session.total
      ensures handlers == old(handlers) + Registered(old(index), session.total)
      ensures forall k :: k in old(handlers) ==> k in handlers && handlers[k] == old(handlers)[k]
      ensures posted == old(posted) + Jobs(workersPool[0], old(index), session.slicedImageList)
    {
      LaunchWorkers();
      var dy := tileHeight;
      var cols := TileCount(imageWidth, tileWidth);
      var rows := TileCount(imageHeight, dy);
      var total := rows * cols;
      var slicedImageList: seq<Tile> := [];
      ghost var all := Tiles(imageWidth, imageHeight, tileWidth, dy, snapshot);
      ghost var pool := workersPool;
      var row := 0;
      // row < height / dy over the reals is row < rows over the integers (TileCountExact)
      while row < rows
        invariant Valid() && workersPool == pool
        invariant forall i :: old(|workersPool|) <= i < |pool| ==>
          fresh(pool[i]) && pool[i].script == WorkerScript && pool[i].listener == this
        invariant forall i, j :: old(|workersPool|) <= i < j < |pool| ==> pool[i] != pool[j]
        invariant row <= rows && |slicedImageList| == row * cols <= |all|
        invariant slicedImageList == all[..row * cols]
        invariant index == old(index) + |slicedImageList|
        invariant handlers == old(handlers) + Registered(old(index), |slicedImageList|)
        invariant posted == old(posted) + Jobs(pool[0], old(index), slicedImageList)
      {
        TilesByRows(imageWidth, imageHeight, tileWidth, dy, snapshot, row);
        slicedImageList := SliceRow(snapshot, row, slicedImageList, old(index), old(handlers), old(posted));
        row := row + 1;
      }
      assert slicedImageList == all;
      RegisteredKeys(old(index), total);
      session := new BuildSession(slicedImageList, total);
    }

    /**
     * One pass of build's inner loop body: cut the tile at (row, col), push it
     * and request its average colour under its number in the tile list.
     */
    method CutTile(snapshot: (int, int) -> seq<Byte>, row: nat, col: nat, list: seq<Tile>,
                   ghost base: int, ghost handlers0: map<int, Settlement<ColorResult>>, ghost posted0: seq<Post>)
      returns (tile: Tile)
      requires Valid() && |workersPool| > 0
      requires index == base + |list|
      requires handlers == handlers0 + Registered(base, |list|)
      requires posted == posted0 + Jobs(workersPool[0], base, list)
      modifies this`index, this`handlers, this`posted
      ensures tile == Tile(snapshot(tileWidth * col, tileHeight * row), tileWidth, tileHeight,
                           tileWidth * col, tileHeight * row, None, None)
      ensures Valid()
      ensures index == base + |list| + 1
      ensures handlers == handlers0 + Registered(base, |list| + 1)
      ensures posted == posted0 + Jobs(workersPool[0], base, list + [tile])
    {
      var dx, dy := tileWidth, tileHeight;
      tile := Tile(snapshot(dx * col, dy * row), dx, dy, dx * col, dy * row, None, None);
      RegisteredStep(handlers0, base, |list|);
      JobsStep(workersPool[0], base, list, tile);
      var _ := GetAverageColor(tile.data, |list|);
    }

    /**
     * One pass of build's inner loop: the tiles of row `row`, left to right,
     * each pushed and sent for averaging under its running number.
     */
    method SliceRow(snapshot: (int, int) -> seq<Byte>, row: nat, slicedImageList: seq<Tile>,
                    ghost base: int, ghost handlers0: map<int, Settlement<ColorResult>>, ghost posted0: seq<Post>)
      returns (list: seq<Tile>)
      requires Valid() && tileWidth > 0 && |workersPool| > 0
      requires index == base + |slicedImageList|
      requires handlers == handlers0 + Registered(base, |slicedImageList|)
      requires posted == posted0 + Jobs(workersPool[0], base, slicedImageList)
      modifies this`index, this`handlers, this`posted
      ensures Valid()
      ensures list == slicedImageList + RowTiles(imageWidth, tileWidth, tileHeight, snapshot, row)
      ensures index == base + |list|
      ensures handlers == handlers0 + Registered(base, |list|)
      ensures posted == posted0 + Jobs(workersPool[0], base, list)
    {
      var dx, dy := tileWidth, tileHeight;
      var cols := TileCount(imageWidth, dx);
      ghost var R := RowTiles(imageWidth, dx, dy, snapshot, row);
      list := slicedImageList;
      var count := |list|;
      var col := 0;
      // col < width / dx over the reals is col < cols over the integers (TileCountExact)
      while col < cols
        invariant Valid()
        invariant col <= cols && count == |list| == |slicedImageList| + col
        invariant list == slicedImageList + R[..col]
        invariant index == base + count
        invariant handlers == handlers0 + Registered(base, count)
        invariant posted == posted0 + Jobs(workersPool[0], base, list)
      {
        RowTilesStep(imageWidth, dx, dy, snapshot, row, col);
        var tile := CutTile(snapshot, row, col, list, base, handlers0, posted0);
        list := list + [tile];
        count := count + 1;
        col := col + 1;
      }
      assert R[..col] == R;
    }
  }

  // ---------------------------------------------------------------------------
  // One build: the tile list, the completion counter and the build's promise
  // ---------------------------------------------------------------------------

  class BuildSession {
    /** The tiles in row-major order; each gains its reference image when it loads. */
    var slicedImageList: seq<Tile>
    /** `total`: tile images still to load. */
    var total: int
    /** The promise `build` returned. */
    var state: Settlement<seq<Tile>>
    /** The counter's starting value. */
    ghost const expected: nat
    /** Tile images loaded so far. */
    ghost var loads: nat

    /**
     * The counter is the starting value minus the loads; the build resolves
     * at the load that brings the counter to zero and not before.
     */
    ghost predicate Valid()
      reads this
    {
      total == expected - loads &&
      (state.Fulfilled? ==> 0 < expected <= loads) &&
      (state.Pending? && 0 < expected ==> loads < expected)
    }

    constructor(tiles: seq<Tile>, total: nat)
      ensures Valid()
      ensures slicedImageList == tiles && this.total == total && expected == total
      ensures state == Pending && loads == 0
    {
      slicedImageList := tiles;
      this.total := total;
      state := Pending;
      expected := total;
      loads := 0;
    }

    /** The rejection handler of a colour request: `reject(err)` on the build. */
    method OnColorError(reason: string)
      requires Valid()
      modifies this`state
      ensures Valid()
      ensures state == Settle(old(state), Rejected(reason))
    {
      state := Settle(state, Rejected(reason));
    }

    /**
     * The load event of a tile's reference image: record it on the tile the
     * result names, count it down, and resolve the build when the counter
     * reaches zero. A result index with no tile throws before anything changes.
     */
    method OnTileImageLoad(result: ColorResult, src: string) returns (ok: bool)
      requires Valid()
      modifies this`slicedImageList, this`total, this`state, this`loads
      ensures Valid()
      ensures ok == (0 <= result.index < |old(slicedImageList)|)
      ensures !ok ==> (slicedImageList == old(slicedImageList) && total == old(total) &&
                       state == old(state) && loads == old(loads))
      ensures ok ==> slicedImageList == old(slicedImageList)[result.index :=
        old(slicedImageList)[result.index].(src := Some(src), image := Some(LoadedImage(src)))]
      ensures ok ==> total == old(total) - 1 && loads == old(loads) + 1
      ensures ok ==> state == if total == 0 then Settle(old(state), Fulfilled(slicedImageList)) else old(state)
      ensures old(state).Pending? && state.Fulfilled? <==> old(state).Pending? && ok && loads == expected
    {
      ok := 0 <= result.index < |slicedImageList|;
      if ok {
        var i := result.index;
        slicedImageList := slicedImageList[i := slicedImageList[i].(src := Some(src))];
        slicedImageList := slicedImageList[i := slicedImageList[i].(image := Some(LoadedImage(src)))];
        total := total - 1;
        loads := loads + 1;
        if total == 0 {
          state := Settle(state, Fulfilled(slicedImageList));
        }
      }
    }
  }
}
