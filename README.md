# Photo mosaic: colour helpers and the Mosaic builder

This project models the core of a browser photo-mosaic builder. The builder cuts
a source image into a grid of tiles and has Web Workers compute each tile's
average colour. It then fetches a reference image named after that colour for
every tile and resolves once every tile image has loaded.

Three modules:

- `ImageHelper` (`image_helper.dfy`) covers the two colour helpers.
  - `getAverageRGB` samples every fifth pixel of an RGBA buffer, starting at
    byte 16. It sums the red, green and blue bytes and floor-divides each sum
    by the number of samples.
  - `convertRgbToHex` packs `b | g << 8 | r << 16 | 1 << 24` and prints it in
    base 16. It then drops the leading sentinel `1`, which gives `#rrggbb`.
  - The bit operations are written out on unbounded integers: `BitOr` works bit
    by bit and `ShiftLeft` multiplies by a power of two. Hex printing is
    written out as digit lists.
- `PhotoMosaic` (`photo_mosaic.dfy`) covers the `Mosaic` object, the tiles and
  the tile path.
  - The row-major tile grid is `Layout` / `Tiles`.
  - The tile path `color/` + hex digits is `TilePath`.
  - `Mosaic` is a class. Its fields are the worker pool, the running handler
    key `index` and the handler table. Each handler is stored as the state of
    the promise whose `resolve`/`reject` it holds. The messages posted to
    workers are recorded as a sequence.
  - Each `build` call gets a `BuildSession`. It holds the tile list, the
    `total` completion counter and the state of the promise `build` returned.
  - Asynchronous callbacks are methods that the environment may call in any
    order: a worker's message (`OnWorkerMessage`), the rejection of a colour
    request (`OnColorError`) and a tile image's load event (`OnTileImageLoad`).
- `Arithmetic` (`arith.dfy`) holds small facts about multiplication and
  division that the grid proofs use. `Wrappers` holds `Option`.

Behaviour kept as written:

- `getWorker` keeps its cursor in a local that is reset to 0 on every call, so
  every job goes to pool slot 0 (`Mosaic.GetWorker`). `CursorRoundRobin` shows
  what the cursor step would do if it were kept across calls.
- Edge tiles are not clamped. Every tile is cut at the full tile size, so the
  last column and the last row can reach past the image (`EdgeTileOverhangs`,
  `RaggedScenario`).
- A build of an image with zero width or height has `total == 0` and no tiles.
  No load event ever arrives, so its promise stays pending forever.
  `BuildSession.Valid` says a build resolves only after at least one load.
- The loop test `row < height / tileHeight` is over real numbers. For an
  integer `row` it holds exactly when `row < ceil(height / tileHeight)`
  (`TileCountExact`). The model loops up to that integer count.

## Model

| member | source | states |
|---|---|---|
| ImageHelper.Offset | js/image-helper.js:11-16 | the k-th byte offset the cursor reads, starting at -4 and advanced by 20 before each read: at least 16 and a whole number of strides past 16 |
| ImageHelper.SampleCount | js/image-helper.js:16-17 | the number of loop passes, `count`; zero exactly when the buffer is no longer than the first offset, 16 |
| ImageHelper.SampleCountExact | js/image-helper.js:16 | the k-th visited offset 16 + 20k is below the buffer length exactly when k is below the sample count |
| ImageHelper.SampleInBounds | js/image-helper.js:16-20 | every visited offset is a pixel's first byte, and that pixel's red, green, blue and alpha bytes lie inside the buffer |
| ImageHelper.Pixel | js/image-helper.js:18-20 | the red, green and blue bytes read at the k-th visited offset; each is a byte value |
| ImageHelper.ChannelSum | js/image-helper.js:16-21 | the `rgb.r`/`rgb.g`/`rgb.b` accumulator after n loop passes; between 0 and 255*n |
| ImageHelper.AverageRgb | js/image-helper.js:23-25 | the floor-divided average of each channel is a byte value (0..255) |
| ImageHelper.GetAverageRgb | js/image-helper.js:8-28 | the strided loop returns the per-channel floor average of the sampled pixels; with no sample (0 / 0, NaN in the source) it returns None, and only then |
| ImageHelper.ChannelSumOfSamples | js/image-helper.js:16-21 | a channel sum depends only on the sampled pixels |
| ImageHelper.AverageOfSamples | js/image-helper.js:16-25 | two buffers of one length whose sampled pixels agree have the same average |
| ImageHelper.AlphaIgnored | js/image-helper.js:18-20 | changing only alpha bytes never changes the average |
| ImageHelper.ChannelSumBounds | js/image-helper.js:16-21 | n samples each in [lo, hi] sum to between n*lo and n*hi |
| ImageHelper.AverageWithin | js/image-helper.js:23-25 | the floor average of a channel lies between that channel's smallest and largest sampled value |
| ImageHelper.AverageBetweenSamples | js/image-helper.js:23-25 | the same bound, stated on the averaged colour |
| ImageHelper.UniformAverage | js/image-helper.js:8-28 | a block whose sampled pixels all have one colour averages to exactly that colour |
| ImageHelper.ShiftLeft | js/image-helper.js:42-44 | x*2^n, which is `x << n` while the result stays below 2^31: the n low bits are zero and shifting back right gives x |
| ImageHelper.BitOr | js/image-helper.js:41-44 | bitwise OR on non-negative values below 2^31, computed bit by bit: at least each operand and at most their sum |
| ImageHelper.BitOrDisjoint | js/image-helper.js:41-44 | OR-ing x with a value shifted past all of x's bits is addition |
| ImageHelper.Packed | js/image-helper.js:40-45 | the OR of b, g shifted by 8, r shifted by 16 and 1 shifted by 24 equals 2^24 + r*2^16 + g*2^8 + b for byte channels |
| ImageHelper.DigitValueOfHexDigit | js/image-helper.js:46 | every digit toString(16) prints reads back as its value |
| ImageHelper.ToHexString | js/image-helper.js:46 | base-16 printing yields a non-empty string of lowercase hex digits |
| ImageHelper.ParseToHexString | js/image-helper.js:46 | reading the printed digits back gives the number printed |
| ImageHelper.ParsePad | js/image-helper.js:46-47 | k fixed-width hex digits of n < 16^k read back as n |
| ImageHelper.SentinelDigits | js/image-helper.js:44-47 | printing 16^k + n is the sentinel digit 1 followed by exactly k digits of n, leading zeros kept |
| ImageHelper.PadSplit | js/image-helper.js:41-44 | the fixed-width digits of a*16^k + c are those of a followed by the k digits of c |
| ImageHelper.ChannelDigits | js/image-helper.js:41-43 | six digits of r*2^16 + g*2^8 + b are two for red, then two for green, then two for blue |
| ImageHelper.PackedDigits | js/image-helper.js:38-47 | toString(16) of the packed value is `1` followed by two digits per channel, red first |
| ImageHelper.ConvertRgbToHex | js/image-helper.js:38-48 | the result is `#` followed by six lowercase hex digits: the two-digit, zero-padded red, green and blue |
| ImageHelper.HexRoundTrip | js/image-helper.js:38-48 | the colour can be read back from its hex string |
| ImageHelper.HexInjective | js/image-helper.js:38-48 | distinct colours get distinct hex strings |
| PhotoMosaic.TileCount | js/photo-mosaic.js:130-133 | `Math.ceil(extent / size)`, the number of rows or columns; zero exactly when the extent is zero |
| PhotoMosaic.TileCountExact | js/photo-mosaic.js:130-138 | the loop test `i < extent / size` holds for integer i exactly when i < ceil(extent / size) |
| PhotoMosaic.TileCountCovers | js/photo-mosaic.js:130-138 | the tiles of a row (column) reach at least to the image's width (height) |
| PhotoMosaic.Layout | js/photo-mosaic.js:137-150 | the rectangles the nested loops cut, in visiting order: none exactly when the image has no width or no height, each of the full tile size |
| PhotoMosaic.Tiles | js/photo-mosaic.js:137-152 | the tile list `build` pushes: tile k has the k-th rectangle of `Layout`, holds the pixels snapshotted at its own corner, and has no reference image yet |
| PhotoMosaic.TileAt | js/photo-mosaic.js:137-150 | the tile visited at (row, col) is number row*cols + col, at (tileWidth*col, tileHeight*row), full tile size |
| PhotoMosaic.TileNumber | js/photo-mosaic.js:137-150 | tile number k lies in row k / cols and column k % cols |
| PhotoMosaic.TilesDisjoint | js/photo-mosaic.js:137-150 | no point lies in two different tiles |
| PhotoMosaic.TilesCover | js/photo-mosaic.js:137-150 | every point of the tiled area lies in the tile numbered (py / th) * cols + px / tw |
| PhotoMosaic.TileInsideGrid | js/photo-mosaic.js:137-150 | every tile lies inside the cols*tw by rows*th tiled area |
| PhotoMosaic.PixelInOneTile | js/photo-mosaic.js:137-150 | every pixel of the image lies in exactly one tile |
| PhotoMosaic.EdgeTileOverhangs | js/photo-mosaic.js:141-150 | when the width is not a multiple of the tile width, the last tile of every row keeps the full width and reaches past the image edge |
| PhotoMosaic.SquareScenario | js/photo-mosaic.js:137-150 | a 100x100 image with 50x50 tiles gives exactly four tiles in row-major order |
| PhotoMosaic.RaggedScenario | js/photo-mosaic.js:137-150 | a 101x100 image with 50x50 tiles gives 3 columns by 2 rows, the third column full width |
| PhotoMosaic.RowTiles | js/photo-mosaic.js:138-152 | the tiles one pass of the inner loop pushes: one per column, all in that row, each of the full tile size |
| PhotoMosaic.TilesByRows | js/photo-mosaic.js:137-152 | the tile list is the rows' tiles laid end to end, row r filling numbers r*cols to (r+1)*cols |
| PhotoMosaic.TilePath | js/photo-mosaic.js:157 | the tile URL always starts with `color/` |
| PhotoMosaic.TilePathOfColour | js/photo-mosaic.js:157 | for a colour's hex string, the tile URL is `color/` and six hex digits, and the colour reads back from it |
| PhotoMosaic.Settle | js/photo-mosaic.js:94-96 | calling resolve or reject on a promise: the result is the old state or the outcome, a settled promise never changes, and after a resolve or reject the promise is settled |
| PhotoMosaic.HasError | js/photo-mosaic.js:93 | the truthiness test on `e.data.err`: an absent or empty error is falsy, and a truthy error is a non-empty string |
| PhotoMosaic.NextCursor | js/photo-mosaic.js:104-108 | getWorkerFromPool's cursor step: inside the pool's period it advances by one modulo 4; past it, it only grows |
| PhotoMosaic.CursorRoundRobin | js/photo-mosaic.js:100-113 | a cursor stepped by getWorkerFromPool's rule from 0 would visit the slots round-robin, calls mod 4 |
| PhotoMosaic.Registered | js/photo-mosaic.js:192-200 | the handler entries n requests from key base add: key base is not among them, and the latest key base+n is pending |
| PhotoMosaic.Jobs | js/photo-mosaic.js:204-208 | the messages `build` posts, one getAverageColor call per tile with `count` as its tile number: all to the given worker, carrying tile k's pixels under tile number k, with keys above base that strictly increase |
| PhotoMosaic.RegisteredKeys | js/photo-mosaic.js:191-200 | n colour requests from key base register handlers base+1 .. base+n, all pending |
| PhotoMosaic.Worker.constructor | js/photo-mosaic.js:84 | `new Worker('js/worker.js')`: a worker running the given script, with no message listener yet |
| PhotoMosaic.Mosaic.constructor | js/photo-mosaic.js:71-78 | a new Mosaic has an empty pool, key counter 0 and no handlers |
| PhotoMosaic.Mosaic.LaunchWorkers | js/photo-mosaic.js:81-89 | appends four distinct fresh workers running `js/worker.js`, each wired to this Mosaic, and keeps the old pool as a prefix |
| PhotoMosaic.Mosaic.GetWorkerFromPool | js/photo-mosaic.js:102-110 | returns the slot at the cursor (undefined past the pool's end) and the advanced cursor, which wraps from 3 to 0 |
| PhotoMosaic.Mosaic.GetWorker | js/photo-mosaic.js:100-113 | always answers pool slot 0, or undefined for an empty pool |
| PhotoMosaic.Mosaic.GetAverageColor | js/photo-mosaic.js:191-212 | takes a fresh handler key, registers a pending handler under it, and posts {key, pixels, tile number} to slot 0; with an empty pool the request rejects with a TypeError |
| PhotoMosaic.Mosaic.OnWorkerMessage | js/photo-mosaic.js:91-98 | settles only the handler named by the message, rejecting when it carries an error; a missing handler throws; every other handler is unchanged; a settled promise stays settled |
| PhotoMosaic.Mosaic.Build | js/photo-mosaic.js:121-183 | launches four distinct fresh workers running `js/worker.js`, each wired to this Mosaic, pushes the tiles in row-major order, counter = ceil(rows)*ceil(cols) = number of tiles, registers one pending handler per tile with consecutive keys, posts tile k's pixels under tile number k, keeps earlier handlers |
| PhotoMosaic.Mosaic.SliceRow | js/photo-mosaic.js:137-179 | one pass of the inner loop appends exactly the row's tiles and one request per tile |
| PhotoMosaic.Mosaic.CutTile | js/photo-mosaic.js:139-177 | one inner-loop step cuts the tile at (row, col), requests its colour under the next key and tile number |
| PhotoMosaic.BuildSession.constructor | js/photo-mosaic.js:126-136 | a build starts with its tiles, the counter at its starting value and a pending promise |
| PhotoMosaic.BuildSession.OnColorError | js/photo-mosaic.js:174-176 | a rejected colour request rejects a still-pending build and leaves a settled one alone |
| PhotoMosaic.BuildSession.OnTileImageLoad | js/photo-mosaic.js:161-171 | records src and image on the tile the result names, decrements the counter, and resolves the build with the tile list exactly at the load that brings it to zero; an out-of-range index changes nothing |

## Left out

- Image loading, the canvas, Web Worker creation and message delivery, and the
  Promise machinery are outside the model. Workers are objects with a script
  name and a listener. Posting a job appends to `posted`. Promises are their
  settlement state. Callbacks are methods the caller invokes in any order.
- The pixel data `ctx.getImageData` returns for a tile is a parameter,
  `snapshot(x, y)`. The source reuses one canvas without clearing it, so an
  edge tile that overhangs the image keeps stale pixels from the previous tile.
  The model does not capture that.
- `scaleSize` resizes in floating point and is left out. `generate` composites
  the finished tiles onto a canvas with `drawImage` and is left out too.
- `js/worker.js` is not part of this model. The colour a worker reports, and
  the `index`/`colorHex` fields of its result, are whatever the message
  carries.
- `js/client.js` (the page's upload and display code) is not part of this model.
- `e.target.src` in the tile image's load event is the URL the browser resolved
  from `TilePath`. It is a parameter of `OnTileImageLoad`.
- ImageHelper.GetAverageRgb: requires a buffer of whole RGBA pixels, as every
  `ImageData` buffer is. Reads past the end, which give `undefined` in the
  source, are not modelled.
- ImageHelper.ShiftLeft: is x*2^n on unbounded integers. It agrees with `<<`
  only while the result stays below 2^31; the shifts in `convertRgbToHex` stay
  below 2^25.
- ImageHelper.BitOr: models `|` and `<<` only for non-negative operands whose
  result stays below 2^31. That covers every byte-channel input of
  `convertRgbToHex`. Channels outside 0..255 are excluded by the `Byte` type.
- PhotoMosaic.HasError: models the truthiness of `e.data.err` only for an
  absent or string error. A missing or empty error is falsy. Other falsy
  values, such as `0` or `false`, are not modelled.
- PhotoMosaic.Mosaic.Build: requires positive tile sizes. With a zero tile size
  the source's bound `width / 0` is Infinity, or NaN for a zero width, so its
  loop never ends or never starts.
- PhotoMosaic.Mosaic.OnWorkerMessage: the model does not track which build a
  handler belongs to, or the chain from a settled colour request to its tile
  image load. Those steps are the separate methods `OnColorError` and
  `OnTileImageLoad`.
