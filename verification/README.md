# Image-to-embroidery core, modelled in Dafny

The repository has two small Flask applications that turn a picture into an
embroidery design. Under the HTTP, file and imaging code there is a little pure,
integer-valued logic, and this project models it. Everything the model does is
stated as a function over immutable values: an image is `Raster.Image<T>`, with
`rows[y][x]` the pixel at column `x` of row `y`.

The image-processing route (`server.py`) has these parts:

- `Masks.RemoveBackground` makes near-white pixels transparent.
- `Masks.ConvertBw` maps every pixel to 0 or 255 against a threshold.
- `Sampler.Sample` walks the gray image on a 4-pixel grid and keeps the dark
  cells (gray < 128). It reverses every odd grid row so the needle snakes back
  and forth.
- `Emitter.Emit` turns those points into needle commands:
  `Jump(x, y) | Stitch(x, y) | End`. Before a stitch, it inserts a jump to the
  same point when the previous point is more than 20 units away.

The upload route (`app.py`) has these parts:

- `Edges.Binarize` makes a 0/1 mask against a threshold.
- `Edges.ImageToBinaryPoints` keeps every ink pixel whose 8-neighbourhood
  reaches outside the image or onto background. The points come out in
  row-major order.
- `Paths.RowPath` keeps one vertex per distinct row, at the mean column of the
  row's points. This is the path before simplification.
- The three exports:
  - `Csv.CsvText` writes one `x,y` line per vertex.
  - `Dst.EncodeDst` writes `struct.pack('<ii', x, y)` records.
  - `Dse.DseDocument` builds the JSON points-and-meta structure.

Each operation has a partner it is proved against:

- The emitter is checked against `Emitter.Trace`, a reader that replays a
  command list as the machine executes it.
- The edge probe loop is checked against the geometric 8-neighbourhood test
  `Edges.IsEdge`.
- The CSV writer is checked against a parser, `Csv.ParseCsv`, that accepts
  only numbers written the way `str` writes them. The writer's text is the
  only text that reads back as the truncated vertices.
- The DST encoder is checked against a decoder, `Dst.DecodeDst`. Decoding the
  encoder's bytes gives the truncated vertices (`Dst.DstRoundTrip`), and
  `Dst.PackAll` re-encodes every whole-record byte string to itself after
  decoding (`Dst.DecodeDstRoundTrip`).
- The two mask operations are shown to be idempotent or stable.

The distance test `math.hypot(dx, dy) > 20` is modelled as
`dx*dx + dy*dy > 400`. `Emitter.FarApartIsEuclidean` proves that the two agree
for every non-negative real `d` with `d*d == dx*dx + dy*dy`.

Behaviour of the Python code that the model keeps:

- Python's `int()` truncates toward zero; it does not round to nearest.
- Every CSV line, including the last, ends in `"\n"`.
- The first stitch is never preceded by a jump.
- The DST stream has no command tags.
- An empty point list produces the program `[End]`; no fallback shape is
  synthesised.

## Model

| member | source | states |
|---|---|---|
| `Geometry.Trunc` | app.py:67 | `int()` on a float: the integer between 0 and `r` that is less than 1 away from `r` |
| `Geometry.Truncated` | app.py:72 | `int(p['x']), int(p['y'])`: each coordinate is truncated toward zero, to the integer between 0 and it that is less than 1 away |
| `Geometry.TruncateAll` | app.py:75 | the list comprehension of `int()` pairs: same length, and vertex `i` becomes the point with both coordinates truncated toward zero |
| `Seqs.Reverse` | server.py:74-75 | `rowPoints.reverse()`: same length, element `i` is element `n-1-i` of the input |
| `Sampler.ScanRow` | server.py:70-73 | the cells kept in one grid row are exactly its dark 4-pixel-grid cells; x strictly ascending |
| `Sampler.RowPoints` | server.py:69-76 | one row's points are exactly its dark grid cells, left to right on even grid rows and right to left on odd ones |
| `Sampler.SampleFrom` | server.py:68-76 | the rows from `y` down contribute exactly the dark cells with row ≥ y, in strict snake order |
| `Sampler.Sample` | server.py:62-77 | a point is in `stitchPoints` iff it is a dark grid cell inside the image; the sequence is strictly snake-ordered |
| `Sampler.SampleOnGrid` | server.py:63-70 | every sampled point has `x % 4 == 0`, `y % 4 == 0`, `0 ≤ x < width`, `0 ≤ y < height` |
| `Sampler.SampleCount` | server.py:65-77 | no point repeats, the point set is the dark-cell set, and the count equals the number of dark grid cells |
| `Sampler.SampleOrder` | server.py:68-76 | rows ascend; within a row x ascends when `y/4` is even and descends when odd |
| `Emitter.FarApartIsEuclidean` | server.py:85-86 | for any Euclidean length `d` of the move, `d > 20` iff `dx²+dy² > 400` |
| `Emitter.FarApart` | server.py:85-86 | for every non-negative `d` whose square is `dx²+dy²`, `d > 20` iff the points are far apart; a point is never far from itself; a move of more than 20 along one axis is always far |
| `Emitter.EmitFrom` | server.py:81-89 | no end command; every jump is followed by the stitch at the same point; with no previous point the first command is that point's stitch |
| `Emitter.Emit` | server.py:80-90 | the program ends with exactly one end command; every jump is followed by a stitch at the same point; the first point is never jumped to; no points give `[End]` |
| `Emitter.EmitMakesIntendedVisits` | server.py:81-89 | replaying the program gives one stitch per input point, at its coordinates, in input order, jumped to iff a previous point exists and is more than 20 units away |
| `Masks.RemoveBackground` | server.py:14-18 | alpha becomes 0 exactly for pixels with r, g and b all above 200; all colour channels and all other pixels are unchanged |
| `Masks.RemoveBackgroundIdempotent` | server.py:16-18 | removing the background twice equals once; a pixel ends transparent iff it was near-white or already transparent |
| `Masks.ConvertBw` | server.py:26 | each output pixel is 0 iff the input is below the threshold, and otherwise 255 |
| `Masks.ConvertBwStable` | server.py:26 | converting a converted image again with any threshold in (0, 255] changes nothing |
| `Edges.Binarize` | app.py:24-25 | the mask is 1 at (x, y) iff the gray value there is below the threshold, else 0 |
| `Edges.ProbeFrom` | app.py:34-41 | the neighbour loop reports an edge iff some remaining table offset leads outside the image or onto background |
| `Edges.ProbeDecidesEdge` | app.py:28-41 | the 8-entry offset table is exactly the 8-neighbourhood, so the loop decides the geometric edge test |
| `Edges.EdgeRow` | app.py:31-43 | one row yields exactly its ink edge pixels, x strictly ascending |
| `Edges.EdgeRows` | app.py:30-43 | the rows from `y` down yield exactly the ink edge pixels with row ≥ y, in strict row-major order |
| `Edges.ImageToBinaryPoints` | app.py:24-45 | a pixel is returned iff it is inside, below the threshold, and has a neighbour outside or in the background; strict row-major order; the size is `(width, height)` |
| `Edges.EdgePointsAreInk` | app.py:32 | every returned point is an ink pixel (binary value 1) |
| `Edges.BorderInkIsEdge` | app.py:36-38 | every ink pixel on the image border is returned |
| `Edges.InteriorInkIsNotEdge` | app.py:33-43 | an ink pixel whose 8 neighbours are all inside and ink is not returned |
| `Edges.EdgePointsDistinct` | app.py:30-43 | no point is returned twice |
| `Paths.RowPath` | app.py:47-58 | empty input gives an empty path; rows strictly ascend; the rows visited are exactly the rows of the input; each vertex's x is the mean x of its row |
| `Paths.RowPathLength` | app.py:51-58 | the path has exactly one vertex per distinct row |
| `Decimal.IntText` | app.py:67 | `str(int)` inside the f-string: digits with at most a leading minus sign, the minus present iff the integer is negative, no leading zero and no `-0`, and the text reads back as the integer |
| `Decimal.ParseIntExact` | app.py:67 | a text reads as `i` only if it is exactly the text `str` writes for `i`, so the reader fixes every character |
| `Decimal.IntTextRoundTrip` | app.py:67 | reading back the decimal text of an integer gives the integer |
| `Csv.CsvLine` | app.py:67 | one written line ends in its only newline, and the text before it reads back as the vertex with both coordinates truncated; since the reader accepts only canonical numbers, this fixes the line's text |
| `Csv.CsvText` | app.py:64-67 | empty iff there are no vertices; a non-empty text ends in a newline |
| `Csv.CsvRoundTrip` | app.py:64-67 | parsing the CSV text gives every vertex, truncated, in order |
| `Csv.CsvTextUnique` | app.py:64-67 | any text that reads back as the truncated vertices is exactly the written text, so the file is the concatenation of one `f"{int(x)},{int(y)}\n"` line per vertex |
| `Csv.CsvLineCount` | app.py:66-67 | the text holds exactly one newline per vertex |
| `Dst.PackInt` | app.py:72 | `struct.pack('<i', v)`: four bytes which, read least significant first, equal `v` modulo 2^32 (two's complement) |
| `Dst.PackIntRoundTrip` | app.py:72 | a packed signed 32-bit value unpacks to itself |
| `Dst.UnpackIntRoundTrip` | app.py:72 | every 4-byte string is the packing of the value it unpacks to |
| `Dst.PackPoint` | app.py:72 | `struct.pack('<ii', x, y)`: 8 bytes, the first four `x` and the last four `y`, each little-endian modulo 2^32; the record unpacks to the point |
| `Dst.PackAll` | app.py:71-72 | 8 bytes per point, with bytes 8i..8i+8 the record of point i |
| `Dst.EncodeDst` | app.py:69-72 | succeeds iff every truncated coordinate fits in 32 bits; then 8·n bytes, with bytes 8i..8i+3 = `int(x_i)` and 8i+4..8i+7 = `int(y_i)` as little-endian two's complement; otherwise it names the first vertex, in order, that does not fit |
| `Dst.DecodeDst` | app.py:69-72 | accepts exactly the lengths that are multiples of 8, one point per record; otherwise reports the offset of the trailing partial record |
| `Dst.DstRoundTrip` | app.py:69-72 | decoding the written bytes gives every vertex, truncated, in order |
| `Dst.DecodeDstRoundTrip` | app.py:69-72 | every whole-record byte string is re-encoded to itself after decoding |
| `Dse.DseDocument` | app.py:74-75 | same length and order as the input, coordinates truncated, `meta` unchanged |
| `Dse.ExportsAgree` | app.py:64-75 | the CSV text and, when it can be written, the DST bytes read back to exactly the DSE point list |
| `Routes.StitchProgram` | server.py:62-90 | the program built from an image ends once with `End`, and every jump lands on a stitch |
| `Routes.StitchesPerDarkCell` | server.py:65-90 | the program has exactly one stitch per dark grid cell |
| `Routes.SampleAfterBw` | server.py:50-72 | after black-and-white conversion with threshold t, the sampler keeps exactly the grid cells whose original gray value is below t |
| `Routes.OutlinePath` | app.py:101-102 | the unsimplified outline path has strictly ascending rows inside the image, so at most `height` vertices |

## Left out

- HTTP routing, request parsing, `send_file`/`send_from_directory`, `jsonify`
  and `url_for`: these are transport, not computation.
- The `processing` option dispatch (server.py:47-53) is not modelled as a
  function. `Routes.SampleAfterBw` covers the `bw` step followed by sampling.
- Image decoding and conversion by the imaging library (`Image.open`,
  `convert("L")`/`convert("RGBA")`, `resize` with its float scale,
  `GaussianBlur`, PNG encoding): these are foreign library calls. The model
  starts from a decoded `Image<int>` or `Image<Rgba>`.
- Masks.ConvertBw: the threshold is the image mean computed by `np.mean` in
  floating point. Here it is a `real` parameter, and the blur before it is not
  modelled.
- Paths.RowPath: the row mean is an exact `real`, whereas Python's float
  division rounds. The simplification step `rdp(path, epsilon=1.0)` after it is
  not modelled, because that library's code is not part of this model.
- Emitter.Emit: the pattern object's internals and `write_pes` (the PES file
  format) are not modelled. The program is the abstract command list.
- Dst.EncodeDst: when `struct.pack` raises, `export_dst` has already written
  the records before the failing vertex to the file. The model reports only the
  failure.
- `json.dump` formatting and indentation, and all file writes. Only the CSV
  text, the DST bytes and the DSE data structure are modelled.
- The constant `'type': 'fill'` tag on each sampled point is not carried.
- Upload file names (`np.random`, `uuid`), base64 data URLs and the `log` lists
  (including the shared mutable default `log=[]`) are not modelled. They are
  side effects with no influence on the computed points.
