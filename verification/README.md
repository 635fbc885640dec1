# bit19 grid-editing engine, modelled in Dafny

bit19 is a small browser editor for indexed-colour bitmaps: the user paints
palette indices into a rectangular grid, flood-fills regions, resizes, clears
and "inverts" the picture, and loads grids from JSON. This project models the
engine behind those buttons, with the page, canvas and event plumbing removed.

- `grids.dfy` (module `Grids`): the bitmap as `seq<seq<nat>>`, `createEmpty`,
  the clear button, `paintAt`, and the resize button (a loop-based `Resize`
  method that copies the top-left overlap, proved equal to the reference
  function `Resized`).
- `coords.dfy` (module `Coords`): `posToCell`, mapping a pointer offset to the
  cell under it or to "no cell".
- `fill.dfy` (module `Fill`): `floodFill` as a method with an explicit stack,
  terminating on the lexicographic measure (cells still holding the old value,
  stack length). Its result is proved equal to `FillSpec`, which recolours
  exactly the cells joined to the seed by a path of orthogonal steps through
  cells of the seed's value.
- `colors.dfy` (module `Colors`): the eleven-entry palette as RGB triples, the
  channel complement (shown to be what exclusive-or with `0xFFFFFF` does to a
  24-bit colour), the nearest-colour scan with its first-on-ties rule, and the
  invert button over a whole grid.
- `loading.dfy` (module `Loading`): choosing the grid in a parsed JSON payload,
  the pixel-size clamp of `setBitmapFrom`, and loading a file into the editor.
- `wrappers.dfy` (module `Wrappers`): `Option` and `Result`.

The palette functions take the palette as a parameter `pal` so that general
facts (exact colours match themselves, a palette closed under complement makes
invert an involution) are proved once; `Colors.Palette` is the editor's own
palette, and the concrete lemmas are about it.

## Model

| member | source | states |
|---|---|---|
| Grids.CreateEmpty | script.js:63-65 | the result has exactly r rows of c cells and every cell is 0 |
| Grids.Clear | script.js:221-224 | clearing keeps the bitmap's dimensions and sets every cell to 0 |
| Grids.ClearForgetsPaint | script.js:221-224 | clearing after any paint gives the same grid as clearing before it |
| Grids.PaintAt | script.js:147-151 | if the cell already holds the value the grid is returned unchanged; otherwise only that cell changes, it holds the value afterwards, and every row keeps its length |
| Grids.PaintAtUndo | script.js:147-149 | painting the cell's old value back restores the original grid |
| Grids.PaintAtIdempotent | script.js:147-149 | painting the same cell with the same value a second time changes nothing |
| Grids.PaintAtKeepsBitmap | script.js:147-149 | painting keeps the grid rectangular and non-empty |
| Grids.Resized | script.js:195-204 | the resized grid is rectangular with max(1, rows) rows and max(1, cols) columns |
| Grids.Resize | script.js:195-204 | the loop leaves a max(1,r) x max(1,c) grid in which cells inside both the old and new bounds keep their old values and all other cells are 0; it equals the reference `Resized` |
| Grids.ResizedSameSize | script.js:195-204 | resizing to the current dimensions is the identity |
| Grids.ResizedGrowShrink | script.js:195-204 | growing and then shrinking back to the old dimensions returns the original grid |
| Grids.ResizedShrinkGrow | script.js:195-204 | shrinking and growing back keeps every cell inside the smaller size and zeroes the cells that were cut off |
| Grids.ResizedEmpty | script.js:195-204 | resizing an all-zero grid gives the all-zero grid of the clamped size |
| Coords.PosToCell | script.js:120-127 | a returned cell lies inside the grid and its pixel square contains the offset; "no cell" is returned exactly when no grid cell's square contains the offset |
| Coords.FloorDivUnique | script.js:123-124 | the floored quotient is the only cell index whose pixel interval contains the offset |
| Coords.PosToCellOfCoveredPixel | script.js:120-127 | every pixel inside a grid cell's square maps back to that cell |
| Coords.PosToCellPastRightEdge | script.js:123-125 | offset (25, 5) with 10-pixel cells on a 2 x 2 grid gives "no cell" |
| Fill.FloodFill | script.js:180-193 | the fill terminates, keeps the dimensions, leaves the grid unchanged when the seed already holds the new value, and recolours exactly the cells connected to the seed through cells of the seed's value, leaving every other cell as it was |
| Fill.Neighbours | script.js:190 | a recoloured cell pushes exactly four positions; the body lists them in the source's push order: below, above, right, left |
| Fill.FillSpec | script.js:184-191 | the reference fill keeps every row's length |
| Fill.OpenCellsShrink | script.js:188-189 | recolouring a cell that holds the old value removes it from the set of old-valued cells, so the first part of the termination measure strictly shrinks |
| Fill.FillInvariantSkip | script.js:186-188 | popping a position outside the grid or no longer holding the old value keeps the loop invariant |
| Fill.FillInvariantRecolour | script.js:188-190 | recolouring the popped cell and pushing its four neighbours keeps the loop invariant |
| Fill.RecolourKeepsStack | script.js:190 | every pushed neighbour that holds the old value is connected to the seed |
| Fill.RecolourKeepsFrontier | script.js:189-190 | after a recolouring every open neighbour of a recoloured cell is on the stack |
| Fill.FillComplete | script.js:185-191 | once the stack is empty the recoloured cells are exactly the seed's region |
| Fill.EmptyStackClosed | script.js:185-191 | once the stack is empty the seed is recoloured and no recoloured cell has a neighbour still holding the old value |
| Fill.ClosedContainsPath | script.js:185-191 | a recoloured set that holds the seed and is closed under orthogonal steps to old-valued cells contains the end of every path from the seed |
| Fill.ConnectedStep | script.js:190 | a connected cell's neighbour holding the region's value is connected too |
| Fill.FillSpecNoOp | script.js:182-183 | filling with the value the seed already holds changes nothing |
| Fill.FillSpecIdempotent | script.js:180-191 | filling the same seed twice with the same value equals filling once |
| Fill.FillSpecIsolatedSeed | script.js:190 | when no orthogonal neighbour of the seed holds the seed's value, the fill recolours the seed alone, so diagonal neighbours never join the region |
| Fill.IsolatedRegion | script.js:190 | when no orthogonal neighbour of the seed holds its value, the seed is the only cell of its region |
| Fill.UniformConnected | script.js:190 | in a single-valued grid every cell is connected to every other |
| Fill.FillSpecUniform | script.js:184-191 | filling a single-valued grid recolours every cell |
| Fill.FillSpecTwoByTwo | script.js:184-191 | filling [[0,0],[0,0]] from (0,0) with 1 gives [[1,1],[1,1]] |
| Colors.PaletteEntry | script.js:23-35 | the eleven hex colours as RGB triples, key `i` at position `i` of `Palette`; white is exactly key 0 and black exactly key 1 |
| Colors.ColorOf | script.js:271 | the colour of a key is its palette entry when the palette has it, and white otherwise |
| Colors.ByteSplit | script.js:232-234 | shifting right by 16, 8 and 0 and masking with 255 splits a colour value into three bytes that reassemble it, so `Unpack` loses nothing |
| Colors.InvertPackedFlipsBits | script.js:242 | exclusive-or with `0xFFFFFF` flips every one of the 24 bits: result and input share no set bit and together cover all of them |
| Colors.Dist2 | script.js:257-260 | the squared distance is never above 3·255², the distance of black to white |
| Colors.InvertInvolutive | script.js:238-244 | complementing a colour twice gives it back |
| Colors.Invert | script.js:238-244 | each channel of the result plus the original channel is 255 |
| Colors.InvertPackedComplements | script.js:227-244 | exclusive-or of a 24-bit colour with 0xFFFFFF, read back by shifting and masking, is the channel-wise complement of the colour read the same way |
| Colors.ByteAtInverted | script.js:242 | each byte of the exclusive-or result is the original byte xor 0xFF |
| Colors.XorByte | script.js:242 | on one byte, exclusive-or with 0xFF equals 255 minus the byte |
| Colors.ChannelInverted | script.js:242 | each channel read from the exclusive-or result is 255 minus the channel read from the original |
| Colors.Dist2Zero | script.js:257-260 | the squared distance is 0 exactly when the two colours are equal |
| Colors.Scan | script.js:252-267 | from any scan state, the scan returns an index of minimal squared distance that no earlier index ties, because only a strictly smaller distance replaces the best |
| Colors.Closest | script.js:252-267 | the result is a palette index of minimal squared distance to the colour, and every earlier index is strictly farther |
| Colors.NearestUnique | script.js:256-265 | there is only one first nearest index |
| Colors.ClosestIsNearest | script.js:252-267 | any first nearest index is what the scan returns |
| Colors.ClosestExact | script.js:252-267 | in a palette without repeated colours an exact palette colour is nearest to its own index |
| Colors.PaletteDistinct | script.js:23-35 | the palette has eleven pairwise different colours and index 0 is white |
| Colors.PaletteSelfMatch | script.js:246-266 | each of the eleven palette colours is nearest to its own index |
| Colors.InvertIndex | script.js:269-274 | the new value of a cell is a palette key, the first nearest to the complement of the cell's colour |
| Colors.InvertIndexMissingIsWhite | script.js:271 | a cell whose index has no palette entry inverts exactly like a white cell |
| Colors.InvertMissingIsBlack | script.js:271-273 | with the editor's palette, an unknown index inverts to black (index 1) |
| Colors.InvertWhiteIsBlack | script.js:269-274 | with the editor's palette, white (0) inverts to black (1) |
| Colors.InvertBlackIsWhite | script.js:269-274 | with the editor's palette, black (1) inverts to white (0) |
| Colors.ClosestToInvertedRed | script.js:252-267 | the complement of #ff4444 is nearest to #44ddff (index 6) |
| Colors.ClosestToInvertedLightBlue | script.js:252-267 | the complement of #44ddff is nearest to #964B00 (index 10) |
| Colors.PaletteInvertTwiceNotIdentity | script.js:269-274 | with the editor's palette index 2 inverts to 6 and 6 to 10, so inverting twice is not the identity |
| Colors.InvertIndexInvolution | script.js:269-274 | for a palette without repeats whose colours' complements are palette colours, inverting an index twice returns it |
| Colors.InvertGrid | script.js:269-276 | the inverted grid keeps the dimensions and every cell holds the palette key nearest (first on ties) to the complement of its old colour |
| Colors.InvertGridTwice | script.js:269-276 | for such a symmetric palette, inverting a grid of palette keys twice restores it |
| Loading.SelectBitmap | script.js:161-169 | an array payload is taken as is, otherwise an object's "bitmap" array; success exactly in those two cases, and the null payload is the one that fails by null access |
| Loading.ToGrid | script.js:70 | the copied grid has the payload's dimensions and the payload's numbers cell by cell |
| Loading.CellSize | script.js:73 | the pixel size always lies in [8, 28] |
| Loading.CellSizeInteger | script.js:73 | the real-valued clamp-then-floor equals integer division of 256 by the larger dimension clamped to [8, 28] |
| Loading.FloorOfQuotient | script.js:73 | flooring 256 divided by a positive integer is integer division |
| Loading.CellSizeStartup | script.js:73 | the 19 x 19 start-up bitmap gets 13-pixel cells |
| Loading.SetBitmapFrom | script.js:67-73 | the editor holds the given bitmap, the rows and cols fields are its dimensions and the pixel size lies in [8, 28] |
| Loading.LoadJson | script.js:153-176 | the load succeeds exactly for an array or an object with a "bitmap" array whose rows can be copied (at least one row, each an array or string); otherwise the editor is unchanged and the error reported is the selection's own (null payload or no bitmap array) or the copy failure; a successful load installs the chosen rows as a rectangular bitmap, sets the rows and cols fields to its dimensions and the pixel size into [8, 28] |
| Loading.LoadEmptyArray | script.js:69 | `[]` has no first row whose length can be read, so it is refused and the editor kept |
| Loading.LoadNumberRow | script.js:70 | `[[1], 5]` has a row without `slice`, so it is refused and the editor kept |
| Loading.LoadBitmapObject | script.js:161-171 | the payload {bitmap: [[1,2],[3,4]]} loads as [[1,2],[3,4]] with 28-pixel cells |
| Loading.LoadEmptyObject | script.js:161-169 | the payload {} is refused and the editor is left as it was |

## Left out

- Drawing (`render`, `updateCanvasSize`, `renderPalette`, `setTool`, button styling, script.js:43-54, 78-117, 209-215): pure output to the page; every redraw the source triggers is dropped.
- Mouse wiring and the `drawing`, `tool` and `activeValue` globals (script.js:37-40, 56-61, 129-145): event dispatch, not engine logic; the engine operations it calls are modelled.
- File reading, `JSON.parse`, the regular-expression loader for pasted text (script.js:298-313), clipboard and download (script.js:288-296, 315-326), the error `alert`s, and the clearing of the export text area after a successful load (`exportArea.value = ''`, script.js:173, 308): input/output and foreign library code. The pasted-text loader only checks that it parsed an array before calling the same installer; the downloaded `{bitmap}` object is the only export the file loader reads back. JSON values enter the model already parsed, as the `Json` datatype, with numbers limited to integers.
- Export text builder (script.js:283-286): its reader is the pasted-text loader (script.js:298-313), which is left out together with its regular expression and `JSON.parse`, so the export round trip is not stated.
- Hex strings: `parseInt`, `toString(16)`, `padStart` and the three-digit shorthand expansion (script.js:227-243) are not modelled. Colours are RGB triples; the exclusive-or is modelled on the 24-bit number the string spells.
- `getBoundingClientRect` (script.js:121): fractional page coordinates. `PosToCell` takes whole-pixel offsets from the canvas origin and a pixel size of at least 1.
- `Number(...)` coercion of the input fields (script.js:79-81, 122, 196-197): `NaN` and fractional values are not modelled; sizes are integers.
- Grids.PaintAt: an out-of-range cell is a precondition, because the source assumes its caller went through `posToCell`.
- Fill.FloodFill: the seed must be inside the grid, as it always comes from `posToCell`.
- Loading.LoadJson: rows that survive the copy (a non-empty list of arrays or strings) are installed by the source without further checks, so ragged rows, `[[]]`, string rows or rows of non-numbers would be installed. Drawing does not fail on them: a value with no palette entry, numeric or not, is drawn white through the `?? '#ffffff'` fallback (script.js:97), and ragged rows are drawn and edited only up to the length of row 0. The model requires copyable rows to form a non-empty rectangular grid of non-negative integers rather than model those broken grids. An empty list, or a row that is a number, boolean, `null` or object, throws at script.js:69-70 and is modelled as the refusal `RowsNotCopyable`.
- Colors.Closest: requires a non-empty palette; the source would return 0 for an empty one, which never happens with its fixed eleven entries.
