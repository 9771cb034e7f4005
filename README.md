# PixelMapPreprocessor core in Dafny

PixelMapPreprocessor reads a "province map": an image in which every distinct
RGBA colour marks one area. Its `Program.Process` makes two row-major passes
over the pixels (y outer, x inner).

- **Registry scan.** The first pass builds a colour-keyed dictionary of areas.
  Each new colour gets the next palette index and a remap colour: the low byte
  of the index in red, the high byte in green, blue 0, alpha 255. The pass
  counts each area's pixels, sums their coordinates and sets an edge flag when
  a pixel passes the boundary test. It also writes every pixel's remap colour
  into a remap image.
- **Finalising.** The coordinate sums are divided into centroids. The run fails
  if the image has more than 256 * 256 colours.
- **Adjacency pass.** The second pass connects the areas of every two
  orthogonally adjacent pixels whose colours differ.
- **Output.** Every area is projected into a serialisable record: colours as
  channel arrays, and neighbours listed by base colour.
- **Diagnostic.** The run reports the area with the fewest points and,
  optionally, every pixel of that colour.

The model works on a decoded grid (`Grids.Grid`; `rows[y][x]` is the source's
`img[x, y]`). The pieces are:

- **Specifications.** What the scan computes is stated as folds over the
  row-major sequence of visited cells (`ScanSpec`): the palette in
  first-encounter order, per-colour counts, coordinate sums and edge flags.
  What the adjacency pass computes is stated the same way (`AdjacencySpec`).
- **The registry.** `Areas.AreaRegistry` is a class holding the dictionary
  (`map<Color, nat>`, colour to palette index) and the areas in an arena
  (`seq<Area>`), indexed by palette index. An area's neighbour set is a set of
  indices.
- **The scan.** The scan methods of `Passes` keep the live registry equal to
  `Passes.ScanOf`, a pure fold that performs the same lookups and updates. The
  remap image is an `array2<Color>`, written pixel by pixel.
- **The run.** `Pipeline.Process` strings the stages together. It returns
  either the overflow error or the written outputs.

Behaviour of the code that the model keeps as written:

- **Edge test.** The boundary test is the code's `x == height - 1` (see
  Findings). A corrected rule is available as a parameter.
- **Overflow guard.** It lets exactly 65536 colours through (`idx > 256 * 256`).
- **Overflow timing.** The error is raised after the scan and before anything
  is written. In the code it names only the limit, not the observed count.
- **Empty image.** The diagnostic's failure on an empty dictionary happens
  after both outputs have been written. The model returns the outputs with no
  diagnostic (`min == None`).

## Model

| member | source | states |
|---|---|---|
| Colors.RemapColor | Program.cs:98-100 | the palette colour of index idx has red = idx mod 256, blue 0, alpha 255, and green = idx / 256 below 65536 |
| Colors.RemapRoundTrip | Program.cs:98-100 | every index below 65536 is read back from its remap colour |
| Colors.RemapInjective | Program.cs:98-100 | distinct indices below 65536 get distinct remap colours |
| Colors.RemapWraps | Program.cs:99 | index 65536 wraps around to the remap colour of index 0 |
| Colors.EncodeColor | Program.cs:43 | the channel array has four entries, each a byte value |
| Colors.EncodeDecode | Program.cs:43 | decoding the channel array gives back the colour |
| Colors.DecodeEncode | Program.cs:43 | encoding a decoded well-formed channel array gives back the array |
| Colors.EncodeInjective | Program.cs:43 | distinct colours get distinct channel arrays |
| Boundary.OnBoundary | Program.cs:110 | the left column, top row and bottom row are boundary under either rule; under the corrected rule an in-image pixel is boundary exactly when it lacks an orthogonal neighbour |
| Boundary.CorrectedIsBoundary | Program.cs:110-111 | the width-corrected test marks exactly the pixels with a missing orthogonal neighbour, and differs from the test as written only in columns height - 1 and width - 1 |
| Boundary.RulesAgreeWhenSquare | Program.cs:110 | on square images the test as written and the corrected test agree |
| Boundary.AsWrittenMisclassifies | Program.cs:110 | on a 4 x 3 image the test as written misses pixel (3, 1) on the right edge and marks the interior pixel (2, 1) |
| Grids.ScannedStep | Program.cs:90-91 | visiting (x, y) appends exactly that cell to the visited prefix |
| Grids.ScannedRowEnd | Program.cs:90-91 | finishing row y is starting row y + 1 |
| Grids.CellsShape | Program.cs:90-91 | the scan visits every pixel once, width * height cells in strict row-major order |
| Grids.ScannedInGrid | Program.cs:94 | every visited cell carries the grid's pixel at its coordinates |
| ScanSpec.PaletteIsColors | Program.cs:96-104 | the palette has no repeats and holds exactly the colours seen |
| ScanSpec.PaletteSize | Program.cs:103 | the final index counter equals the number of distinct colours |
| ScanSpec.PalettePrefix | Program.cs:96-104 | scanning further only appends to the palette, so an index once given never changes |
| ScanSpec.FirstEncounterIndex | Program.cs:96-103 | a colour first met at position k gets as its index the number of distinct colours met before k |
| ScanSpec.IndexOf | Program.cs:96-103 | the index found is the first occurrence of the colour, equal to the length exactly when the colour is absent |
| ScanSpec.IndexOfDistinct | Program.cs:96-103 | in a palette without repeats, the colour in slot i has index i |
| ScanSpec.SlotKept | Program.cs:96-106 | a slot of an early palette keeps its index in the final palette, so a remap colour written early is the final one |
| ScanSpec.AbsentColor | Program.cs:96-101 | a colour not yet in the palette has no count, no sums and no edge flag |
| ScanSpec.PresentColor | Program.cs:107 | every palette colour owns at least one pixel |
| ScanSpec.CountIsCardinality | Program.cs:107 | the count of a colour is the number of positions holding it |
| ScanSpec.TouchesEdgeExists | Program.cs:110-111 | the edge flag holds exactly when some pixel of the colour passes the boundary test |
| ScanSpec.CountsAddUp | Program.cs:107 | the counts over the palette add up to the number of visited cells |
| ScanSpec.SumXBounded | Program.cs:108 | an x sum is at most the count times the largest column |
| ScanSpec.SumYBounded | Program.cs:109 | a y sum is at most the count times the largest row |
| AdjacencySpec.PairsBelow | Program.cs:137-142 | the comparison with the pixel below yields pairs exactly when that pixel exists and differs in colour; each pair is the two colours, in both orders, never a colour with itself |
| AdjacencySpec.PairsRight | Program.cs:143-148 | the comparison with the pixel to the right yields pairs exactly when that pixel exists and differs in colour; each pair is the two colours, in both orders, never a colour with itself |
| AdjacencySpec.LinksCover | Program.cs:131-150 | every pair a visited pixel contributes is recorded |
| AdjacencySpec.LinksWitness | Program.cs:131-150 | every recorded pair was contributed by some visited pixel |
| AdjacencySpec.LinksSymmetricIrreflexive | Program.cs:137-147 | recorded pairs come with their reverse and never pair a colour with itself |
| AdjacencySpec.PairsAtTouch | Program.cs:137-147 | a step contributes a pair exactly when the pixel below or to the right has the other colour |
| AdjacencySpec.LinksOnlyTouches | Program.cs:131-150 | a recorded pair is a pair of orthogonally touching colours |
| AdjacencySpec.AdjacentRecorded | Program.cs:137-147 | two touching pixels of different colours have their pair recorded by the pass step at one of the two pixels |
| AdjacencySpec.TouchesAreLinked | Program.cs:131-150 | every pair of touching colours is recorded |
| AdjacencySpec.LinksAreTouches | Program.cs:131-150 | after the pass the recorded pairs are exactly the touching colour pairs |
| AdjacencySpec.TouchSymmetric | Program.cs:131-150 | two colours touch in one order exactly when they touch in the other |
| Areas.NewArea | Program.cs:98-101 | a new area has the key colour, the remap colour of its index, zero counts, no edge flag and no neighbours |
| Areas.Accounted | Program.cs:107-111 | one more pixel: count + 1, sums + x and + y, edge flag raised when on the boundary, the rest unchanged |
| Areas.Centroid | Program.cs:116-117 | the centroid times the point count gives back the coordinate sums, so it is their exact mean |
| Areas.CentroidWithin | Program.cs:114-118 | bounded sums give a centroid inside the image |
| Areas.AccountedConsistent | Program.cs:107-111 | accounting a pixel keeps the dictionary and the arena consistent |
| Areas.OnlySlot | Program.cs:87 | in a consistent registry a colour occupies one slot only |
| Areas.Joined | Program.cs:25-29 | connecting i and j adds j to i's neighbours and i to j's, and changes nothing else |
| Areas.JoinedConsistent | Program.cs:25-29 | connecting keeps the registry consistent |
| Areas.JoinedSymmetric | Program.cs:25-29 | connecting two distinct areas keeps the neighbour relation symmetric and irreflexive |
| Areas.AreaRegistry.constructor | Program.cs:86-87 | the registry starts empty |
| Areas.AreaRegistry.LookupOrCreate | Program.cs:95-104 | a known colour yields its slot unchanged; a new colour gets the next index, a fresh area and a dictionary entry |
| Areas.AreaRegistry.AddPoint | Program.cs:107-111 | only the named area changes, and it changes to its accounted form |
| Areas.AreaRegistry.Connect | Program.cs:25-29 | the arena afterwards is the joined arena; symmetry is preserved for distinct areas |
| Passes.Lookup | Program.cs:96-104 | the keys gain the colour and keep their slots; the arena is extended, by one fresh area at the next index exactly when the colour is new |
| Passes.Visit | Program.cs:94-111 | the keys gain the cell's colour, the arena grows exactly when the colour is new, and every slot but that colour's is unchanged |
| Passes.ScanOf | Program.cs:90-112 | after the visited cells the dictionary's keys are exactly their colours, and there is one area per palette entry |
| Passes.LookupConsistent | Program.cs:96-104 | the lookup keeps the registry consistent and files the colour under a slot holding it |
| Passes.ScanStep | Program.cs:95-111 | one lookup and accounting step keeps the registry in step with the visited cells |
| Passes.VisitStep | Program.cs:95-111 | visiting one more cell keeps the registry in step with the visited cells |
| Passes.ScanOfState | Program.cs:86-112 | after visiting cells the registry has one area per colour in first-encounter order, each with that colour's count, sums and edge flag, the remap colour of its index, and no neighbours |
| Passes.ScanOfStep | Program.cs:90-91 | the fold over one more pixel is one more visit |
| Passes.PixelRemap | Program.cs:106 | after visiting (x, y) the slot of its colour carries the pixel's final remap colour |
| Passes.ScanPixel | Program.cs:94-111 | the registry follows the visited cells one further, and the result is the pixel's remap colour |
| Passes.Paint | Program.cs:106 | pixel (x, y) is written with its remap colour, every other pixel keeps its value, and the remap pixels up to (x, y) in row-major order are written |
| Passes.ScanCell | Program.cs:92-111 | one pixel step: the registry moves one cell further, and the remap pixel (x, y) is the only one written |
| Passes.ScanRow | Program.cs:91-112 | one row: the registry holds the cells up to the row's end, the row's remap pixels are written, and no pixel of another row changes |
| Passes.ScanRows | Program.cs:90-112 | the row loop ends with the registry of the whole grid and the whole remap image written |
| Passes.Scan | Program.cs:86-112 | the registry is the fold over all cells, with one area per colour and that colour's statistics, and every remap pixel is the palette colour of its pixel's colour |
| Passes.JoinPair | Program.cs:141 | after connecting the areas of c and d, slot k neighbours slot j exactly when it did before or the colour pair is (c, d) or (d, c) |
| Passes.JoinStep | Program.cs:141 | connecting the areas of two colours records the colour pair in both orders |
| Passes.Join | Program.cs:141 | connecting the areas of two colours records the pair in both orders and keeps the dictionary |
| Passes.PixelLinks | Program.cs:135-148 | visiting (x, y) adds the pairs below it and to its right |
| Passes.ConnectBelow | Program.cs:137-142 | the pixel against the one below: the pair is recorded when the colours differ |
| Passes.ConnectRight | Program.cs:143-148 | the pixel against the one to the right: the pair is recorded when the colours differ |
| Passes.ConnectPixel | Program.cs:135-148 | one adjacency step keeps the registry consistent, with each neighbour set holding its neighbours from before the pass plus the slots of the pairs found so far |
| Passes.ConnectRow | Program.cs:133-149 | one row of adjacency steps |
| Passes.BuildAdjacency | Program.cs:131-150 | afterwards area k neighbours area j exactly when it did before or the pass found their colour pair; nothing but the neighbour sets changes (with empty starting sets, `Pipeline.SlotNeighbors` turns this into "exactly when the colours touch") |
| Projection.DistinctEncodings | Program.cs:48-49 | distinct neighbours give distinct entries in the neighbour list |
| Projection.Reduce | Program.cs:45-58 | the record carries the encoded colours, count, centroid and edge flag of its area, and one entry per neighbour holding that neighbour's base colour |
| Projection.ProjectAll | Program.cs:152-153 | one record per area, each projecting its area |
| Diagnostics.MinBy | Program.cs:165 | None exactly for no areas; otherwise a slot with the fewest points, the first such slot |
| Diagnostics.MatchingExact | Program.cs:178-185 | a coordinate is listed exactly when a cell of the colour lies there |
| Diagnostics.MatchingOrdered | Program.cs:174-185 | the listed coordinates are in strict row-major order |
| Diagnostics.LocateRow | Program.cs:178-185 | the row's pixels of the colour are appended left to right |
| Diagnostics.Locate | Program.cs:172-187 | the located coordinates are the matching cells in visiting order |
| Diagnostics.LocatedPixels | Program.cs:172-187 | the located coordinates are exactly the pixels of the colour, in strict row-major order |
| Pipeline.PixelInPalette | Program.cs:94-104 | every pixel colour is in the final palette |
| Pipeline.RemapPlaneExact | Program.cs:106 | below the limit two pixels share a remap colour exactly when they share a colour, and the index read back names the pixel's colour |
| Pipeline.ScanFacts | Program.cs:86-121 | after the scan every pixel colour has an area, every area owns a pixel, base colours are distinct, and the area count is the number of colours, zero only for an empty image |
| Pipeline.ProjectionReady | Program.cs:131-152 | after the adjacency pass the arena still meets what the projection needs |
| Pipeline.SlotStatistics | Program.cs:86-118 | slot i holds the i-th palette colour and its count, sums, edge flag and remap colour |
| Pipeline.SlotNeighbors | Program.cs:131-150 | slot j is a neighbour of slot i exactly when their colours touch |
| Pipeline.NeighborsSymmetric | Program.cs:131-150 | after both passes each area is a neighbour of its neighbours and never of itself |
| Pipeline.Reported | Program.cs:45-58 | a record of slot i describes the i-th colour of the grid |
| Pipeline.ListedIffTouch | Program.cs:45-49 | a record lists another colour exactly when the two colours touch |
| Pipeline.RecordsSymmetric | Program.cs:45-51 | record i lists the colour of record j exactly when record j lists that of record i, and no record lists its own colour |
| Pipeline.CentroidInImage | Program.cs:114-118 | every record's centroid lies inside the image |
| Pipeline.Fewest | Program.cs:165 | the slot MinBy picks carries the fewest pixels of any colour |
| Pipeline.TotalPointsIs | Program.cs:152-153 | the records' points add up to the counts of their colours |
| Pipeline.AllReported | Program.cs:152-153 | one record per colour, each describing it, with points adding up to width * height |
| Pipeline.Diagnose | Program.cs:165-188 | no report exactly when there are no areas; otherwise a colour with the fewest pixels and, when asked, exactly its pixels in row-major order |
| Pipeline.AnalyseAreas | Program.cs:131-188 | adjacency, projection and diagnostic together produce the reported outputs, and the arena's neighbour relation ends symmetric and irreflexive |
| Pipeline.Process | Program.cs:70-189 | the overflow error exactly when there are more than 65536 colours; otherwise a fresh remap image holding every pixel's palette colour, the records (with a symmetric, loop-free neighbour relation) and the diagnostic |

## Left out

- Image decoding and encoding, file paths, the JSON serialisation and its
  indentation option, the command line, console output and the stopwatch are
  I/O. The grid comes in as a value. The remap image and the records are
  returned instead of saved.
- Single-precision floats: the coordinate sums and the centroid division are
  exact (`nat` sums, `real` quotient). The source's `float` accumulation is
  exact only up to 2^24, and its division rounds.
- Dictionary enumeration order: the records and the minimum search go through
  the areas in palette order. A .NET `Dictionary` without removals enumerates
  in insertion order, which is palette order, but the language does not
  promise it. The neighbour list is built in an order the model leaves open.
- Object identity in neighbour sets: the source's `HashSet<Area>` holds
  references. The model holds palette indices into the arena, which names the
  same areas because keys and slots correspond one to one.
- The overflow error's message text is not modelled, only the error case.
- Projection.Reduce: the record's centroid is the exact mean. There are no
  NaN values, because every area of the registry owns at least one pixel.

## Findings

| source | as written | input that shows it | evidently intended | confidence | as-written member | corrected member |
|---|---|---|---|---|---|---|
| Program.cs:110 | the right-edge clause of the boundary test is `x == height - 1` | a 4 x 3 image: pixel (3, 1) on the right edge is not marked, the interior pixel (2, 1) is | `x == width - 1`, so that the edge flag means "owns a pixel on the image boundary" | medium, not executed | Boundary.AsWrittenMisclassifies | Boundary.CorrectedIsBoundary |

The scan takes the boundary rule as a parameter (`Boundary.EdgeRule`).
`AsWritten` reproduces the code and `WidthCorrected` is the corrected test.
Every property above holds for both rules.
