# Rotating cube: verified model of the ASCII rasteriser

This project models the logic of `rotating_cube/cube.cpp`, a terminal demo
that draws two rotating cubes as ASCII art. The model covers:

- the depth-buffered rasteriser at the tail of `drawCube`. A projected point
  is bounds-checked against the 180 × 50 grid. If it is strictly nearer than
  the stored depth, it overwrites one cell of the character buffer and the
  same cell of the z-buffer.
- the per-frame reset of both buffers to `' '` and to the sentinel depth 100000.
- the string building in `draw`.
- the bounce rule and the angle updates of the moving cube in `main`.
- the face structure of `getCubeModel`.
- the rotation step of `drawCube`, with each angle's cosine and sine given as
  real parameters.

Modules, one per component of the program:

- `Screen` (screen.dfy): grid constants, glyphs, projected points, and the
  mapping from a cell to its linear index.
- `Raster` (raster.dfy): the buffers as a value (`Frame`). `Plot` is one
  depth-tested write. `Render` folds `Plot` over a point cloud. `Reset` and
  `DrawPoints` are the in-place array methods, proved equal to `Cleared` and
  to `Render`. The predicate `Resolves` describes each cell independently of
  `Render`: its depth is the minimum of the starting depth and the depths of the
  points that land on it, and its glyph is that of the first point reaching
  that minimum.
- `Output` (output.dfy): `Emit` is the text `draw` builds. The `Draw` method
  builds it with the source's loop. The remaining lemmas give its length,
  where each newline and each cell sits, and show that deleting the newlines
  gives back the buffer.
- `Geometry` (geometry.dfy): the rotations about X, Y and Z, and the rotation
  about the cube's centre.
- `CubeModel` (cube_model.dfy): the six faces in the source's order, each face
  built by nested loops. Every point's tag names the plane it lies on.
- `Driver` (driver.dfy): the bounce (`Bounce`), one loop iteration (`Tick`),
  the state after `n` iterations (`Run`), and one whole frame (`RenderFrame`).

Depths and positions are `real`. Grid coordinates are `int`.

Notes on the code:

- Both the front face (cube.cpp:94) and the top face (cube.cpp:100) carry
  tag 1. So the tags are 1..5 and only five of the six symbols are ever used.
- Glyph `'/'` (`symbols[0]`) is never drawn. The front face is drawn with
  `symbols[1]`, which is `'$'`.
- The bounce test reads the position before it is advanced (cube.cpp:229-231).

## Model

| member | source | states |
|---|---|---|
| Screen.Glyph | rotating_cube/cube.cpp:169 | the glyph of a face tag is one of the six symbols, never the background and never a newline |
| Screen.PaletteHasNoNewline | rotating_cube/cube.cpp:9-10 | neither the background nor any face symbol is a newline |
| Screen.IndexInRange | rotating_cube/cube.cpp:167-171 | in-bounds terminal coordinates always give an index in `[0, width*height)` |
| Screen.IndexInjective | rotating_cube/cube.cpp:167 | two in-bounds coordinate pairs share a cell index exactly when they are equal |
| Screen.InBounds | rotating_cube/cube.cpp:171 | the bounds test on terminal coordinates; IndexInRange proves that coordinates passing it address a cell |
| Screen.Index | rotating_cube/cube.cpp:167 | the row-major cell index; IndexInRange and IndexInjective prove it lands in the buffers and tells cells apart |
| Raster.Cleared | rotating_cube/cube.cpp:208-209 | the reset state: every cell holds the background at the sentinel depth |
| Raster.Plot | rotating_cube/cube.cpp:163-176 | an out-of-bounds point changes neither buffer. An in-bounds point writes its depth and its face's glyph to its own cell exactly when its depth is strictly below the stored one, so on a tie the earlier point stays. No other cell changes. Depths never increase, and a glyph changes only where the depth strictly drops |
| Raster.Render | rotating_cube/cube.cpp:132-177 | over a whole cloud: no depth increases, a glyph changes only in a cell whose depth strictly dropped, and buffers holding only palette characters keep holding only palette characters |
| Raster.RenderResolves | rotating_cube/cube.cpp:132-177 | after any cloud, each cell's depth is the minimum of its old depth and the depths of the in-bounds points landing there. Its glyph is that of the first point attaining a minimum below the old depth, or the old glyph if no point beat it |
| Raster.ResolvesUnique | rotating_cube/cube.cpp:171-175 | the minimum-depth / first-winner description fixes a cell's depth and glyph uniquely |
| Raster.RenderFromCleared | rotating_cube/cube.cpp:208-216 | from the reset buffers, each cell ends at the minimum of 100000 and its points' depths. It shows the first nearest point's glyph, or the background if no point beat the sentinel |
| Raster.RenderConcat | rotating_cube/cube.cpp:215-216 | drawing the stationary cube and then the moving cube equals drawing their clouds concatenated in that order |
| Raster.Reset | rotating_cube/cube.cpp:208-209 | the two fills leave the buffers equal to the reset state |
| Raster.DrawPoints | rotating_cube/cube.cpp:132-177 | the in-place loop leaves the buffers equal to `Render` of their old contents over the points. No z-buffer cell increases |
| Output.Emit | rotating_cube/cube.cpp:21-29 | the text `draw` builds: a newline before each cell whose index is a multiple of width, then the cell; EmitLength, EmitCellAt, EmitNewlineAt, FrameText and StripEmit prove its shape |
| Output.EmitLength | rotating_cube/cube.cpp:21-29 | the text for cells starting at index n has one character per cell plus one newline per multiple of width in that index range |
| Output.EmitCellAt | rotating_cube/cube.cpp:22-28 | each cell appears in the text at its index plus the number of rows started up to and including it |
| Output.EmitNewlineAt | rotating_cube/cube.cpp:24-25 | a newline stands immediately before every cell whose index is a multiple of width |
| Output.StripEmit | rotating_cube/cube.cpp:21-29 | for a buffer free of newlines, deleting the newlines from the text gives back the buffer in order |
| Output.FrameText | rotating_cube/cube.cpp:21-29 | for a full buffer: the length is width*height + height, cell i sits at i + i/width + 1, row r starts with a newline at r*(width+1), and deleting the newlines gives back the buffer |
| Output.Draw | rotating_cube/cube.cpp:21-29 | the loop builds exactly that text and has that shape |
| Geometry.RotateOnZ | rotating_cube/cube.cpp:48-54 | z is copied unchanged, the tag of the new struct is 0, and the zero angle leaves the position unchanged |
| Geometry.RotateOnY | rotating_cube/cube.cpp:56-62 | y is copied unchanged, the tag is 0, and the zero angle leaves the position unchanged |
| Geometry.RotateOnX | rotating_cube/cube.cpp:64-70 | x is copied unchanged, the tag is 0, and the zero angle leaves the position unchanged |
| Geometry.RotateAbout | rotating_cube/cube.cpp:137-151 | rotating about the cube's centre with all angles zero leaves a point in place, and the centre is always a fixed point |
| CubeModel.HalfTowardZero | rotating_cube/cube.cpp:78 | halving truncates toward zero: the remainder is -1, 0 or 1 and has the sign of the operand |
| CubeModel.BoxOf | rotating_cube/cube.cpp:76-84 | the bounds are centred on the position with equal edges on all three axes. For a non-negative size the edge is the size or one less, and exactly the size when the size is even |
| CubeModel.GridOnFace | rotating_cube/cube.cpp:90-124 | every point a face's loops emit lies in that face's plane and carries that face's tag |
| CubeModel.GridLength | rotating_cube/cube.cpp:92-94 | a face has one point per pair of outer and inner samples |
| CubeModel.GridAt | rotating_cube/cube.cpp:92-94 | a face's points come outer sample major: the point at position i times the number of inner samples plus j is built from the i-th outer and j-th inner sample |
| CubeModel.ModelLength | rotating_cube/cube.cpp:88-126 | the cloud holds two faces for each pair of axes |
| CubeModel.ModelTags | rotating_cube/cube.cpp:90-124 | every point's tag is in 1..5 and matches its plane (1: z=Zmin or y=Ymax, 2: y=Ymin, 3: z=Zmax, 4: x=Xmax, 5: x=Xmin), so symbols[0] is never selected |
| CubeModel.Tag | rotating_cube/cube.cpp:90-124 | the tag each face's points carry (front 1, top 1, bottom 2, back 3, right 4, left 5); ModelTags proves every tag is in 1..5 |
| CubeModel.FacePoint | rotating_cube/cube.cpp:90-124 | the `vec3f` a face's inner loop pushes: the two loop samples with the third coordinate fixed at the face's bound and the face's tag; GridOnFace proves each such point lies on its face |
| CubeModel.Row | rotating_cube/cube.cpp:93-94 | the points of one pass of the inner loop, one per inner sample; GridAt proves their order |
| CubeModel.Grid | rotating_cube/cube.cpp:92-94 | the points of one face, rows for the outer samples in order; GridLength, GridAt and GridOnFace prove its size, order and plane |
| CubeModel.Model | rotating_cube/cube.cpp:88-126 | the whole cloud, the six faces in source order with the axis pairs each face loops over; ModelLength and ModelTags prove its size and tags |
| CubeModel.AppendFace | rotating_cube/cube.cpp:92-94 | the nested loops append exactly the face's grid to the cloud |
| CubeModel.GetCubeModel | rotating_cube/cube.cpp:74-127 | the cloud is the six faces in order (front, top, bottom, back, right, left), has the stated size, and every tag matches its plane |
| Driver.Bounce | rotating_cube/cube.cpp:229-231 | the speed is unchanged. For non-zero velocity the sign flips exactly when the position is above width/2 or below -width/2 before the move. The position then moves by the updated velocity, and the corridor invariant is preserved |
| Driver.Tick | rotating_cube/cube.cpp:219-231 | one iteration applies the bounce to the moving cube, keeps its height and depth, and advances every angle of both cubes |
| Driver.Initial | rotating_cube/cube.cpp:190-203 | the state before the first frame: zero angles for the stationary cube, angles (1, 2, 3), position (34, 0, 200) and velocity 0.6 for the moving cube; it starts inside the bounce corridor |
| Driver.Run | rotating_cube/cube.cpp:205-231 | the state after n iterations of the frame loop; RunStaysInCorridor proves what every such state keeps |
| Driver.RunStaysInCorridor | rotating_cube/cube.cpp:200-231 | after any number of frames from the initial state, the moving cube keeps speed 0.6, height 0 and depth 200, and its x stays within [-90.6, 90.6] |
| Driver.RenderFrame | rotating_cube/cube.cpp:207-217 | the reset, two draws and serialisation of one frame give the concatenated clouds rendered over cleared buffers, each cell as the minimum-depth rule describes. Deleting the newlines from the text gives back the buffer |

## Left out

- Terminal output is not modelled. This covers the escape sequences, the
  writes to standard output and the frame delay (`usleep`). These are I/O and
  pacing.
- The infinite `while (true)` loop is not modelled as a whole. It appears as
  single steps (`RenderFrame`, `Tick`) and as `Run(n)`, the state after `n`
  iterations.
- `sin` and `cos` are not modelled. Each rotation takes its angle's cosine and
  sine as a pair of reals.
- Round-trip and norm-preservation properties of the rotations are not
  claimed. Without trigonometry they cannot be stated faithfully.
- The perspective divide, the doubled column and the float-to-int truncation
  are not modelled. This includes the unguarded division by a near-zero
  depth. The rasteriser is given each point's integer terminal coordinates,
  its depth and the tag of the original model point.
- `drawCube` reads the tag before rotating (the rotated struct's tag is 0).
  So the projected point carries the model point's tag.
- Float rounding is not modelled. Depths, coordinates, angles and velocity are
  exact reals. For example, repeated `+= 0.6` on the position is exact here.
  NaN is not modelled either.
- The sample positions along each axis in `getCubeModel` are parameters. In
  the source they come from accumulating `0.4` in float until the bound plus
  `0.1` is passed, so the point count per face is taken as given.
- Driver.Tick: the angle increments (0.01, 0.02, 0.05 and 0.07, 0.02, 0.05) are
  stated only as strict increases of each angle.
