# Home screen of CalcAI, modelled in Dafny

CalcAI's home screen is a React component around a drawing canvas. The user
draws an expression with the mouse and presses Calculate. The drawing is sent
to a recognition service together with the variable bindings found so far.
The reply's assigning records update the bindings, and the overlay anchor
moves to the centre of the drawing's bounding box. Each returned record
`(expr, result, assign)` is meant to become a typeset overlay
`\(\LARGE expr = result\)` at that anchor, but in the code as written no
overlay is ever scheduled (see "## Left out"). Reset clears the canvas and the
overlays.

This project models the parts of the component that hold logic:

- `raster.dfy` (module `Raster`): the RGBA pixel buffer and the
  bounding-box locator that `sendData` runs over it. `Locate` keeps the
  source's nested row and column loops. It is proved against `IsBoundingBox`,
  an independent specification: every ink pixel (alpha byte above zero) lies
  inside the box, each edge of the box touches an ink pixel, and a canvas with
  no ink gives the start values `(width, height, 0, 0)`. Lemmas show that this
  specification fixes the box uniquely, and that a non-empty box lies inside
  the canvas. They also cover the centre and the usual edge cases (blank,
  single pixel, fully inked). Every buffer read is shown to be in bounds.
- `bindings.dfy` (module `Bindings`): how one response updates `dictOfVars`.
- `overlay.dfy` (module `Overlay`): the overlay string and its inverse `Body`.
- `home.dfy` (module `HomeScreen`): class `Home`. It holds the component's
  state fields (`isDrawing`, `color`, `reset`, `result`, `latexExpression`,
  `latexPosition`, `dictOfVars`) and the 2D context's path, stroke style and
  raster. Each handler and effect is one method. Each method's postcondition
  gives the whole new state through `View()`, so the fields that do not change
  are stated too.
- `wrappers.dfy` (module `Wrappers`): `Option`, used for `undefined` state.

One might expect every assigning record of a response to be merged into the
bindings. In the code, every `setDictOfVars` call spreads the same
captured `dictOfVars`, and the last call wins. So after one response the
store is the old store plus the binding of the LAST assigning record.
`SnapshotMerge` states this, and `EarlierAssignmentLost` shows two assignments
in one response where the first is lost.

Inputs the component gets from its environment become parameters:

- The service's reply is the `resp` argument of `SendData`.
- The raster the browser leaves after a stroke is the `rendered` argument of
  `Draw`.
- The canvas size is passed to the constructor.

"The canvas exists and has a 2D context" is the constant flag `hasCanvas`.

## Model

| member | source | states |
|---|---|---|
| Raster.AlphaIndex | src/screens/home/index.tsx:153-160 | the alpha byte of any pixel on the canvas lies inside the `width*height*4` buffer and is channel 3 of its pixel |
| Raster.AlphaIndexInjective | src/screens/home/index.tsx:160 | two different pixels never read the same alpha byte |
| Raster.Locate | src/screens/home/index.tsx:152-167 | the scan's `minX, minY, maxX, maxY` is the bounding box: it contains all ink, each edge touches ink, and with no ink it is `(width, height, 0, 0)` |
| Raster.Centre | src/screens/home/index.tsx:169-170 | the anchor is the same distance from both edges of the box in each axis |
| Raster.BoundingBoxUnique | src/screens/home/index.tsx:154-167 | the box the scan produces is determined by the buffer alone |
| Raster.BoundingBoxInsideCanvas | src/screens/home/index.tsx:160-164 | with ink present, `0 <= minX <= maxX < width` and `0 <= minY <= maxY < height` |
| Raster.EmptyCanvasCentre | src/screens/home/index.tsx:154-170 | a canvas without ink gives exactly `(width, height, 0, 0)` and the centre `(width/2, height/2)` |
| Raster.BlankBufferHasNoInk | src/screens/home/index.tsx:160 | a buffer of zero bytes, as `clearRect` leaves it, holds no ink pixel |
| Raster.CentreInsideBox | src/screens/home/index.tsx:169-172 | with ink present, the anchor lies inside the box and on the canvas |
| Raster.SinglePixelBox | src/screens/home/index.tsx:158-167 | a single ink pixel at `(x, y)` gives the box `{x, y, x, y}` |
| Raster.FullInkBox | src/screens/home/index.tsx:158-167 | ink on every pixel gives `{0, 0, width-1, height-1}` |
| Bindings.LastAssigning | src/screens/home/index.tsx:143-144 | finds the last record with `assign` set, and finds none exactly when no record assigns |
| Bindings.MergeResponse | src/screens/home/index.tsx:143-150 | the `forEach` over the response leaves the store equal to the snapshot plus the last assigning record's binding |
| Bindings.NoAssignmentKeepsStore | src/screens/home/index.tsx:144 | a response in which no record has `assign` set leaves the store as it was |
| Bindings.NonAssigningRecordIgnored | src/screens/home/index.tsx:144 | a record with `assign` false, appended to the end of a response, does not change what the response does to the store |
| Bindings.LastAssignmentWins | src/screens/home/index.tsx:143-148 | the last assigning record binds `expr` to `result`, overwriting any earlier value, and every other key keeps its value |
| Bindings.MergeNeverRemoves | src/screens/home/index.tsx:145-148 | no binding is removed by a response |
| Bindings.EarlierAssignmentLost | src/screens/home/index.tsx:143-148 | with two assigning records for `x` and `y` in one response, only `y` reaches the store |
| Bindings.SingleAssignmentBinds | src/screens/home/index.tsx:144-148 | the response `x = 5` with `assign` set adds `x -> "5"` to the store |
| Overlay.LatexOf | src/screens/home/index.tsx:88 | the overlay string is `\(\LARGE `, the expression, ` = `, the answer and `\)`, each at its own position |
| Overlay.BodyOfLatex | src/screens/home/index.tsx:88 | removing the delimiters from an overlay string gives back `<expression> = <answer>` |
| Overlay.LatexDeterminesAnswer | src/screens/home/index.tsx:88 | for a given expression, the overlay string determines the answer |
| Overlay.TwoPlusTwo | src/screens/home/index.tsx:88 | `2+2` with answer `4` is rendered as `\(\LARGE 2+2 = 4\)`, whose body is `2+2 = 4` |
| HomeScreen.Home.constructor | src/screens/home/index.tsx:20-27 | the initial state: not drawing, colour `rgb(255, 255, 255)`, no reset, no result, no overlays, anchor `(10, 200)`, no bindings, blank raster |
| HomeScreen.Home.ClearRect | src/screens/home/index.tsx:95 | clearing the whole canvas leaves every raster byte zero |
| HomeScreen.Home.SelectColor | src/screens/home/index.tsx:210 | a swatch click changes the colour and nothing else |
| HomeScreen.Home.RequestReset | src/screens/home/index.tsx:199 | the Reset button raises the reset flag and nothing else |
| HomeScreen.Home.ResetCanvas | src/screens/home/index.tsx:185-193 | with a canvas the raster becomes blank; without one nothing changes |
| HomeScreen.Home.ResetEffect | src/screens/home/index.tsx:29-36 | a pending reset empties the overlays, clears the result, lowers the flag and blanks the raster; bindings, colour and drawing flag are kept; with no reset pending nothing changes |
| HomeScreen.Home.RenderLatexToCanvas | src/screens/home/index.tsx:87-98 | appends exactly one overlay string at the end, keeps every earlier one, and leaves the raster blank |
| HomeScreen.Home.ResultEffect | src/screens/home/index.tsx:46-50 | a present result is appended as one overlay; without a result nothing changes |
| HomeScreen.Home.ShowResult | src/screens/home/index.tsx:175-180 | the intended callback (unreachable as written, since :174 throws first) sets the result to the record's expression and answer and changes nothing else |
| HomeScreen.Home.StartDrawing | src/screens/home/index.tsx:100-110 | with a canvas, opens a path at the pointer and sets the drawing flag |
| HomeScreen.Home.StopDrawing | src/screens/home/index.tsx:112-114 | lowers the drawing flag and changes nothing else, so a second call has no effect |
| HomeScreen.Home.Draw | src/screens/home/index.tsx:116-127 | when not drawing nothing changes; when drawing, the path is extended to the pointer and stroked in the current colour |
| HomeScreen.Home.SendData | src/screens/home/index.tsx:129-172 | the request carries the old bindings; the store takes the response's assignments; the anchor becomes the centre of the ink's bounding box; nothing else changes |

## Left out

- The HTTP request to `/calculate` and the base URL from the environment are
  not modelled, because they are network I/O. The reply is the input `resp`
  of `SendData`, and the request is reduced to the bindings it carries.
- The PNG encoding of the canvas (`toDataURL`) is not modelled, because it is
  a foreign browser call.
- Stroke rasterisation (`beginPath`, `moveTo`, `lineTo`, `stroke`) is not
  modelled, because browser rendering includes antialiasing. The model keeps
  the path and the stroke colour, and `Draw` takes the resulting raster as
  the input `rendered`.
- The scheduling of results at index.tsx:174-181 is not reachable in the
  code as written, so `SendData` stops where the code stops, after
  `setLatexPosition` at :172. Line 143 calls `resp.forEach`, so only an array
  reply gets past it. For an array, `resp.data` is `undefined`, and
  `resp.data.forEach` at :174 throws a TypeError before any `setTimeout` is
  scheduled. A reply of the form `{data: [...]}` would throw at :143 instead.
  So no result is ever set from a reply and no overlay is ever shown.
  `ShowResult`, and the overlay step of `ExampleSession` that follows it,
  model what the intended 200 ms callback would do; the code cannot reach
  them. The timer itself is not modelled, because it is asynchronous.
- MathJax is not modelled: not its script injection and removal, not its
  configuration, and not the typesetting pass on a 100 ms timer. It is an
  external library run on timers.
- Sizing the canvas from the window, its line style and background, the
  `Draggable` overlays and their drag handling, and the JSX tree are not
  modelled, because they are UI.
- Centre: the model computes the centre exactly in `real` rather than in
  IEEE doubles. For canvas coordinates the two agree.
- React's effect scheduling, batching and stale closures are not modelled.
  Each handler and effect is one atomic method on the current fields. The one
  stale value that matters, the `dictOfVars` snapshot inside `sendData`, is
  modelled.
- Two overlapping submissions racing on the raster and the overlay list are
  not modelled, because each method is one atomic step.
- `SendData` treats "a canvas exists" and "it has a 2D context" as the one
  flag `hasCanvas`. The code checks only the canvas and then asserts the
  context with `ctx!`. A canvas without a context would throw after the
  bindings were merged, and that failure path is not modelled.
