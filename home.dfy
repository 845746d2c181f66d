/** The `Home` component: its state fields and the event handlers and effects
    that update them, each taken as one atomic step. */
module HomeScreen {
  import opened Wrappers
  import opened Raster
  import opened Bindings
  import opened Overlay

  /** The expression and answer waiting to be turned into an overlay. */
  datatype GeneratedImage = GeneratedImage(expression: string, answer: string)

  /** A pointer position in canvas coordinates (`offsetX`, `offsetY`). */
  datatype Point = Point(x: int, y: int)

  /** The values of the component's mutable fields, for "nothing else changes". */
  datatype State = State(
    isDrawing: bool,
    color: string,
    reset: bool,
    result: Option<GeneratedImage>,
    latexExpression: seq<string>,
    latexPosition: Position,
    dictOfVars: map<string, string>,
    path: seq<Point>,
    strokeStyle: string)

  const InitialColor: string := "rgb(255, 255, 255)"
  const InitialPosition: Position := Position(10.0, 200.0)
  /** The stroke style a fresh 2D context starts with. */
  const DefaultStrokeStyle: string := "#000000"

  class Home {
    /** The canvas size, fixed when the component mounts. */
    const width: nat
    const height: nat
    /** Whether the canvas element is mounted and has a 2D context. */
    const hasCanvas: bool
    /** The canvas raster as RGBA bytes, row by row. */
    const pixels: array<Byte>

    var isDrawing: bool
    var color: string
    var reset: bool
    var result: Option<GeneratedImage>
    /** The overlay strings, oldest first. */
    var latexExpression: seq<string>
    /** Where new overlays are anchored. */
    var latexPosition: Position
    var dictOfVars: map<string, string>
    /** The 2D context's current path. */
    var path: seq<Point>
    var strokeStyle: string

    ghost predicate Valid()
      reads this
    {
      pixels.Length == width * height * 4
    }

    ghost function View(): State
      reads this
    {
      State(isDrawing, color, reset, result, latexExpression, latexPosition,
            dictOfVars, path, strokeStyle)
    }

    /** Every byte of the raster is zero, as `clearRect` leaves it. */
    ghost predicate RasterBlank()
      reads pixels
    {
      forall i :: 0 <= i < pixels.Length ==> pixels[i] == 0
    }

    constructor (width: nat, height: nat, hasCanvas: bool)
      ensures Valid() && fresh(pixels)
      ensures this.width == width && this.height == height && this.hasCanvas == hasCanvas
      ensures View() == State(false, InitialColor, false, None, [], InitialPosition,
                              map[], [], DefaultStrokeStyle)
      ensures RasterBlank()
    {
      this.width, this.height, this.hasCanvas := width, height, hasCanvas;
      pixels := new Byte[width * height * 4](_ => 0);
      isDrawing, color, reset, result := false, InitialColor, false, None;
      latexExpression, latexPosition, dictOfVars := [], InitialPosition, map[];
      path, strokeStyle := [], DefaultStrokeStyle;
    }

    /** `ctx.clearRect` over the whole canvas. */
    method ClearRect()
      requires Valid()
      modifies pixels
      ensures Valid()
      ensures RasterBlank()
    {
      forall i | 0 <= i < pixels.Length {
        pixels[i] := 0;
      }
    }

    /** A click on a colour swatch. */
    method SelectColor(c: string)
      requires Valid()
      modifies this
      ensures Valid()
      ensures View() == old(View()).(color := c)
    {
      color := c;
    }

    /** A click on the Reset button. */
    method RequestReset()
      requires Valid()
      modifies this
      ensures Valid()
      ensures View() == old(View()).(reset := true)
    {
      reset := true;
    }

    /** Clears the raster when there is a canvas to clear. */
    method ResetCanvas()
      requires Valid()
      modifies pixels
      ensures Valid()
      ensures hasCanvas ==> RasterBlank()
      ensures !hasCanvas ==> unchanged(pixels)
    {
      if hasCanvas {
        ClearRect();
      }
    }

    /** The effect that runs when `reset` changes: a pending reset clears the
        raster, the overlays and the result, and lowers the flag; the drawing
        flag, the colour and the bindings are kept. */
    method ResetEffect()
      requires Valid()
      modifies this, pixels
      ensures Valid()
      ensures old(reset) ==> View() == old(View()).(latexExpression := [], result := None, reset := false)
      ensures old(reset) && hasCanvas ==> RasterBlank()
      ensures old(reset) && !hasCanvas ==> unchanged(pixels)
      ensures !old(reset) ==> unchanged(this) && unchanged(pixels)
    {
      if reset {
        ResetCanvas();
        latexExpression := [];
        result := None;
        reset := false;
      }
    }

    /** Appends the overlay string of one result and clears the raster. */
    method RenderLatexToCanvas(expression: string, answer: string)
      requires Valid()
      modifies this, pixels
      ensures Valid()
      ensures View() == old(View()).(latexExpression := old(latexExpression) + [LatexOf(expression, answer)])
      ensures |latexExpression| == |old(latexExpression)| + 1
      ensures forall i :: 0 <= i < |old(latexExpression)| ==> latexExpression[i] == old(latexExpression)[i]
      ensures hasCanvas ==> RasterBlank()
      ensures !hasCanvas ==> unchanged(pixels)
    {
      latexExpression := latexExpression + [LatexOf(expression, answer)];
      if hasCanvas {
        ClearRect();
      }
    }

    /** The effect that runs when `result` changes: a present result is
        rendered as an overlay. */
    method ResultEffect()
      requires Valid()
      modifies this, pixels
      ensures Valid()
      ensures old(result).Some? ==>
        View() == old(View()).(latexExpression := old(latexExpression) +
          [LatexOf(old(result).value.expression, old(result).value.answer)])
      ensures old(result).Some? && hasCanvas ==> RasterBlank()
      ensures old(result).Some? && !hasCanvas ==> unchanged(pixels)
      ensures old(result).None? ==> unchanged(this) && unchanged(pixels)
    {
      if result.Some? {
        RenderLatexToCanvas(result.value.expression, result.value.answer);
      }
    }

    /** What the delayed callback `sendData` means to schedule for each record
        would do once it fires. The code as written throws at `resp.data`
        before scheduling it, so this step is never reached from a reply. */
    method ShowResult(expression: string, answer: string)
      requires Valid()
      modifies this
      ensures Valid()
      ensures View() == old(View()).(result := Some(GeneratedImage(expression, answer)))
    {
      result := Some(GeneratedImage(expression, answer));
    }

    /** Mouse down: opens a new path at `p` and raises the drawing flag. */
    method StartDrawing(p: Point)
      requires Valid()
      modifies this
      ensures Valid()
      ensures hasCanvas ==> View() == old(View()).(path := [p], isDrawing := true)
      ensures !hasCanvas ==> unchanged(this)
    {
      if hasCanvas {
        path := [p];
        isDrawing := true;
      }
    }

    /** Mouse up or mouse out: lowers the drawing flag. */
    method StopDrawing()
      requires Valid()
      modifies this
      ensures Valid()
      ensures View() == old(View()).(isDrawing := false)
    {
      isDrawing := false;
    }

    /** Mouse move: while drawing, extends the path to `p` and strokes it in
        the current colour. The browser's rasterisation of the stroke is not
        modelled: `rendered` is the raster it leaves. */
    method Draw(p: Point, rendered: seq<Byte>)
      requires Valid() && |rendered| == pixels.Length
      modifies this, pixels
      ensures Valid()
      ensures old(isDrawing) && hasCanvas ==>
        View() == old(View()).(path := old(path) + [p], strokeStyle := old(color)) && pixels[..] == rendered
      ensures !(old(isDrawing) && hasCanvas) ==> unchanged(this) && unchanged(pixels)
    {
      if !isDrawing {
        return;
      }
      if hasCanvas {
        path := path + [p];
        strokeStyle := color;
        forall i | 0 <= i < pixels.Length {
          pixels[i] := rendered[i];
        }
      }
    }

    /** The Calculate button, from the moment the service's records `resp`
        arrive: the request carried the bindings as they were; the store then
        takes the response's assignments, and the overlay anchor moves to the
        centre of the ink's bounding box. The code stops here: the scheduling
        of results that follows throws at `resp.data`. */
    method SendData(resp: seq<Response>) returns (sent: Option<map<string, string>>)
      requires Valid()
      modifies this
      ensures Valid()
      ensures !hasCanvas ==> sent == None && unchanged(this)
      ensures hasCanvas ==> sent == Some(old(dictOfVars))
      ensures hasCanvas ==>
        exists b :: (IsBoundingBox(pixels[..], width, height, b) &&
          View() == old(View()).(dictOfVars := SnapshotMerge(old(dictOfVars), resp), latexPosition := Centre(b)))
    {
      if !hasCanvas {
        return None;
      }
      sent := Some(dictOfVars);
      dictOfVars := MergeResponse(dictOfVars, resp);
      var box := Locate(pixels, width, height);
      latexPosition := Centre(box);
    }
  }

  /** A session through the handlers: drawing, a submission that assigns `x`,
      the overlay its callback is meant to show (unreachable in the code as
      written), a second submission that sends the binding back, and a
      reset. */
  method ExampleSession(rendered: seq<Byte>)
    requires |rendered| == 4 * 3 * 4
  {
    var home := new Home(4, 3, true);
    home.StartDrawing(Point(1, 1));
    assert home.isDrawing;
    home.Draw(Point(2, 1), rendered);
    home.StopDrawing();
    home.StopDrawing();
    assert !home.isDrawing;
    home.Draw(Point(3, 1), rendered);
    assert home.path == [Point(1, 1), Point(2, 1)];

    var sent := home.SendData([Response("x", "5", true)]);
    assert sent == Some(map[]);
    SingleAssignmentBinds(map[]);
    assert home.dictOfVars == map["x" := "5"];
    home.ShowResult("x", "5");
    home.ResultEffect();
    assert home.latexExpression == [LatexOf("x", "5")];
    assert home.RasterBlank();

    sent := home.SendData([Response("x + 1", "6", false)]);
    assert sent == Some(map["x" := "5"]);
    BlankBufferHasNoInk(home.pixels[..], 4, 3);
    assert home.latexPosition == Position(2.0, 1.5);

    home.RequestReset();
    home.ResetEffect();
    assert home.latexExpression == [] && home.result == None && !home.reset;
    assert home.dictOfVars == map["x" := "5"];
  }
}
