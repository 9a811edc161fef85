/** The two image loops of src/lib.rs: the adaptive fill of one row in
    `render`, and the edge detection of `render_wireframe`. Images are
    sequences of rows; the source's flat buffers index pixel (x, y) at
    y * width + x. */
module Renderer {
  import opened Optional
  import opened Vectors
  import opened Solids
  import Tracer

  // ---------------------------------------------------------------------
  // The row fill of `render` (lines 211-233)
  // ---------------------------------------------------------------------

  /** The mean of two colours, `(a + b) * 0.5`. */
  function Average(a: Vec3, b: Vec3): Vec3 {
    Scale(Add(a, b), 0.5)
  }

  /** Two traced colours differ too much to interpolate between them. */
  predicate Contrast(a: Vec3, b: Vec3) {
    LenSqr(Sub(a, b)) > 0.5
  }

  /** An odd pixel between two traced even pixels: traced itself where the
      neighbours contrast, their average otherwise. */
  function Between(shade: nat -> Vec3, x: nat): Vec3
    requires 1 <= x
  {
    if Contrast(shade(x - 1), shade(x + 1)) then shade(x) else Average(shade(x - 1), shade(x + 1))
  }

  /** The last even pixel the loop of line 217 traces: 2 (width/2 - 1). */
  function LastEven(width: nat): int {
    2 * (width / 2 - 1)
  }

  /** Pixel x of the row as the source leaves it, `shade(x)` standing for
      `trace` of the camera ray through pixel x. Pixels right of LastEven
      are never written and keep the zero default of the buffer. */
  function PixelAsWritten(width: nat, shade: nat -> Vec3, x: nat): Vec3 {
    if x == 0 then shade(0)
    else if x > LastEven(width) then Zero
    else if x % 2 == 0 then shade(x)
    else Between(shade, x)
  }

  /** The row loop as written. `width / 2 - 1` underflows (a panic) for
      widths below 2, hence the precondition. */
  method FillRowAsWritten(width: nat, shade: nat -> Vec3) returns (row: seq<Vec3>)
    requires 2 <= width
    ensures |row| == width
    ensures forall x :: 0 <= x < width ==> row[x] == PixelAsWritten(width, shade, x)
  {
    row := seq(width, _ => Zero);
    row := row[0 := shade(0)];
    var hx := 0;
    while hx < width / 2 - 1
      invariant 0 <= hx <= width / 2 - 1
      invariant |row| == width
      invariant forall x :: 0 <= x < width ==>
        row[x] == if x <= 2 * hx then PixelAsWritten(width, shade, x) else Zero
    {
      row := FillPair(width, shade, row, 2 * (hx + 1));
      hx := hx + 1;
    }
  }

  /** One pass of the row loop for the even pixel x: trace it, then trace
      pixel x - 1 as well if x and x - 2 contrast, or else give x - 1 their
      average. Nothing else in the row changes. */
  method FillPair(width: nat, shade: nat -> Vec3, row: seq<Vec3>, x: nat) returns (next: seq<Vec3>)
    requires 2 <= x < width && |row| == width
    requires row[x - 2] == shade(x - 2)
    ensures |next| == width
    ensures next[x] == shade(x) && next[x - 1] == Between(shade, x - 1)
    ensures forall i :: 0 <= i < width && i != x && i != x - 1 ==> next[i] == row[i]
  {
    next := row[x := shade(x)];
    if Contrast(next[x - 2], next[x]) {
      next := next[x - 1 := shade(x - 1)];
    } else {
      next := next[x - 1 := Average(next[x - 2], next[x])];
    }
  }

  /** The rightmost pixel of every row stays black whatever the scene
      shows there (for odd widths the one before it as well). */
  lemma LastPixelNeverWritten(width: nat, shade: nat -> Vec3)
    requires 2 <= width
    ensures PixelAsWritten(width, shade, width - 1) == Zero
    ensures width % 2 == 1 ==> PixelAsWritten(width, shade, width - 2) == Zero
  {
  }

  /** A row of a white scene, four pixels wide, ends in a black pixel. */
  lemma WhiteRowEndsBlack()
    ensures var white := (x: nat) => Vec3(1.0, 1.0, 1.0);
      PixelAsWritten(4, white, 3) == Zero && white(3) != Zero
  {
  }

  /** The intended row: the loop runs over every even pixel that exists and
      a pixel left over at the right edge is traced. */
  function PixelFixed(width: nat, shade: nat -> Vec3, x: nat): Vec3 {
    if x % 2 == 0 || x + 1 == width then shade(x) else Between(shade, x)
  }

  /** The corrected row loop: `for hx in 0..(width - 1) / 2`, then the last
      pixel of an even-width row traced. */
  method FillRow(width: nat, shade: nat -> Vec3) returns (row: seq<Vec3>)
    requires 1 <= width
    ensures |row| == width
    ensures forall x :: 0 <= x < width ==> row[x] == PixelFixed(width, shade, x)
  {
    row := seq(width, _ => Zero);
    row := row[0 := shade(0)];
    var hx := 0;
    while hx < (width - 1) / 2
      invariant 0 <= hx <= (width - 1) / 2
      invariant |row| == width
      invariant forall x :: 0 <= x <= 2 * hx ==> row[x] == PixelFixed(width, shade, x)
    {
      row := FillPair(width, shade, row, 2 * (hx + 1));
      hx := hx + 1;
    }
    if width % 2 == 0 {
      row := row[width - 1 := shade(width - 1)];
    }
  }

  /** In the corrected row every pixel is written: it is either traced, or
      it sits between two traced pixels that do not contrast and is their
      average. */
  lemma FillRowCovers(width: nat, shade: nat -> Vec3, x: nat)
    requires x < width
    ensures PixelFixed(width, shade, x) == shade(x)
      || (0 < x < width - 1 && x % 2 == 1 && !Contrast(shade(x - 1), shade(x + 1))
          && PixelFixed(width, shade, x) == Average(shade(x - 1), shade(x + 1)))
  {
  }

  /** Away from the right edge the corrected row agrees with the source. */
  lemma FillRowAgrees(width: nat, shade: nat -> Vec3, x: nat)
    requires 2 <= width && x <= LastEven(width)
    ensures PixelFixed(width, shade, x) == PixelAsWritten(width, shade, x)
  {
  }

  /** The colours of row y of the image: `shade(x, y)` stands for `trace`
      of the camera ray through pixel (x, y). */
  function RowShade(shade: (nat, nat) -> Vec3, y: nat): nat -> Vec3 {
    (x: nat) => shade(x, y)
  }

  /** `render` as written: every row is filled independently by the row
      loop (the source hands the rows to parallel workers; their order does
      not matter because no row reads another). The last column stays
      black. */
  method RenderAsWritten(width: nat, height: nat, shade: (nat, nat) -> Vec3) returns (img: seq<seq<Vec3>>)
    requires height == 0 || 2 <= width
    ensures |img| == height
    ensures forall y :: 0 <= y < height ==> |img[y]| == width
    ensures forall y, x :: 0 <= y < height && 0 <= x < width ==>
      img[y][x] == PixelAsWritten(width, RowShade(shade, y), x)
    ensures forall y :: 0 <= y < height ==> img[y][width - 1] == Zero
  {
    img := [];
    var y := 0;
    while y < height
      invariant 0 <= y <= height && |img| == y
      invariant forall j :: 0 <= j < y ==> |img[j]| == width
      invariant forall j, x :: 0 <= j < y && 0 <= x < width ==>
        img[j][x] == PixelAsWritten(width, RowShade(shade, j), x)
      invariant forall j :: 0 <= j < y ==> img[j][width - 1] == Zero
    {
      var row := FillRowAsWritten(width, RowShade(shade, y));
      LastPixelNeverWritten(width, RowShade(shade, y));
      img := img + [row];
      y := y + 1;
    }
  }

  /** The corrected `render`: every row filled by the corrected loop, so the
      last column is traced. */
  method Render(width: nat, height: nat, shade: (nat, nat) -> Vec3) returns (img: seq<seq<Vec3>>)
    requires height == 0 || 1 <= width
    ensures |img| == height
    ensures forall y :: 0 <= y < height ==> |img[y]| == width
    ensures forall y, x :: 0 <= y < height && 0 <= x < width ==>
      img[y][x] == PixelFixed(width, RowShade(shade, y), x)
    ensures forall y :: 0 <= y < height ==> img[y][width - 1] == shade(width - 1, y)
  {
    img := [];
    var y := 0;
    while y < height
      invariant 0 <= y <= height && |img| == y
      invariant forall j :: 0 <= j < y ==> |img[j]| == width
      invariant forall j, x :: 0 <= j < y && 0 <= x < width ==>
        img[j][x] == PixelFixed(width, RowShade(shade, j), x)
      invariant forall j :: 0 <= j < y ==> img[j][width - 1] == shade(width - 1, j)
    {
      var row := FillRow(width, RowShade(shade, y));
      img := img + [row];
      y := y + 1;
    }
  }

  // ---------------------------------------------------------------------
  // The camera and the wireframe edge rule of `render_wireframe`
  // ---------------------------------------------------------------------

  /** Image size and `angle`, the tangent of half the field of view. */
  datatype Camera = Camera(width: nat, height: nat, angle: real)

  function InvWidth(c: Camera): real {
    if c.width == 0 then 0.0 else 1.0 / (c.width as real)
  }

  function InvHeight(c: Camera): real {
    if c.height == 0 then 0.0 else 1.0 / (c.height as real)
  }

  function AspectRatio(c: Camera): real {
    (c.width as real) * InvHeight(c)
  }

  /** `get_xx`: the horizontal camera-plane coordinate of pixel column x. */
  function PixelX(c: Camera, x: nat): real {
    (2.0 * ((x as real + 0.5) * InvWidth(c)) - 1.0) * c.angle * AspectRatio(c)
  }

  /** `get_yy`: the vertical camera-plane coordinate of pixel row y. */
  function PixelY(c: Camera, y: nat): real {
    (1.0 - 2.0 * ((y as real + 0.5) * InvHeight(c))) * c.angle
  }

  /** The pixel centres lie symmetrically about the view axis, column x
      opposite column width-1-x and row y opposite row height-1-y, and
      neighbouring centres are a constant step apart. */
  lemma PixelGrid(c: Camera, x: nat, y: nat)
    requires x < c.width && y < c.height
    ensures PixelX(c, x) == -PixelX(c, c.width - 1 - x)
    ensures PixelY(c, y) == -PixelY(c, c.height - 1 - y)
    ensures PixelX(c, x + 1) - PixelX(c, x) == 2.0 * InvWidth(c) * c.angle * AspectRatio(c)
    ensures PixelY(c, y) - PixelY(c, y + 1) == 2.0 * InvHeight(c) * c.angle
  {
    var w := c.width as real;
    var h := c.height as real;
    assert InvWidth(c) * w == 1.0;
    assert InvHeight(c) * h == 1.0;
    assert (x as real + 0.5) * InvWidth(c) + ((c.width - 1 - x) as real + 0.5) * InvWidth(c) == 1.0 by {
      assert (x as real + 0.5) + ((c.width - 1 - x) as real + 0.5) == w;
    }
    assert (y as real + 0.5) * InvHeight(c) + ((c.height - 1 - y) as real + 0.5) * InvHeight(c) == 1.0 by {
      assert (y as real + 0.5) + ((c.height - 1 - y) as real + 0.5) == h;
    }
  }

  /** The horizontal coordinate the first-column pass (line 145) aims at:
      it divides by the height where column 0 needs the width. */
  function ColumnX(c: Camera): real {
    (2.0 * (0.5 * InvHeight(c)) - 1.0) * c.angle * AspectRatio(c)
  }

  // The scene enters the wireframe only through `seen(xx, yy)`: the id
  // `get_hit_object_id` reports for the camera ray from the origin through
  // the camera-plane point (xx, yy, -1), normalised (Tracer.HitId of
  // Tracer.Hits for that ray).

  /** The id stored for pixel (x, y) when column 0 is aimed at columnX. */
  function CellId(c: Camera, seen: (real, real) -> int, columnX: real, x: nat, y: nat): int {
    seen(if x == 0 then columnX else PixelX(c, x), PixelY(c, y))
  }

  /** The edge rule: a pixel off the first row and column is white when its
      id differs from the id on its left or the id above it. */
  predicate Edge(c: Camera, seen: (real, real) -> int, columnX: real, x: nat, y: nat) {
    1 <= x && 1 <= y
    && (CellId(c, seen, columnX, x, y) != CellId(c, seen, columnX, x - 1, y)
        || CellId(c, seen, columnX, x, y) != CellId(c, seen, columnX, x, y - 1))
  }

  /** The first-row pass (lines 135-142): the ids of row 0. */
  method FirstRow(c: Camera, seen: (real, real) -> int) returns (ids: seq<int>)
    ensures |ids| == c.width
    ensures forall i :: 0 <= i < c.width ==> ids[i] == seen(PixelX(c, i), PixelY(c, 0))
  {
    ids := [];
    var x := 0;
    while x < c.width
      invariant 0 <= x <= c.width && |ids| == x
      invariant forall i :: 0 <= i < x ==> ids[i] == seen(PixelX(c, i), PixelY(c, 0))
    {
      ids := ids + [seen(PixelX(c, x), PixelY(c, 0))];
      x := x + 1;
    }
  }

  /** The first-column pass (lines 145-152), aimed at columnX. */
  method FirstColumn(c: Camera, seen: (real, real) -> int, columnX: real) returns (ids: seq<int>)
    ensures |ids| == c.height
    ensures forall j :: 0 <= j < c.height ==> ids[j] == CellId(c, seen, columnX, 0, j)
  {
    ids := [];
    var y := 0;
    while y < c.height
      invariant 0 <= y <= c.height && |ids| == y
      invariant forall j :: 0 <= j < y ==> ids[j] == CellId(c, seen, columnX, 0, j)
    {
      ids := ids + [seen(columnX, PixelY(c, y))];
      y := y + 1;
    }
  }

  /** One row y >= 1 of the main pass (lines 155-167): the ids of the row,
      starting from the first-column id, and its edge flags, given the ids
      of the row above. */
  method EdgeRow(c: Camera, seen: (real, real) -> int, columnX: real, y: nat, first: int, above: seq<int>)
    returns (line: seq<int>, edges: seq<bool>)
    requires 1 <= y && 1 <= c.width
    requires first == CellId(c, seen, columnX, 0, y)
    requires |above| == c.width
    requires forall i :: 0 <= i < c.width ==> above[i] == CellId(c, seen, columnX, i, y - 1)
    ensures |line| == c.width && |edges| == c.width
    ensures forall i :: 0 <= i < c.width ==> line[i] == CellId(c, seen, columnX, i, y)
    ensures forall i :: 0 <= i < c.width ==> edges[i] == Edge(c, seen, columnX, i, y)
  {
    line := [first];
    edges := [false];
    var x := 1;
    while x < c.width
      invariant 1 <= x <= c.width && |line| == x && |edges| == x
      invariant forall i :: 0 <= i < x ==> line[i] == CellId(c, seen, columnX, i, y)
      invariant forall i :: 0 <= i < x ==> edges[i] == Edge(c, seen, columnX, i, y)
    {
      var val := seen(PixelX(c, x), PixelY(c, y));
      edges := edges + [val != line[x - 1] || val != above[x]];
      line := line + [val];
      x := x + 1;
    }
  }

  /** The three passes of `render_wireframe` with column 0 aimed at
      columnX: the first row, the first column, then every other pixel
      compared with its left and upper neighbours. The hit buffer is kept
      one row at a time, which is all the comparison reads. A 0-wide or
      0-high image panics in the source unless both sizes are 0. */
  method Wireframe(c: Camera, seen: (real, real) -> int, columnX: real) returns (img: seq<seq<bool>>)
    requires c.width == 0 <==> c.height == 0
    ensures |img| == c.height
    ensures forall y :: 0 <= y < c.height ==> |img[y]| == c.width
    ensures forall y, x :: 0 <= y < c.height && 0 <= x < c.width ==>
      img[y][x] == Edge(c, seen, columnX, x, y)
  {
    if c.height == 0 {
      return [];
    }
    var firstRow := FirstRow(c, seen);
    var firstColumn := FirstColumn(c, seen, columnX);
    var above := firstRow[0 := firstColumn[0]];
    img := [seq(c.width, _ => false)];
    var y := 1;
    while y < c.height
      invariant 1 <= y <= c.height && |img| == y && |above| == c.width
      invariant forall i :: 0 <= i < c.width ==> above[i] == CellId(c, seen, columnX, i, y - 1)
      invariant forall j :: 0 <= j < y ==> |img[j]| == c.width
      invariant forall j, i :: 0 <= j < y && 0 <= i < c.width ==> img[j][i] == Edge(c, seen, columnX, i, j)
    {
      var line, edges := EdgeRow(c, seen, columnX, y, firstColumn[y], above);
      img := img + [edges];
      above := line;
      y := y + 1;
    }
  }

  /** `render_wireframe` as written: column 0 is aimed at ColumnX. */
  method RenderWireframeAsWritten(c: Camera, seen: (real, real) -> int) returns (img: seq<seq<bool>>)
    requires c.width == 0 <==> c.height == 0
    ensures |img| == c.height
    ensures forall y :: 0 <= y < c.height ==> |img[y]| == c.width
    ensures forall y, x :: 0 <= y < c.height && 0 <= x < c.width ==>
      img[y][x] == Edge(c, seen, ColumnX(c), x, y)
  {
    img := Wireframe(c, seen, ColumnX(c));
  }

  /** The first-column pass aims at the true column-0 coordinate exactly
      when the image is square (for a non-degenerate field of view). */
  lemma ColumnAimedIffSquare(c: Camera)
    requires 0 < c.width && 0 < c.height && c.angle != 0.0
    ensures ColumnX(c) == PixelX(c, 0) <==> c.width == c.height
  {
    var iw, ih := InvWidth(c), InvHeight(c);
    var k := c.angle * AspectRatio(c);
    assert ColumnX(c) == (ih - 1.0) * k;
    assert PixelX(c, 0) == (iw - 1.0) * k;
    assert 0.0 < AspectRatio(c) by {
      ProductPositive(c.width as real, ih, AspectRatio(c));
    }
    assert k != 0.0;
    if ColumnX(c) == PixelX(c, 0) {
      assert (ih - iw) * k == 0.0;
      ZeroProduct(k, ih - iw);
      assert ih * (c.height as real) == 1.0 && iw * (c.width as real) == 1.0;
    }
  }

  /** A 4 x 2 image: column 0 is at xx = -1.5 but the first-column pass
      shoots its rays through xx = -1, so on a scene whose object boundary
      lies between the two, the edge test of column 1 compares against the
      wrong object. */
  lemma ColumnMisaimedExample()
    ensures PixelX(Camera(4, 2, 1.0), 0) == -1.5
    ensures ColumnX(Camera(4, 2, 1.0)) == -1.0
  {
  }

  /** The corrected `render_wireframe`: column 0 aimed at PixelX(c, 0), so
      that a pixel is white exactly when the object seen through its centre
      differs from the one seen through its left or its upper neighbour. */
  method RenderWireframe(c: Camera, seen: (real, real) -> int) returns (img: seq<seq<bool>>)
    requires c.width == 0 <==> c.height == 0
    ensures |img| == c.height
    ensures forall y :: 0 <= y < c.height ==> |img[y]| == c.width
    ensures forall y, x :: 0 <= y < c.height && 0 <= x < c.width ==>
      (img[y][x] <==>
         1 <= x && 1 <= y
         && (SeenAt(c, seen, x, y) != SeenAt(c, seen, x - 1, y)
             || SeenAt(c, seen, x, y) != SeenAt(c, seen, x, y - 1)))
  {
    img := Wireframe(c, seen, PixelX(c, 0));
    forall x: nat, y: nat
      ensures CellId(c, seen, PixelX(c, 0), x, y) == SeenAt(c, seen, x, y)
    {
      if x == 0 {
        assert CellId(c, seen, PixelX(c, 0), 0, y) == seen(PixelX(c, 0), PixelY(c, y));
      }
    }
  }

  /** The id seen through the centre of pixel (x, y). */
  function SeenAt(c: Camera, seen: (real, real) -> int, x: nat, y: nat): int {
    seen(PixelX(c, x), PixelY(c, y))
  }
}
