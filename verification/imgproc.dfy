/**
 * Whole-image transforms of csf_assign02/c_imgproc_fns.c: row-major
 * indexing, the integer ellipse test, and the complement, transpose,
 * ellipse and emboss transforms.
 *
 * Each transform receives the output image as it was initialised by the
 * caller and returns the output after the transform has written to it.
 */
module ImgProc {
  import opened MachineInts
  import opened Pixel

  /** `struct Image`: dimensions and a row-major pixel array. */
  datatype Image = Image(width: int, height: int, data: seq<u32>)

  predicate Valid(img: Image) {
    0 <= img.width && 0 <= img.height && |img.data| == img.width * img.height
  }

  predicate SameShape(a: Image, b: Image) {
    a.width == b.width && a.height == b.height
  }

  /** The row-major position of (row, col) in an image `w` pixels wide. */
  function Idx(w: int, row: int, col: int): int {
    row * w + col
  }

  // ---------------------------------------------------------------------
  // Row-major indexing
  // ---------------------------------------------------------------------

  /** Positions of in-range coordinates lie inside the pixel array. */
  lemma IdxInRange(w: int, h: int, row: int, col: int)
    requires 0 <= row < h && 0 <= col < w
    ensures 0 <= Idx(w, row, col) < w * h
  {
    MulAtLeast(h - row, w);
    assert (h - row) * w == w * h - row * w;
    if row > 0 {
      MulAtLeast(row, w);
    }
  }

  /** The coordinates are recovered from the position by division. */
  lemma IdxInverse(w: int, row: int, col: int)
    requires 0 <= col < w
    ensures Idx(w, row, col) / w == row && Idx(w, row, col) % w == col
  {
    DivModOf(Idx(w, row, col), w, row, col);
  }

  /** Distinct in-range coordinates occupy distinct positions. */
  lemma IdxInjective(w: int, r1: int, c1: int, r2: int, c2: int)
    requires 0 <= c1 < w && 0 <= c2 < w
    requires Idx(w, r1, c1) == Idx(w, r2, c2)
    ensures r1 == r2 && c1 == c2
  {
    IdxInverse(w, r1, c1);
    IdxInverse(w, r2, c2);
  }

  /** Every position of the array is the position of some in-range coordinates. */
  lemma IdxCovers(w: int, h: int, i: int)
    requires 0 <= w && 0 <= h && 0 <= i < w * h
    ensures w > 0 && 0 <= i / w < h && 0 <= i % w < w && Idx(w, i / w, i % w) == i
  {
  }

  /** compute_index: the source asserts that both coordinates are in range. */
  function ComputeIndex(img: Image, row: int, col: int): (idx: int)
    requires Valid(img)
    requires 0 <= row < img.height && 0 <= col < img.width
    ensures 0 <= idx < |img.data|
    ensures idx / img.width == row && idx % img.width == col
  {
    IdxInRange(img.width, img.height, row, col);
    IdxInverse(img.width, row, col);
    Idx(img.width, row, col)
  }

  // ---------------------------------------------------------------------
  // The ellipse test
  // ---------------------------------------------------------------------

  /**
   * is_in_ellipse. With a = w/2 and b = h/2 the centre is (row b, col a);
   * the general case is floor(10000 x^2 / a^2) + floor(10000 y^2 / b^2) <= 10000,
   * and a zero semi-axis collapses the ellipse onto the centre row or column.
   * The numerators are never negative, so C's truncating division agrees
   * with Dafny's.
   */
  function InEllipse(img: Image, row: int, col: int): (r: bool)
    requires 0 <= img.width && 0 <= img.height
    ensures img.width / 2 == 0 ==> (r <==> col == img.width / 2 && Abs(row - img.height / 2) <= img.height / 2)
    ensures img.height / 2 == 0 ==> (r <==> row == img.height / 2 && Abs(col - img.width / 2) <= img.width / 2)
  {
    var a, b := img.width / 2, img.height / 2;
    var x, y := col - a, row - b;
    if a == 0 && b == 0 then x == 0 && y == 0
    else if a == 0 then SquareWithin(y, b); x == 0 && 10000 * y * y <= b * b * 10000
    else if b == 0 then SquareWithin(x, a); y == 0 && 10000 * x * x <= a * a * 10000
    else (10000 * x * x) / (a * a) + (10000 * y * y) / (b * b) <= 10000
  }

  /** Comparing scaled squares is comparing distances. */
  lemma SquareWithin(y: int, b: nat)
    ensures 10000 * y * y <= b * b * 10000 <==> Abs(y) <= b
  {
    var u := Abs(y);
    assert y * y == u * u;
    if u <= b {
      assert u * u <= u * b <= b * b;
    } else {
      assert u * u > u * b >= b * b;
    }
  }

  /**
   * Against the true ellipse (x/a)^2 + (y/b)^2 <= 1, written without
   * division as x^2 b^2 + y^2 a^2 <= a^2 b^2: every point of the true
   * ellipse passes the test, and every point that passes lies within a
   * factor 1.0002 of it, the slack the two floored quotients allow.
   */
  lemma EllipseAgainstTrue(img: Image, row: int, col: int)
    requires 0 <= img.width && 0 <= img.height
    requires img.width / 2 > 0 && img.height / 2 > 0
    ensures var a, b := img.width / 2, img.height / 2;
            var x, y := col - a, row - b;
            && (x * x * (b * b) + y * y * (a * a) <= (a * a) * (b * b) ==> InEllipse(img, row, col))
            && (InEllipse(img, row, col) ==> 10000 * (x * x * (b * b) + y * y * (a * a)) < 10002 * ((a * a) * (b * b)))
  {
    var a, b := img.width / 2, img.height / 2;
    var x, y := col - a, row - b;
    EllipseBracket(a * a, b * b, x * x, y * y);
    assert 10000 * x * x == 10000 * (x * x) && 10000 * y * y == 10000 * (y * y);
  }

  /**
   * With u = floor(10000 X / A) and v = floor(10000 Y / B):
   * u A B + v A B <= 10000 (X B + Y A) < (u + 1) A B + (v + 1) A B.
   */
  lemma EllipseBracket(A: int, B: int, X: nat, Y: nat)
    requires A > 0 && B > 0
    ensures X * B + Y * A <= A * B ==> (10000 * X) / A + (10000 * Y) / B <= 10000
    ensures (10000 * X) / A + (10000 * Y) / B <= 10000 ==> 10000 * (X * B + Y * A) < 10002 * (A * B)
  {
    var p, q := 10000 * X, 10000 * Y;
    var u, v := p / A, q / B;
    var AB := A * B;
    FloorScaled(p, A, B);
    FloorScaled(q, B, A);
    assert B * A == AB;
    assert p * B + q * A == 10000 * (X * B + Y * A);
    SumBracket(u, v, AB, p * B, q * A);
    if X * B + Y * A <= AB {
      CancelLe(u + v, 10000, AB);
    }
    if u + v <= 10000 {
      MulLe(u + v + 2, 10002, AB);
    }
  }

  /** floor(p / A) A B <= p B < (floor(p / A) + 1) A B. */
  lemma FloorScaled(p: nat, A: int, B: int)
    requires A > 0 && B > 0
    ensures (p / A) * (A * B) <= p * B < (p / A + 1) * (A * B)
  {
    var u := p / A;
    assert u * A <= p < (u + 1) * A;
    MulLe(u * A, p, B);
    MulLt(p, (u + 1) * A, B);
    assert u * A * B == u * (A * B);
    assert (u + 1) * A * B == (u + 1) * (A * B);
  }

  lemma SumBracket(u: int, v: int, AB: int, P: int, Q: int)
    requires u * AB <= P < (u + 1) * AB
    requires v * AB <= Q < (v + 1) * AB
    ensures (u + v) * AB <= P + Q < (u + v + 2) * AB
  {
    assert (u + v) * AB == u * AB + v * AB;
    assert (u + v + 2) * AB == (u + 1) * AB + (v + 1) * AB;
  }

  lemma MulLe(m: int, n: int, c: int)
    requires m <= n && c >= 0
    ensures m * c <= n * c
  {
    assert n * c - m * c == (n - m) * c;
  }

  lemma MulLt(m: int, n: int, c: int)
    requires m < n && c > 0
    ensures m * c < n * c
  {
    assert n * c - m * c == (n - m) * c;
    MulAtLeast(n - m, c);
  }

  lemma CancelLe(k: int, m: int, d: int)
    requires d > 0 && k * d <= m * d
    ensures k <= m
  {
    if k > m {
      MulLt(m, k, d);
    }
  }

  /** The centre pixel is always inside. */
  lemma EllipseCentre(img: Image)
    requires 0 <= img.width && 0 <= img.height
    ensures InEllipse(img, img.height / 2, img.width / 2)
  {
  }

  /** Both ends of both axes are inside: (b, 0), (b, 2a), (0, a) and (2b, a). */
  lemma EllipseAxisEnds(img: Image)
    requires 0 <= img.width && 0 <= img.height
    ensures var a, b := img.width / 2, img.height / 2;
            InEllipse(img, b, 0) && InEllipse(img, b, 2 * a) && InEllipse(img, 0, a) && InEllipse(img, 2 * b, a)
  {
    var a, b := img.width / 2, img.height / 2;
    if a > 0 {
      DivModOf(10000 * a * a, a * a, 10000, 0);
      assert 10000 * (-a) * (-a) == 10000 * a * a;
    }
    if b > 0 {
      DivModOf(10000 * b * b, b * b, 10000, 0);
      assert 10000 * (-b) * (-b) == 10000 * b * b;
    }
  }

  /** With both semi-axes positive, the top-left corner is outside. */
  lemma EllipseCornerOutside(img: Image)
    requires 0 <= img.width && 0 <= img.height
    requires img.width / 2 > 0 && img.height / 2 > 0
    ensures !InEllipse(img, 0, 0)
  {
    var a, b := img.width / 2, img.height / 2;
    assert 10000 * (-a) * (-a) == 10000 * a * a;
    assert 10000 * (-b) * (-b) == 10000 * b * b;
    DivModOf(10000 * a * a, a * a, 10000, 0);
    DivModOf(10000 * b * b, b * b, 10000, 0);
  }

  /** A zero semi-axis admits only the centre column (or row). */
  lemma EllipseDegenerate(img: Image, row: int, col: int)
    requires 0 <= img.width && 0 <= img.height
    requires InEllipse(img, row, col)
    ensures img.width / 2 == 0 ==> col == img.width / 2
    ensures img.height / 2 == 0 ==> row == img.height / 2
  {
    var a, b := img.width / 2, img.height / 2;
    if a > 0 && b == 0 {
      assert row - b == 0;
    }
  }

  /** The test only depends on the squares of the distances from the centre. */
  lemma EllipseMirror(img: Image, row: int, col: int)
    requires 0 <= img.width && 0 <= img.height
    ensures var a, b := img.width / 2, img.height / 2;
            && InEllipse(img, row, col) == InEllipse(img, row, 2 * a - col)
            && InEllipse(img, row, col) == InEllipse(img, 2 * b - row, col)
  {
    var a, b := img.width / 2, img.height / 2;
    var x, y := col - a, row - b;
    assert 10000 * (-x) * (-x) == 10000 * x * x;
    assert 10000 * (-y) * (-y) == 10000 * y * y;
  }

  lemma SquareMonotone(x: int, x': int)
    requires Abs(x') <= Abs(x)
    ensures 0 <= 10000 * x' * x' <= 10000 * x * x
  {
    var u, v := Abs(x'), Abs(x);
    assert x' * x' == u * u && x * x == v * v;
    assert u * u <= u * v <= v * v;
  }

  lemma DivMonotone(n: int, m: int, d: int)
    requires 0 <= n <= m && d > 0
    ensures n / d <= m / d
  {
    var qn, qm := n / d, m / d;
    assert qn * d - qm * d < d;
    assert (qn - qm) * d == qn * d - qm * d;
    MulBelow(qn - qm, d);
  }

  lemma MulBelow(k: int, d: int)
    requires k * d < d && d > 0
    ensures k < 1
  {
  }

  function Abs(x: int): (r: nat)
    ensures r == x || r == -x
  {
    if x < 0 then -x else x
  }

  /** Moving towards the centre along either axis never leaves the ellipse. */
  lemma EllipseShrink(img: Image, row: int, col: int, row': int, col': int)
    requires 0 <= img.width && 0 <= img.height
    requires InEllipse(img, row, col)
    requires Abs(col' - img.width / 2) <= Abs(col - img.width / 2)
    requires Abs(row' - img.height / 2) <= Abs(row - img.height / 2)
    ensures InEllipse(img, row', col')
  {
    var a, b := img.width / 2, img.height / 2;
    var x, y, x', y' := col - a, row - b, col' - a, row' - b;
    SquareMonotone(x, x');
    SquareMonotone(y, y');
    if a > 0 && b > 0 {
      DivMonotone(10000 * x' * x', 10000 * x * x, a * a);
      DivMonotone(10000 * y' * y', 10000 * y * y, b * b);
    }
  }

  // ---------------------------------------------------------------------
  // Pixels addressed by coordinates
  // ---------------------------------------------------------------------

  predicate InBounds(img: Image, row: int, col: int) {
    0 <= row < img.height && 0 <= col < img.width
  }

  /** The pixel at (row, col). */
  function PixelAt(img: Image, row: int, col: int): u32
    requires Valid(img) && InBounds(img, row, col)
  {
    img.data[ComputeIndex(img, row, col)]
  }

  /** Writing one pixel changes that pixel and no other. */
  lemma WritePixel(img: Image, row: int, col: int, v: u32)
    requires Valid(img) && InBounds(img, row, col)
    ensures var img' := img.(data := img.data[ComputeIndex(img, row, col) := v]);
            && Valid(img')
            && PixelAt(img', row, col) == v
            && forall r, c :: InBounds(img, r, c) && (r != row || c != col) ==> PixelAt(img', r, c) == PixelAt(img, r, c)
  {
    forall r, c | InBounds(img, r, c) && (r != row || c != col)
      ensures ComputeIndex(img, r, c) != ComputeIndex(img, row, col)
    {
      if ComputeIndex(img, r, c) == ComputeIndex(img, row, col) {
        IdxInjective(img.width, r, c, row, col);
      }
    }
  }

  /** Images of the same shape that agree on every coordinate are equal. */
  lemma ImageExtensional(x: Image, y: Image)
    requires Valid(x) && Valid(y) && SameShape(x, y)
    requires forall r, c :: InBounds(x, r, c) ==> PixelAt(x, r, c) == PixelAt(y, r, c)
    ensures x == y
  {
    forall i | 0 <= i < |x.data|
      ensures x.data[i] == y.data[i]
    {
      IdxCovers(x.width, x.height, i);
      assert PixelAt(x, i / x.width, i % x.width) == PixelAt(y, i / x.width, i % x.width);
    }
  }

  /** Row-major visiting order: (r, c) comes before the loop position (row, col). */
  predicate Visited(row: int, col: int, r: int, c: int) {
    r < row || (r == row && c < col)
  }

  // ---------------------------------------------------------------------
  // Complement
  // ---------------------------------------------------------------------

  /** `target` holds the pixels of `source` with red, green and blue inverted and alpha kept. */
  predicate ComplementOf(target: seq<u32>, source: seq<u32>) {
    |target| == |source|
    && forall i :: 0 <= i < |source| ==>
         && GetR(target[i]) == 255 - GetR(source[i]) && GetG(target[i]) == 255 - GetG(source[i])
         && GetB(target[i]) == 255 - GetB(source[i]) && GetA(target[i]) == GetA(source[i])
  }

  /** imgproc_complement. */
  method Complement(input: Image, output: Image) returns (result: Image)
    requires Valid(input) && Valid(output) && SameShape(input, output)
    ensures Valid(result) && SameShape(result, output)
    ensures ComplementOf(result.data, input.data)
  {
    var n := input.width * input.height;
    var data := output.data;
    var i := 0;
    while i < n
      invariant 0 <= i <= n && |data| == n
      invariant forall k :: 0 <= k < i ==> data[k] == ComplementPixel(input.data[k])
    {
      data := data[i := ComplementPixel(input.data[i])];
      i := i + 1;
    }
    result := output.(data := data);
  }

  /** Complementing twice gives back the original pixels. */
  lemma ComplementOfTwice(a: seq<u32>, b: seq<u32>, c: seq<u32>)
    requires ComplementOf(b, a) && ComplementOf(c, b)
    ensures c == a
  {
    forall i | 0 <= i < |a|
      ensures c[i] == a[i]
    {
      PixelExtensional(c[i], a[i]);
    }
  }

  // ---------------------------------------------------------------------
  // Transpose
  // ---------------------------------------------------------------------

  /** `target` is the square image `source` mirrored about its main diagonal. */
  ghost predicate TransposeOf(target: Image, source: Image) {
    && Valid(target) && Valid(source) && SameShape(target, source) && source.width == source.height
    && forall i, j :: InBounds(source, i, j) ==> PixelAt(target, j, i) == PixelAt(source, i, j)
  }

  /**
   * imgproc_transpose: 0 (nothing written) for a non-square input; otherwise
   * 1, with the pixel at (i, j) copied to (j, i). The output must have the
   * input's shape only when the input is square.
   */
  method Transpose(input: Image, output: Image) returns (status: int, result: Image)
    requires Valid(input) && Valid(output)
    requires input.width == input.height ==> SameShape(input, output)
    ensures status == (if input.width == input.height then 1 else 0)
    ensures status == 0 ==> result == output
    ensures status == 1 ==> TransposeOf(result, input)
  {
    if input.width != input.height {
      return 0, output;
    }
    var n := input.width;
    result := output;
    var i := 0;
    while i < n
      invariant 0 <= i <= n && Valid(result) && SameShape(result, output)
      invariant forall r, c :: InBounds(input, r, c) ==>
                  PixelAt(result, r, c) == (if c < i then PixelAt(input, c, r) else PixelAt(output, r, c))
    {
      var j := 0;
      while j < n
        invariant 0 <= j <= n && Valid(result) && SameShape(result, output)
        invariant forall r, c :: InBounds(input, r, c) ==>
                    PixelAt(result, r, c) == (if Visited(i, j, c, r) then PixelAt(input, c, r) else PixelAt(output, r, c))
      {
        var src := ComputeIndex(input, i, j);
        var dst := ComputeIndex(result, j, i);
        WritePixel(result, j, i, input.data[src]);
        result := result.(data := result.data[dst := input.data[src]]);
        j := j + 1;
      }
      i := i + 1;
    }
    status := 1;
  }

  /** Transposing twice gives back the original image. */
  lemma TransposeOfTwice(a: Image, b: Image, c: Image)
    requires TransposeOf(b, a) && TransposeOf(c, b)
    ensures c == a
  {
    forall r, col | InBounds(c, r, col)
      ensures PixelAt(c, r, col) == PixelAt(a, r, col)
    {
      assert PixelAt(c, r, col) == PixelAt(b, col, r);
    }
    ImageExtensional(c, a);
  }

  // ---------------------------------------------------------------------
  // Ellipse
  // ---------------------------------------------------------------------

  /** imgproc_ellipse: in-ellipse pixels are copied, every other output pixel is kept. */
  method Ellipse(input: Image, output: Image) returns (result: Image)
    requires Valid(input) && Valid(output) && SameShape(input, output)
    ensures Valid(result) && SameShape(result, output)
    ensures forall r, c :: InBounds(input, r, c) ==>
              PixelAt(result, r, c) == (if InEllipse(input, r, c) then PixelAt(input, r, c) else PixelAt(output, r, c))
  {
    result := output;
    var row := 0;
    while row < input.height
      invariant 0 <= row <= input.height && Valid(result) && SameShape(result, output)
      invariant forall r, c :: InBounds(input, r, c) ==>
                  PixelAt(result, r, c)
                    == (if r < row && InEllipse(input, r, c) then PixelAt(input, r, c) else PixelAt(output, r, c))
    {
      var col := 0;
      while col < input.width
        invariant 0 <= col <= input.width && Valid(result) && SameShape(result, output)
        invariant forall r, c :: InBounds(input, r, c) ==>
                    PixelAt(result, r, c)
                      == (if Visited(row, col, r, c) && InEllipse(input, r, c) then PixelAt(input, r, c) else PixelAt(output, r, c))
      {
        if InEllipse(input, row, col) {
          var idx := ComputeIndex(input, row, col);
          WritePixel(result, row, col, input.data[idx]);
          result := result.(data := result.data[idx := input.data[idx]]);
        }
        col := col + 1;
      }
      row := row + 1;
    }
  }

  // ---------------------------------------------------------------------
  // Emboss
  // ---------------------------------------------------------------------

  /**
   * The neighbour-minus-pixel colour difference of largest magnitude; on a
   * tie red wins over green and blue, and green wins over blue.
   */
  function Diff(p: u32, np: u32): (d: int)
    ensures var dr, dg, db := GetR(np) - GetR(p), GetG(np) - GetG(p), GetB(np) - GetB(p);
            && (d == dr || d == dg || d == db)
            && Abs(d) >= Abs(dr) && Abs(d) >= Abs(dg) && Abs(d) >= Abs(db)
            && (Abs(dr) == Abs(d) ==> d == dr)
            && (Abs(dg) == Abs(d) && Abs(dr) < Abs(d) ==> d == dg)
  {
    var dr, dg, db := GetR(np) - GetR(p), GetG(np) - GetG(p), GetB(np) - GetB(p);
    if Abs(dr) >= Abs(dg) && Abs(dr) >= Abs(db) then dr
    else if Abs(dg) >= Abs(db) then dg
    else db
  }

  /** Clamping to 0..255 picks the byte nearest to v. */
  function Clamp(v: int): (g: byte)
    ensures 0 <= v <= 255 ==> g == v
  {
    if v < 0 then 0 else if v > 255 then 255 else v
  }

  lemma ClampNearest(v: int, b: byte)
    ensures Abs(Clamp(v) - v) <= Abs(b - v)
  {
  }

  /** A top-row or left-column pixel: grey 128 with its own alpha. */
  function EdgePixel(p: u32): (e: u32)
    ensures GetR(e) == 128 && GetG(e) == 128 && GetB(e) == 128 && GetA(e) == GetA(p)
  {
    MakePixel(128, 128, 128, GetA(p))
  }

  /** An inner pixel: grey 128 + diff (clamped) against its upper-left neighbour, with its own alpha. */
  function EmbossPixel(p: u32, np: u32): (e: u32)
    ensures GetR(e) == GetG(e) == GetB(e) == Clamp(128 + Diff(p, np))
    ensures GetA(e) == GetA(p)
  {
    var gray := Clamp(128 + Diff(p, np));
    MakePixel(gray, gray, gray, GetA(p))
  }

  /** Where a pixel's colour equals its neighbour's, emboss gives the same grey as at the border. */
  lemma EmbossFlat(p: u32, np: u32)
    requires GetR(p) == GetR(np) && GetG(p) == GetG(np) && GetB(p) == GetB(np)
    ensures EmbossPixel(p, np) == EdgePixel(p)
  {
    PixelExtensional(EmbossPixel(p, np), EdgePixel(p));
  }

  /** The embossed value of the pixel at (r, c) of `img`. */
  function Embossed(img: Image, r: int, c: int): u32
    requires Valid(img) && InBounds(img, r, c)
  {
    if r == 0 || c == 0 then EdgePixel(PixelAt(img, r, c))
    else EmbossPixel(PixelAt(img, r, c), PixelAt(img, r - 1, c - 1))
  }

  /** imgproc_emboss: every output pixel is overwritten with its embossed value. */
  method Emboss(input: Image, output: Image) returns (result: Image)
    requires Valid(input) && Valid(output) && SameShape(input, output)
    ensures Valid(result) && SameShape(result, output)
    ensures forall r, c :: InBounds(input, r, c) ==> PixelAt(result, r, c) == Embossed(input, r, c)
  {
    result := output;
    var row := 0;
    while row < input.height
      invariant 0 <= row <= input.height && Valid(result) && SameShape(result, output)
      invariant forall r, c :: InBounds(input, r, c) ==>
                  PixelAt(result, r, c) == (if r < row then Embossed(input, r, c) else PixelAt(output, r, c))
    {
      var col := 0;
      while col < input.width
        invariant 0 <= col <= input.width && Valid(result) && SameShape(result, output)
        invariant forall r, c :: InBounds(input, r, c) ==>
                    PixelAt(result, r, c) == (if Visited(row, col, r, c) then Embossed(input, r, c) else PixelAt(output, r, c))
      {
        var idx := ComputeIndex(input, row, col);
        var p := input.data[idx];
        var e := if row == 0 || col == 0 then EdgePixel(p)
                 else EmbossPixel(p, input.data[ComputeIndex(input, row - 1, col - 1)]);
        WritePixel(result, row, col, e);
        result := result.(data := result.data[idx := e]);
        col := col + 1;
      }
      row := row + 1;
    }
  }
}
