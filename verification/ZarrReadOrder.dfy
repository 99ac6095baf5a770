/** The pixel order of `readNoParse` in itl2/io/zarrcodecs.h: the raw bytes of a
    chunk are read pixel after pixel with x varying slowest and z fastest, so
    the k-th pixel read lands at (x, y, z) with k = (x * height + y) * depth + z.
    Opening the file, skipping the header and decoding one pixel are not part of
    this model: `readPixel(k)` stands for the k-th pixel value in the stream. */
module ZarrReadOrder {

  datatype Coord = Coord(x: nat, y: nat, z: nat)

  predicate InImage(w: nat, h: nat, d: nat, c: Coord)
  {
    c.x < w && c.y < h && c.z < d
  }

  /** Position in the pixel stream from which pixel `c` is read. */
  function ReadPosition(h: nat, d: nat, c: Coord): nat
  {
    (c.x * h + c.y) * d + c.z
  }

  /** The pixel the k-th value of the stream is stored to. */
  function PixelAtPosition(h: nat, d: nat, k: nat): Coord
    requires h > 0 && d > 0
  {
    Coord(k / (h * d), (k / d) % h, k % d)
  }

  lemma MulMonotone(a: nat, b: nat, m: nat)
    requires a <= b
    ensures a * m <= b * m
  {
    assert b * m == a * m + (b - a) * m;
  }

  /** Euclidean division of `q * d + r` by `d` when 0 <= r < d. */
  lemma DivModOf(q: nat, d: nat, r: nat)
    requires r < d
    ensures (q * d + r) / d == q && (q * d + r) % d == r
  {
    var k := q * d + r;
    var q' := k / d;
    var r' := k % d;
    assert k == q' * d + r';
    if q' > q {
      MulMonotone(q + 1, q', d);
      assert false;
    } else if q' < q {
      MulMonotone(q' + 1, q, d);
      assert false;
    }
  }

  lemma Distribute(x: nat, y: nat, m: nat)
    ensures (x + y) * m == x * m + y * m
  {
  }

  lemma Associate(x: nat, y: nat, m: nat)
    ensures (x * y) * m == x * (y * m)
  {
  }

  lemma DivDiv(k: nat, h: nat, d: nat)
    requires h > 0 && d > 0
    ensures k / (h * d) == (k / d) / h
  {
    var a := k / d;
    var r1 := k % d;
    var b := a / h;
    var r2 := a % h;
    assert k == a * d + r1;
    assert a == b * h + r2;
    Distribute(b * h, r2, d);
    Associate(b, h, d);
    assert k == b * (h * d) + (r2 * d + r1);
    MulMonotone(r2 + 1, h, d);
    Distribute(r2, 1, d);
    assert r2 * d + r1 < h * d;
    DivModOf(b, h * d, r2 * d + r1);
  }

  /** Every pixel of the image is read from a position inside the stream
      prefix of w * h * d values. */
  lemma ReadPositionInRange(w: nat, h: nat, d: nat, c: Coord)
    requires InImage(w, h, d, c)
    ensures ReadPosition(h, d, c) < w * h * d
  {
    MulMonotone(c.x * h + c.y + 1, c.x * h + h, d);
    MulMonotone(c.x + 1, w, h * d);
    assert (c.x * h + h) * d == (c.x + 1) * (h * d);
  }

  /** The read position determines the pixel: it is the inverse of
      `PixelAtPosition` on the image. */
  lemma PositionOfPixelRoundTrip(w: nat, h: nat, d: nat, c: Coord)
    requires InImage(w, h, d, c)
    ensures PixelAtPosition(h, d, ReadPosition(h, d, c)) == c
  {
    var k := ReadPosition(h, d, c);
    DivModOf(c.x * h + c.y, d, c.z);
    DivModOf(c.x, h, c.y);
    DivDiv(k, h, d);
  }

  /** Every position below w * h * d is the read position of exactly one
      pixel of the image. */
  lemma PixelOfPositionRoundTrip(w: nat, h: nat, d: nat, k: nat)
    requires k < w * h * d
    ensures h > 0 && d > 0
    ensures InImage(w, h, d, PixelAtPosition(h, d, k))
    ensures ReadPosition(h, d, PixelAtPosition(h, d, k)) == k
  {
    var c := PixelAtPosition(h, d, k);
    DivDiv(k, h, d);
    var a := k / d;
    assert k == a * d + c.z;
    assert a == c.x * h + c.y;
    if c.x >= w {
      MulMonotone(w, c.x, h * d);
      assert false;
    }
  }

  lemma ReadPositionInjective(w: nat, h: nat, d: nat, c1: Coord, c2: Coord)
    requires InImage(w, h, d, c1) && InImage(w, h, d, c2)
    requires ReadPosition(h, d, c1) == ReadPosition(h, d, c2)
    ensures c1 == c2
  {
    PositionOfPixelRoundTrip(w, h, d, c1);
    PositionOfPixelRoundTrip(w, h, d, c2);
  }

  /** `readNoParse`: the x-outer, y-middle, z-inner loop storing the next value
      of the stream to each pixel. Returns the filled image and the number of
      values read. */
  method ReadNoParse<P>(w: nat, h: nat, d: nat, readPixel: nat -> P) returns (img: map<Coord, P>, count: nat)
    ensures count == w * h * d
    ensures forall c :: c in img <==> InImage(w, h, d, c)
    ensures forall c :: c in img ==> img[c] == readPixel(ReadPosition(h, d, c))
  {
    img := map[];
    count := 0;
    var x: nat := 0;
    while x < w
      invariant x <= w
      invariant count == (x * h) * d
      invariant forall c :: c in img <==> c.x < x && c.y < h && c.z < d
      invariant forall c :: c in img ==> img[c] == readPixel(ReadPosition(h, d, c))
    {
      var y: nat := 0;
      while y < h
        invariant y <= h
        invariant count == (x * h + y) * d
        invariant forall c :: c in img <==>
          (c.x < x && c.y < h && c.z < d) || (c.x == x && c.y < y && c.z < d)
        invariant forall c :: c in img ==> img[c] == readPixel(ReadPosition(h, d, c))
      {
        var z: nat := 0;
        while z < d
          invariant z <= d
          invariant count == (x * h + y) * d + z
          invariant forall c :: c in img <==>
            (c.x < x && c.y < h && c.z < d) || (c.x == x && c.y < y && c.z < d) || (c.x == x && c.y == y && c.z < z)
          invariant forall c :: c in img ==> img[c] == readPixel(ReadPosition(h, d, c))
        {
          img := img[Coord(x, y, z) := readPixel(count)];
          count := count + 1;
          z := z + 1;
        }
        assert (x * h + y) * d + d == (x * h + y + 1) * d;
        y := y + 1;
      }
      assert (x * h + h) * d == ((x + 1) * h) * d;
      x := x + 1;
    }
  }
}
