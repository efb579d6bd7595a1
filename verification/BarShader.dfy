/** `CBarShader` of src/BarShader.cpp: a file drawn as a row of pixels, each blended in proportion to how much of it
    a range covers, and the row repeated to the height of the bar. */
module BarShader {
  import opened Common

  // ----- Coverage -----

  function Min(a: real, b: real): real {
    if a < b then a else b
  }

  function Max(a: real, b: real): real {
    if a < b then b else a
  }

  /** How much of pixel `i` lies between `a` and `b`. */
  function Overlap(i: nat, a: real, b: real): real {
    Max(0.0, Min((i + 1) as real, b) - Max(i as real, a))
  }

  ghost function Total(n: nat, a: real, b: real): real {
    if n == 0 then 0.0 else Total(n - 1, a, b) + Overlap(n - 1, a, b)
  }

  /** What the pixels are covered by adds up to what there is to cover. */
  lemma {:induction false} TotalIsLength(n: nat, a: real, b: real)
    requires 0.0 <= a <= b
    ensures Total(n, a, b) == Min(n as real, b) - Min(n as real, a)
  {
    if n > 0 {
      TotalIsLength(n - 1, a, b);
    }
  }

  /** Byte `p` of `size`, in pixels. */
  function Scaled(p: nat, width: nat, size: nat): real
    requires size > 0
  {
    (p * width) as real / size as real
  }

  lemma ScaledDivides(p: nat, width: nat, size: nat)
    requires size > 0
    ensures var pixel := p * width / size;
            pixel as real <= Scaled(p, width, size) < (pixel + 1) as real
  {}

  function FirstPixel(start: nat, width: nat, size: nat): nat
    requires size > 0
  {
    start * width / size
  }

  function LastPixel(end: nat, width: nat, size: nat): int
    requires size > 0
  {
    if FirstPixel(end, width, size) == width then width - 1 else FirstPixel(end, width, size)
  }

  lemma TimesMonotone(a: nat, b: nat, n: nat)
    requires a <= b
    ensures a * n <= b * n
  {
  }

  lemma DividesBelow(a: nat, w: nat, n: nat)
    requires n > 0
    ensures a / n < w <==> a < w * n
  {
    var q := a / n;
    assert q * n <= a < (q + 1) * n;
    if q < w {
      TimesMonotone(q + 1, w, n);
    } else {
      TimesMonotone(w, q, n);
    }
  }

  lemma DividesMonotone(a: nat, b: nat, n: nat)
    requires a <= b && n > 0
    ensures a / n <= b / n
  {
    DividesBelow(b, b / n + 1, n);
    DividesBelow(a, b / n + 1, n);
  }

  lemma ProductBelow(p: nat, size: nat, width: nat)
    requires p < size && width > 0
    ensures p * width < width * size
  {}

  lemma ProductAtMost(p: nat, size: nat, width: nat)
    requires p <= size
    ensures p * width < (width + 1) * size || size == 0
  {}

  lemma FirstInBar(start: nat, width: nat, size: nat)
    requires start < size && width > 0
    ensures FirstPixel(start, width, size) < width
  {
    ProductBelow(start, size, width);
    DividesBelow(start * width, width, size);
  }

  lemma LastInBar(end: nat, width: nat, size: nat)
    requires end <= size && size > 0 && width > 0
    ensures FirstPixel(end, width, size) <= width && LastPixel(end, width, size) < width
  {
    ProductAtMost(end, size, width);
    DividesBelow(end * width, width + 1, size);
  }

  /** Both ends of a range are pixels of the bar, in order. */
  lemma PixelsInBar(start: nat, end: nat, width: nat, size: nat)
    requires start < end <= size && width > 0
    ensures FirstPixel(start, width, size) <= LastPixel(end, width, size) < width
  {
    FirstInBar(start, width, size);
    LastInBar(end, width, size);
    TimesMonotone(start, end, width);
    DividesMonotone(start * width, end * width, size);
  }

  /** The fractions blended into the first, the last and a lone pixel are what the range covers of them; between
      them it covers everything, outside nothing. */
  lemma CoverageIsOverlap(start: nat, end: nat, width: nat, size: nat, i: nat)
    requires start < end <= size && width > 0 && i < width
    ensures var a, b := Scaled(start, width, size), Scaled(end, width, size);
            var first, last := FirstPixel(start, width, size), LastPixel(end, width, size);
            var firstCovered, lastCovered := (first + 1) as real - a, b - last as real;
            && 0.0 <= Overlap(i, a, b) <= 1.0
            && Overlap(i, a, b) == if first == last == i then firstCovered + lastCovered - 1.0
                                   else if i == first then firstCovered
                                   else if i == last then lastCovered
                                   else if first < i < last then 1.0 else 0.0
  {
    PixelsInBar(start, end, width, size);
    ScaledDivides(start, width, size);
    ScaledDivides(end, width, size);
    ScaledOrdered(start, end, width, size);
  }

  lemma ScaledOrdered(start: nat, end: nat, width: nat, size: nat)
    requires start < end <= size && width > 0
    ensures 0.0 <= Scaled(start, width, size) < Scaled(end, width, size) <= width as real
  {}

  /** Altogether the range is drawn exactly as long as it is. */
  lemma CoverageAddsUp(start: nat, end: nat, width: nat, size: nat)
    requires start < end <= size && width > 0
    ensures Total(width, Scaled(start, width, size), Scaled(end, width, size))
            == ((end - start) * width) as real / size as real
  {
    ScaledOrdered(start, end, width, size);
    TotalIsLength(width, Scaled(start, width, size), Scaled(end, width, size));
    Distributes(start, end, width);
    QuotientsSubtract((end * width) as real, (start * width) as real, size as real);
  }

  lemma Distributes(start: nat, end: nat, width: nat)
    requires start < end
    ensures (end - start) * width == end * width - start * width
    ensures ((end - start) * width) as real == (end * width) as real - (start * width) as real
  {
  }

  lemma QuotientsSubtract(x: real, y: real, z: real)
    requires z > 0.0
    ensures x / z - y / z == (x - y) / z
  {
  }

  // ----- The bar -----

  /** A product of two words is cut to 64 bits. */
  function Times(p: uint64, width: nat): uint64 {
    p * width % TWO64
  }

  /** Where a range that is not empty stops: the last byte is drawn as a block of its own, and what is past the end
      of the file is cut off. */
  function Stop(end: uint64, fileSize: uint64): (stop: uint64)
    ensures stop <= fileSize
  {
    var next := (end + 1) % TWO64;
    if next > fileSize then fileSize else next
  }

  /** No number is cut in drawing up to `end`. */
  predicate Uncut(end: uint64, width: nat, size: uint64) {
    end + 1 < TWO64 && Stop(end, size) * width < TWO64
  }

  lemma StopsLater(start: uint64, end: uint64, width: nat, size: uint64)
    requires start < end && start < size && Uncut(end, width, size)
    ensures start < Stop(end, size)
  {}

  /** The pixel of byte `p` as it is computed. */
  function PixelOf(p: uint64, width: nat, size: uint64): nat
    requires size > 0
  {
    Times(p, width) / size
  }

  lemma CutFallsShort(p: uint64, width: nat, size: uint64)
    requires size > 0
    ensures PixelOf(p, width, size) <= FirstPixel(p, width, size)
    ensures p * width < TWO64 ==> PixelOf(p, width, size) == FirstPixel(p, width, size)
  {
    var product: nat := p * width;
    DividesMonotone(product % TWO64, product, size);
  }

  /** The pixels drawn at the two ends: even where a product is cut they fall inside the bar. */
  function FirstDrawn(start: uint64, width: nat, size: uint64): (first: nat)
    requires start < size && width > 0
    ensures first < width
    ensures start * width < TWO64 ==> first == FirstPixel(start, width, size)
  {
    CutFallsShort(start, width, size);
    FirstInBar(start, width, size);
    PixelOf(start, width, size)
  }

  function LastDrawn(stop: uint64, width: nat, size: uint64): (last: nat)
    requires stop <= size && size > 0 && width > 0
    ensures last < width
    ensures stop * width < TWO64 ==> last == LastPixel(stop, width, size)
  {
    CutFallsShort(stop, width, size);
    LastInBar(stop, width, size);
    if PixelOf(stop, width, size) == width then width - 1 else PixelOf(stop, width, size)
  }

  const MAX_FILE_SIZE: nat := 0x40_0000_0000
  const MAX_BAR_WIDTH: nat := 0x400_0000

  /** Nothing is cut for any file the network allows. */
  lemma NothingIsCut(end: uint64, width: nat, size: uint64)
    requires size <= MAX_FILE_SIZE && width < MAX_BAR_WIDTH && end < size
    ensures Uncut(end, width, size) && Stop(end, size) == end + 1
  {
    TimesMonotone(Stop(end, size), MAX_FILE_SIZE, width);
    assert width * MAX_FILE_SIZE < MAX_BAR_WIDTH * MAX_FILE_SIZE == TWO64;
  }

  class BarShader<Colour(0)> {
    var content: array<Colour>
    var fileSize: uint64
    const blendWith: (Colour, Colour, real) -> Colour

    constructor (blendWith: (Colour, Colour, real) -> Colour, width: nat, fileSize: uint64, colour: Colour)
      ensures fresh(content) && content.Length == width && this.fileSize == fileSize && this.blendWith == blendWith
      ensures forall i | 0 <= i < width :: content[i] == colour
    {
      this.blendWith, this.fileSize := blendWith, fileSize;
      content := new Colour[width](_ => colour);
    }

    /** Unless a product is cut to 64 bits every pixel gets its share of the range; cut or not, no pixel outside the
        bar is touched. Only in a bar of width 0 there is no pixel to draw, and the program then writes past the end
        of its pixels; `overrun` says so. */
    method FillRange(start: uint64, end: uint64, colour: Colour) returns (overrun: bool)
      modifies content
      ensures start >= end || start >= fileSize ==> content[..] == old(content[..])
      ensures overrun <==> content.Length == 0 && start < end && start < fileSize
      ensures !overrun && start < end && start < fileSize ==>
                forall i | 0 <= i < content.Length ::
                  content[i] == Drawn(old(content[i]), colour, start, Stop(end, fileSize), i)
      ensures !overrun && start < end && start < fileSize && Uncut(end, content.Length, fileSize) ==>
                forall i | 0 <= i < content.Length ::
                  content[i] == Pixel(old(content[i]), colour, start, Stop(end, fileSize), i)
    {
      if start >= end || start >= fileSize {
        return false;
      }
      if content.Length == 0 {
        return true;
      }
      overrun := false;
      var stop := Stop(end, fileSize);
      var width := content.Length;
      var first := FirstDrawn(start, width, fileSize);
      var last := LastDrawn(stop, width, fileSize);
      ghost var before := content[..];
      Paint(first, last, (first + 1) as real - Scaled(start, width, fileSize),
            Scaled(stop, width, fileSize) - last as real, colour);
      if Uncut(end, width, fileSize) {
        StopsLater(start, end, width, fileSize);
        AllDrawnIsPixel(before, colour, start, stop);
      }
    }

    lemma AllDrawnIsPixel(before: seq<Colour>, colour: Colour, start: uint64, stop: uint64)
      requires start < stop <= fileSize && |before| == content.Length > 0 && stop * content.Length < TWO64
      ensures forall i | 0 <= i < |before| ::
                Drawn(before[i], colour, start, stop, i) == Pixel(before[i], colour, start, stop, i)
    {
      forall i | 0 <= i < |before|
        ensures Drawn(before[i], colour, start, stop, i) == Pixel(before[i], colour, start, stop, i)
      {
        DrawnIsPixel(before[i], colour, start, stop, i);
      }
    }

    lemma DrawnIsPixel(before: Colour, colour: Colour, start: uint64, stop: uint64, i: nat)
      requires start < stop <= fileSize && i < content.Length && stop * content.Length < TWO64
      ensures Drawn(before, colour, start, stop, i) == Pixel(before, colour, start, stop, i)
    {
      TimesMonotone(start, stop, content.Length);
      CoverageIsOverlap(start, stop, content.Length, fileSize, i);
    }

    /** What pixel `i` becomes, given the pixels the ends of the range are drawn in. */
    ghost function Drawn(before: Colour, colour: Colour, start: uint64, stop: uint64, i: nat): Colour
      requires start < fileSize && stop <= fileSize && content.Length > 0
      reads this
    {
      var width := content.Length;
      var first, last := FirstDrawn(start, width, fileSize), LastDrawn(stop, width, fileSize);
      Painted(before, colour, first, last, (first + 1) as real - Scaled(start, width, fileSize),
              Scaled(stop, width, fileSize) - last as real, i)
    }

    method Paint(first: nat, last: nat, firstCovered: real, lastCovered: real, colour: Colour)
      requires first < content.Length && last < content.Length
      modifies content
      ensures forall i | 0 <= i < content.Length ::
                content[i] == Painted(old(content[i]), colour, first, last, firstCovered, lastCovered, i)
    {
      if first == last {
        content[first] := blendWith(content[first], colour, firstCovered + lastCovered - 1.0);
      } else {
        content[first] := blendWith(content[first], colour, firstCovered);
        content[last] := blendWith(content[last], colour, lastCovered);
        ghost var ends := content[..];
        var i := first + 1;
        while i < last
          invariant first < i && (i <= last || i == first + 1)
          invariant forall j | 0 <= j < content.Length :: content[j] == if first < j < i then colour else ends[j]
        {
          content[i] := colour;
          i := i + 1;
        }
      }
    }

    /** What one pixel becomes, given where the ends are drawn and how much of those two pixels is covered. */
    ghost function Painted(before: Colour, colour: Colour, first: nat, last: nat, firstCovered: real,
                           lastCovered: real, i: nat): Colour {
      if first == last == i then blendWith(before, colour, firstCovered + lastCovered - 1.0)
      else if i == first then blendWith(before, colour, firstCovered)
      else if i == last then blendWith(before, colour, lastCovered)
      else if first < i < last then colour else before
    }

    /** A pixel the range covers whole takes the colour, the two at its ends blend it in by what is covered. */
    ghost function Pixel(before: Colour, colour: Colour, start: nat, stop: nat, i: nat): Colour
      requires fileSize > 0
      reads this
    {
      var width := content.Length;
      if i == FirstPixel(start, width, fileSize) || i == LastPixel(stop, width, fileSize)
      then blendWith(before, colour, Overlap(i, Scaled(start, width, fileSize), Scaled(stop, width, fileSize)))
      else if Overlap(i, Scaled(start, width, fileSize), Scaled(stop, width, fileSize)) == 1.0 then colour else before
    }
  }

  // ----- The flat bar -----

  function Power(k: nat): nat {
    if k == 0 then 1 else 2 * Power(k - 1)
  }

  /** Copies the first `n` rows to row `to`. Where the two overlap the C library promises nothing, and says so. */
  method CopyRows<T>(rows: array<T>, to: nat, n: nat) returns (overlap: bool)
    requires to + n <= rows.Length
    modifies rows
    ensures overlap == (n > to)
    ensures forall j | 0 <= j < to :: rows[j] == old(rows[j])
    ensures !overlap ==> forall j | to <= j < to + n :: rows[j] == old(rows[j - to])
  {
    overlap := n > to;
    if !overlap {
      for i := 0 to n
        invariant forall j | 0 <= j < to :: rows[j] == old(rows[j])
        invariant forall j | to <= j < to + i :: rows[j] == old(rows[j - to])
      {
        rows[to + i] := rows[i];
      }
    }
  }

  /** The rows of a flat bar, by doubling what is there. */
  method DrawFlat<T>(row: T, height: nat, blank: T) returns (rows: array<T>, overlap: bool)
    requires height > 0
    ensures fresh(rows) && rows.Length == height
    ensures overlap <==> exists k: nat :: k >= 1 && height == Power(k) + 1
    ensures !overlap ==> forall y | 0 <= y < height :: rows[y] == row
  {
    rows := new T[height](_ => blank);
    rows[0] := row;
    overlap := false;
    var y := 1;
    ghost var k: nat := 0;
    while y < height / 2
      invariant y == Power(k) && y <= height && (k > 0 ==> Power(k - 1) < height / 2)
      invariant forall j | 0 <= j < y :: rows[j] == row
      decreases height - y
    {
      var _ := CopyRows(rows, y, y);
      y, k := 2 * y, k + 1;
    }
    if y < height {
      overlap := CopyRows(rows, y, height - y);
    }
    OverlapsExactly(height, y, k);
  }

  lemma {:induction false} PowersGrow(k: nat, j: nat)
    ensures k < j <==> Power(k) < Power(j)
    decreases k + j
  {
    if k > 0 && j > 0 {
      PowersGrow(k - 1, j - 1);
    } else if j > 1 {
      PowersGrow(0, j - 1);
    } else if k > 1 {
      PowersGrow(k - 1, 0);
    }
  }

  /** The last copy is longer than what it copies from exactly one row past a power of two. */
  lemma OverlapsExactly(height: nat, y: nat, k: nat)
    requires height > 0 && y == Power(k) && height / 2 <= y && (k > 0 ==> Power(k - 1) < height / 2)
    ensures height - y > y <==> exists j: nat :: j >= 1 && height == Power(j) + 1
  {
    if height - y > y {
      assert height == Power(k + 1) + 1;
    }
    forall j: nat | j >= 1 && height == Power(j) + 1 ensures j == k + 1 {
      assert height / 2 == Power(j - 1);
      PowersGrow(k, j - 1);
      if k > 0 {
        PowersGrow(k - 1, j - 1);
      }
    }
  }
}
