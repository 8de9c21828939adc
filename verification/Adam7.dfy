/** The seven interlace passes of `_ADAM7_PASSES` and their sizes (scripts/docs_screenshot_manifest.py),
  * as laid down in section 2.6 of RFC 2083.
  */
module Adam7 {
  import opened Division

  datatype Pass = Pass(startX: nat, startY: nat, stepX: nat, stepY: nat)

  const PASSES: seq<Pass> := [
    Pass(0, 0, 8, 8),
    Pass(4, 0, 8, 8),
    Pass(0, 4, 4, 8),
    Pass(2, 0, 4, 4),
    Pass(0, 2, 2, 4),
    Pass(1, 0, 2, 2),
    Pass(0, 1, 1, 2)
  ]

  /** `_png_pass_size` */
  function PassSize(length: nat, start: nat, step: nat): nat
    requires step > 0
  {
    if length <= start then 0 else (length - start + step - 1) / step
  }

  /** The coordinates below `length` that a pass visits along one axis. */
  ghost function Visited(length: nat, start: nat, step: nat): set<nat>
    requires step > 0
  {
    set x: nat | x < length && OnGrid(x, start, step)
  }

  ghost predicate OnGrid(x: nat, start: nat, step: nat)
    requires step > 0
  {
    x >= start && (x - start) % step == 0
  }

  lemma {:induction false} PassSizeCounts(length: nat, start: nat, step: nat)
    requires step > 0
    ensures |Visited(length, start, step)| == PassSize(length, start, step)
    decreases length
  {
    if length <= start {
      assert Visited(length, start, step) == {};
    } else {
      var x := length - 1;
      PassSizeCounts(x, start, step);
      OneMore(x - start, step);
      if (x - start) % step == 0 {
        assert Visited(length, start, step) == Visited(x, start, step) + {x};
      } else {
        assert Visited(length, start, step) == Visited(x, start, step);
      }
    }
  }

  /** Rounding up grows by one exactly after a multiple of the step. */
  lemma OneMore(n: nat, step: nat)
    requires step > 0
    ensures (n + step) / step == (n + step - 1) / step + if n % step == 0 then 1 else 0
  {
    var q, r := n / step, n % step;
    assert n == q * step + r;
    assert (n + step) / step == q + 1 by {
      Quotient(n + step, step, q + 1, r);
    }
    if r == 0 {
      Quotient(n + step - 1, step, q, step - 1);
    } else {
      Quotient(n + step - 1, step, q + 1, r - 1);
    }
  }

  ghost predicate InPass(p: Pass, x: nat, y: nat)
    requires p.stepX > 0 && p.stepY > 0
  {
    OnGrid(x, p.startX, p.stepX) && OnGrid(y, p.startY, p.stepY)
  }

  lemma GridIsRemainder(x: nat, start: nat, step: nat)
    requires start < step
    ensures OnGrid(x, start, step) <==> x % step == start
  {
    var q, r := x / step, x % step;
    assert x == q * step + r;
    if r >= start {
      Quotient(x - start, step, q, r - start);
    } else if q > 0 {
      assert (q - 1) * step == q * step - step;
      Quotient(x - start, step, q - 1, r - start + step);
    }
  }

  /** On the grids of the seven passes only the remainder by eight matters. */
  lemma Remainders(x: nat)
    ensures OnGrid(x, 0, 8) == (x % 8 == 0) && OnGrid(x, 4, 8) == (x % 8 == 4)
    ensures OnGrid(x, 0, 4) == (x % 8 in {0, 4}) && OnGrid(x, 2, 4) == (x % 8 in {2, 6})
    ensures OnGrid(x, 0, 2) == (x % 8 in {0, 2, 4, 6}) && OnGrid(x, 1, 2) == (x % 8 in {1, 3, 5, 7})
    ensures OnGrid(x, 0, 1)
  {
    var q, r := x / 8, x % 8;
    Quotient(x, 4, 2 * q + r / 4, r % 4);
    Quotient(x, 2, 4 * q + r / 2, r % 2);
    GridIsRemainder(x, 0, 8);
    GridIsRemainder(x, 4, 8);
    GridIsRemainder(x, 0, 4);
    GridIsRemainder(x, 2, 4);
    GridIsRemainder(x, 0, 2);
    GridIsRemainder(x, 1, 2);
    hide OnGrid;
  }

  /** Every pixel belongs to exactly one of the seven passes. */
  lemma OnePassPerPixel(x: nat, y: nat) returns (k: nat)
    ensures k < 7 && InPass(PASSES[k], x, y)
    ensures forall j :: 0 <= j < 7 && InPass(PASSES[j], x, y) ==> j == k
  {
    Remainders(x);
    Remainders(y);
    hide OnGrid;
    var a, b := x % 8, y % 8;
    k := if a == 0 && b == 0 then 0
         else if a == 4 && b == 0 then 1
         else if a in {0, 4} && b == 4 then 2
         else if a in {2, 6} && b in {0, 4} then 3
         else if a in {0, 2, 4, 6} && b in {2, 6} then 4
         else if a in {1, 3, 5, 7} && b in {0, 2, 4, 6} then 5
         else 6;
  }

  ghost function Area(p: Pass, width: nat, height: nat): nat
    requires p.stepX > 0 && p.stepY > 0
  {
    PassSize(width, p.startX, p.stepX) * PassSize(height, p.startY, p.stepY)
  }

  /** Along an axis, two sets of coordinates have nothing in common and make up a third. */
  ghost predicate Fills(length: nat, start: nat, step: nat, earlier: nat, later: nat, wide: nat)
    requires step > 0 && wide > 0
  {
    && Visited(length, earlier, wide) !! Visited(length, later, wide)
    && Visited(length, earlier, wide) + Visited(length, later, wide) == Visited(length, start, step)
  }

  lemma FilledSize(length: nat, start: nat, step: nat, earlier: nat, later: nat, wide: nat)
    requires step > 0 && wide > 0 && Fills(length, start, step, earlier, later, wide)
    ensures PassSize(length, earlier, wide) + PassSize(length, later, wide) == PassSize(length, start, step)
  {
    PassSizeCounts(length, start, step);
    PassSizeCounts(length, earlier, wide);
    PassSizeCounts(length, later, wide);
    hide Visited;
    var a, b := Visited(length, earlier, wide), Visited(length, later, wide);
    assert |a + b| == |a| + |b|;
  }

  /** Each later pass visits exactly the coordinates between those of the earlier ones, until the last visit all. */
  lemma Interleave(length: nat)
    ensures Fills(length, 0, 4, 0, 4, 8) && Fills(length, 0, 2, 0, 2, 4) && Fills(length, 0, 1, 0, 1, 2)
  {
    forall x: nat
      ensures OnGrid(x, 0, 4) == (OnGrid(x, 0, 8) || OnGrid(x, 4, 8)) && !(OnGrid(x, 0, 8) && OnGrid(x, 4, 8))
      ensures OnGrid(x, 0, 2) == (OnGrid(x, 0, 4) || OnGrid(x, 2, 4)) && !(OnGrid(x, 0, 4) && OnGrid(x, 2, 4))
      ensures OnGrid(x, 0, 1) == (OnGrid(x, 0, 2) || OnGrid(x, 1, 2)) && !(OnGrid(x, 0, 2) && OnGrid(x, 1, 2))
    {
      hide OnGrid;
      Remainders(x);
    }
    hide OnGrid;
  }

  lemma AxisSizes(length: nat)
    ensures PassSize(length, 0, 8) + PassSize(length, 4, 8) == PassSize(length, 0, 4)
    ensures PassSize(length, 0, 4) + PassSize(length, 2, 4) == PassSize(length, 0, 2)
    ensures PassSize(length, 0, 2) + PassSize(length, 1, 2) == length == PassSize(length, 0, 1)
  {
    hide Fills, PassSize;
    Interleave(length);
    FilledSize(length, 0, 4, 0, 4, 8);
    FilledSize(length, 0, 2, 0, 2, 4);
    FilledSize(length, 0, 1, 0, 1, 2);
    SingleStep(length);
  }

  /** The seven passes together hold every pixel of the image once. */
  lemma AreasSumToImage(width: nat, height: nat)
    ensures Area(PASSES[0], width, height) + Area(PASSES[1], width, height) + Area(PASSES[2], width, height)
            + Area(PASSES[3], width, height) + Area(PASSES[4], width, height) + Area(PASSES[5], width, height)
            + Area(PASSES[6], width, height) == width * height
  {
    AxisSizes(width);
    AxisSizes(height);
    var w8, w4, w2 := PassSize(width, 0, 8), PassSize(width, 0, 4), PassSize(width, 0, 2);
    var h8, h4, h2 := PassSize(height, 0, 8), PassSize(height, 0, 4), PassSize(height, 0, 2);
    Distribute(w8, PassSize(width, 4, 8), h8);
    Distribute(h8, PassSize(height, 4, 8), w4);
    Distribute(w4, PassSize(width, 2, 4), h4);
    Distribute(h4, PassSize(height, 2, 4), w2);
    Distribute(w2, PassSize(width, 1, 2), h2);
    Distribute(h2, PassSize(height, 1, 2), width);
  }

  lemma SingleStep(length: nat)
    ensures PassSize(length, 0, 1) == length
  {
  }

  lemma Distribute(a: nat, b: nat, c: nat)
    ensures a * c + b * c == (a + b) * c && c * a + c * b == c * (a + b)
  {
  }
}
