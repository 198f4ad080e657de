/**
 * The pixel grid of a `width x height` image: coordinates, the column-major
 * enumeration the permutation key starts from, and the row-major mapping from a
 * linear index to the cell it stands for during relocation.
 */
module Grid {

  /** A pixel coordinate `(x, y)`: `x` is the column, `y` the row. */
  datatype Coord = Coord(x: nat, y: nat)

  /** `c` lies inside a `w x h` grid. */
  predicate InGrid(c: Coord, w: nat, h: nat) {
    c.x < w && c.y < h
  }

  /** No element of `s` occurs twice. */
  predicate Distinct<T(==)>(s: seq<T>) {
    forall i, j :: 0 <= i < j < |s| ==> s[i] != s[j]
  }

  /** Multiplying by the same natural number keeps the order. */
  lemma MulMono(a: nat, b: nat, d: nat)
    requires a <= b
    ensures a * d <= b * d
  {
  }

  /** Quotient and remainder are the only pair that rebuilds `k` with a remainder below `d`. */
  lemma DivModUnique(k: nat, d: nat, q: nat, r: nat)
    requires r < d
    requires k == q * d + r
    ensures k / d == q && k % d == r
  {
    var q0, r0 := k / d, k % d;
    assert k == q0 * d + r0;
    if q0 > q {
      MulMono(q + 1, q0, d);
    } else if q0 < q {
      MulMono(q0 + 1, q, d);
    }
  }

  /** An index below `n * d` has a quotient by `d` below `n`. */
  lemma DivBelow(k: nat, d: nat, n: nat)
    requires k < n * d
    ensures d > 0 && k / d < n
  {
  }

  /** The column `x`, top to bottom: `(x, 0), ..., (x, h - 1)`. */
  function Column(x: nat, h: nat): seq<Coord> {
    seq(h, y requires 0 <= y < h => Coord(x, y))
  }

  /**
   * Every coordinate of the grid, `x` in the outer loop and `y` in the inner one:
   * the vector that the column-major comprehension of both functions collects,
   * column `0` first.
   */
  function Enumerate(w: nat, h: nat): seq<Coord> {
    if w == 0 then [] else Enumerate(w - 1, h) + Column(w - 1, h)
  }

  /** The enumeration holds exactly `w * h` coordinates, and entry `k` is `(k / h, k % h)`. */
  lemma {:induction false} EnumerateAt(w: nat, h: nat)
    ensures |Enumerate(w, h)| == w * h
    ensures forall k :: 0 <= k < w * h ==> Enumerate(w, h)[k] == Coord(k / h, k % h)
  {
    if w > 0 {
      EnumerateAt(w - 1, h);
      var prefix := Enumerate(w - 1, h);
      assert |prefix| == (w - 1) * h;
      assert (w - 1) * h + h == w * h;
      forall k | 0 <= k < w * h
        ensures Enumerate(w, h)[k] == Coord(k / h, k % h)
      {
        if k >= (w - 1) * h {
          var r := k - (w - 1) * h;
          DivModUnique(k, h, w - 1, r);
          assert Enumerate(w, h)[k] == Column(w - 1, h)[r];
        }
      }
    }
  }

  /** Every entry of the enumeration is a cell of the grid. */
  lemma EnumerateInGrid(w: nat, h: nat)
    ensures forall k :: 0 <= k < |Enumerate(w, h)| ==> InGrid(Enumerate(w, h)[k], w, h)
  {
  }

  /** No cell is enumerated twice. */
  lemma EnumerateDistinct(w: nat, h: nat)
    ensures Distinct(Enumerate(w, h))
  {
    EnumerateAt(w, h);
    var e := Enumerate(w, h);
    forall i, j | 0 <= i < j < |e|
      ensures e[i] != e[j]
    {
      assert i == (i / h) * h + i % h;
      assert j == (j / h) * h + j % h;
    }
  }

  /** Every cell `(x, y)` of the grid is enumerated, at index `x * h + y`. */
  lemma EnumerateCovers(w: nat, h: nat, c: Coord)
    requires InGrid(c, w, h)
    ensures c.x * h + c.y < |Enumerate(w, h)| && Enumerate(w, h)[c.x * h + c.y] == c
  {
    EnumerateAt(w, h);
    MulMono(c.x + 1, w, h);
    DivModUnique(c.x * h + c.y, h, c.x, c.y);
  }

  /**
   * The cell that linear index `idx` stands for during relocation,
   * `(idx % w, idx / w)`: row-major, unlike the enumeration.
   */
  function RasterCoord(idx: nat, w: nat, h: nat): (c: Coord)
    requires idx < w * h
    ensures InGrid(c, w, h)
    ensures c.x + c.y * w == idx
  {
    DivBelow(idx, w, h);
    Coord(idx % w, idx / w)
  }

  /** Every cell of the grid is the raster coordinate of exactly the index `x + y * w`. */
  lemma RasterCoordOnto(c: Coord, w: nat, h: nat)
    requires InGrid(c, w, h)
    ensures c.x + c.y * w < w * h
    ensures RasterCoord(c.x + c.y * w, w, h) == c
  {
    MulMono(c.y + 1, h, w);
    DivModUnique(c.x + c.y * w, w, c.y, c.x);
  }

  /** Distinct indices stand for distinct cells. */
  lemma RasterCoordInjective(i: nat, j: nat, w: nat, h: nat)
    requires i < w * h && j < w * h
    ensures RasterCoord(i, w, h) == RasterCoord(j, w, h) <==> i == j
  {
  }
}
