/**
 * The permutation engine: the key that both directions derive from the image's
 * dimensions and the salt, and the two relocation passes, scramble (the key's
 * cells are read, raster cells written) and unscramble (raster cells read, the
 * key's cells written).
 */
module Engine {
  import opened Grid
  import opened Shuffle

  /** The salt, a 32-bit unsigned integer; `salt as u64` zero-extends it, so it seeds the generator unchanged. */
  type Salt = s: nat | s < 0x1_0000_0000

  /**
   * The permutation key for a `w x h` image: the column-major enumeration of the
   * grid, shuffled by the generator that `seedFromU64` seeds with the salt. Nothing
   * draws from that generator before or during the shuffle but the shuffle itself,
   * so the key depends on nothing but these arguments.
   */
  function Positions(w: nat, h: nat, salt: Salt, seedFromU64: nat -> Rng): seq<Coord> {
    Shuffled(Enumerate(w, h), seedFromU64(salt))
  }

  /** `key` lists every cell of a `w x h` grid exactly once. */
  ghost predicate IsGridPermutation(key: seq<Coord>, w: nat, h: nat) {
    && |key| == w * h
    && (forall i :: 0 <= i < |key| ==> InGrid(key[i], w, h))
    && Distinct(key)
    && (forall c :: InGrid(c, w, h) ==> c in key)
  }

  /** The key is a reordering of the enumeration: it has its `w * h` entries and its multiset. */
  lemma PositionsPermuteEnumeration(w: nat, h: nat, salt: Salt, seedFromU64: nat -> Rng)
    ensures |Positions(w, h, salt, seedFromU64)| == w * h
    ensures multiset(Positions(w, h, salt, seedFromU64)) == multiset(Enumerate(w, h))
  {
    EnumerateAt(w, h);
    ShuffledPermutes(Enumerate(w, h), seedFromU64(salt));
  }

  /** Every entry of the key is a cell of the grid. */
  lemma PositionsInGrid(w: nat, h: nat, salt: Salt, seedFromU64: nat -> Rng)
    ensures forall i :: 0 <= i < |Positions(w, h, salt, seedFromU64)| ==> InGrid(Positions(w, h, salt, seedFromU64)[i], w, h)
  {
    var key := Positions(w, h, salt, seedFromU64);
    EnumerateInGrid(w, h);
    forall i | 0 <= i < |key|
      ensures InGrid(key[i], w, h)
    {
      ShuffledSameElements(Enumerate(w, h), seedFromU64(salt), key[i]);
    }
  }

  /** Every cell of the grid is an entry of the key. */
  lemma PositionsCover(w: nat, h: nat, salt: Salt, seedFromU64: nat -> Rng, c: Coord)
    requires InGrid(c, w, h)
    ensures c in Positions(w, h, salt, seedFromU64)
  {
    EnumerateCovers(w, h, c);
    ShuffledSameElements(Enumerate(w, h), seedFromU64(salt), c);
  }

  /** No cell appears twice in the key. */
  lemma PositionsDistinct(w: nat, h: nat, salt: Salt, seedFromU64: nat -> Rng)
    ensures Distinct(Positions(w, h, salt, seedFromU64))
  {
    EnumerateDistinct(w, h);
    ShuffledKeepsDistinct(Enumerate(w, h), seedFromU64(salt));
  }

  /** Whatever the salt and the generator, the key is a bijection from the indices `[0, w * h)` onto the grid. */
  lemma PositionsIsGridPermutation(w: nat, h: nat, salt: Salt, seedFromU64: nat -> Rng)
    ensures IsGridPermutation(Positions(w, h, salt, seedFromU64), w, h)
  {
    PositionsPermuteEnumeration(w, h, salt, seedFromU64);
    PositionsInGrid(w, h, salt, seedFromU64);
    PositionsDistinct(w, h, salt, seedFromU64);
    forall c | InGrid(c, w, h)
      ensures c in Positions(w, h, salt, seedFromU64)
    {
      PositionsCover(w, h, salt, seedFromU64, c);
    }
  }

  /** A 1 x 1 image has the one-entry key `[(0, 0)]`, whatever the salt. */
  lemma SinglePixelKey(salt: Salt, seedFromU64: nat -> Rng)
    ensures Positions(1, 1, salt, seedFromU64) == [Coord(0, 0)]
  {
  }

  /**
   * Lines 10-13 of both functions: seed the generator from the salt, collect the
   * enumeration into a vector and shuffle it in place.
   */
  method NewPositions(width: nat, height: nat, salt: Salt, seedFromU64: nat -> Rng)
    returns (positions: array<Coord>)
    ensures fresh(positions)
    ensures positions[..] == Positions(width, height, salt, seedFromU64)
  {
    var rng := seedFromU64(salt);
    var all := Enumerate(width, height);
    positions := new Coord[|all|](i requires 0 <= i < |all| => all[i]);
    assert positions[..] == all;
    ShuffleInPlace(positions, rng);
  }

  /** `get_pixel(c.x, c.y)`. */
  function PixelAt<P>(img: array2<P>, c: Coord): P
    reads img
    requires InGrid(c, img.Length0, img.Length1)
  {
    img[c.x, c.y]
  }

  /** `a` and `b` have the same dimensions and the same pixel in every cell. */
  ghost predicate SamePixels<P>(a: array2<P>, b: array2<P>)
    reads a, b
  {
    && a.Length0 == b.Length0 && a.Length1 == b.Length1
    && forall x, y :: 0 <= x < a.Length0 && 0 <= y < a.Length1 ==> a[x, y] == b[x, y]
  }

  /**
   * `dst` is `src` scrambled with `key`: it has the dimensions of `src`, and for
   * every index `idx` the cell `(idx % w, idx / w)` of `dst` holds the pixel of `src`
   * at `key[idx]`.
   */
  ghost predicate Scrambles<P>(src: array2<P>, dst: array2<P>, key: seq<Coord>)
    reads src, dst
  {
    var w, h := src.Length0, src.Length1;
    && dst.Length0 == w && dst.Length1 == h
    && |key| == w * h
    && (forall idx :: 0 <= idx < |key| ==> InGrid(key[idx], w, h))
    && forall idx :: 0 <= idx < |key| ==> PixelAt(dst, RasterCoord(idx, w, h)) == PixelAt(src, key[idx])
  }

  /**
   * `dst` is `src` unscrambled with `key`: it has the dimensions of `src`, and for
   * every index `idx` the cell `key[idx]` of `dst` holds the pixel of `src` at
   * `(idx % w, idx / w)`.
   */
  ghost predicate Unscrambles<P>(src: array2<P>, dst: array2<P>, key: seq<Coord>)
    reads src, dst
  {
    var w, h := src.Length0, src.Length1;
    && dst.Length0 == w && dst.Length1 == h
    && |key| == w * h
    && (forall idx :: 0 <= idx < |key| ==> InGrid(key[idx], w, h))
    && forall idx :: 0 <= idx < |key| ==> PixelAt(dst, key[idx]) == PixelAt(src, RasterCoord(idx, w, h))
  }

  /**
   * `scramble_pixels`: a fresh image of the same dimensions whose raster cell for
   * each index holds the source pixel the key names at that index.
   */
  method ScramblePixels<P(0)>(img: array2<P>, salt: Salt, seedFromU64: nat -> Rng)
    returns (scrambled: array2<P>)
    ensures fresh(scrambled)
    ensures Scrambles(img, scrambled, Positions(img.Length0, img.Length1, salt, seedFromU64))
  {
    var width, height := img.Length0, img.Length1;
    scrambled := new P[width, height];
    var positions := NewPositions(width, height, salt, seedFromU64);
    ghost var key := positions[..];
    PositionsIsGridPermutation(width, height, salt, seedFromU64);
    for idx := 0 to positions.Length
      invariant positions[..] == key
      invariant forall k :: 0 <= k < idx ==> PixelAt(scrambled, RasterCoord(k, width, height)) == PixelAt(img, key[k])
    {
      var newCoord := RasterCoord(idx, width, height);
      var p := positions[idx];
      scrambled[newCoord.x, newCoord.y] := img[p.x, p.y];
    }
  }

  /**
   * `unscramble_pixels`: a fresh image of the same dimensions whose cell named by
   * the key at each index holds the source pixel of that index's raster cell.
   */
  method UnscramblePixels<P(0)>(img: array2<P>, salt: Salt, seedFromU64: nat -> Rng)
    returns (unscrambled: array2<P>)
    ensures fresh(unscrambled)
    ensures Unscrambles(img, unscrambled, Positions(img.Length0, img.Length1, salt, seedFromU64))
  {
    var width, height := img.Length0, img.Length1;
    unscrambled := new P[width, height];
    var positions := NewPositions(width, height, salt, seedFromU64);
    ghost var key := positions[..];
    PositionsIsGridPermutation(width, height, salt, seedFromU64);
    for idx := 0 to positions.Length
      invariant positions[..] == key
      invariant forall k :: 0 <= k < idx ==> PixelAt(unscrambled, key[k]) == PixelAt(img, RasterCoord(k, width, height))
    {
      var newCoord := RasterCoord(idx, width, height);
      var p := positions[idx];
      unscrambled[p.x, p.y] := img[newCoord.x, newCoord.y];
    }
  }

  /** Every cell `(x, y)` of a scrambled image is written, by index `x + y * w`. */
  lemma ScrambledCell<P>(src: array2<P>, dst: array2<P>, key: seq<Coord>, c: Coord)
    requires Scrambles(src, dst, key)
    requires InGrid(c, src.Length0, src.Length1)
    ensures c.x + c.y * src.Length0 < |key|
    ensures PixelAt(dst, c) == PixelAt(src, key[c.x + c.y * src.Length0])
  {
    RasterCoordOnto(c, src.Length0, src.Length1);
  }

  /** With a key that is a grid permutation, every cell of an unscrambled image is written, by exactly one index. */
  lemma UnscrambledCell<P>(src: array2<P>, dst: array2<P>, key: seq<Coord>, c: Coord)
    requires Unscrambles(src, dst, key)
    requires IsGridPermutation(key, src.Length0, src.Length1)
    requires InGrid(c, src.Length0, src.Length1)
    ensures exists idx :: 0 <= idx < |key| && key[idx] == c
    ensures forall idx :: 0 <= idx < |key| && key[idx] == c ==>
              PixelAt(dst, c) == PixelAt(src, RasterCoord(idx, src.Length0, src.Length1))
    ensures forall i, j :: 0 <= i < |key| && 0 <= j < |key| && key[i] == c && key[j] == c ==> i == j
  {
    assert c in key;
  }

  /** Unscrambling with the key a scramble used restores the original, when the key is a grid permutation. */
  lemma UnscrambleInvertsScramble<P>(img: array2<P>, scrambled: array2<P>, restored: array2<P>, key: seq<Coord>)
    requires IsGridPermutation(key, img.Length0, img.Length1)
    requires Scrambles(img, scrambled, key)
    requires Unscrambles(scrambled, restored, key)
    ensures SamePixels(restored, img)
  {
    var w, h := img.Length0, img.Length1;
    forall x, y | 0 <= x < w && 0 <= y < h
      ensures restored[x, y] == img[x, y]
    {
      var c := Coord(x, y);
      assert c in key;
      var idx :| 0 <= idx < |key| && key[idx] == c;
      assert PixelAt(restored, key[idx]) == PixelAt(scrambled, RasterCoord(idx, w, h));
    }
  }

  /** Scrambling with the key an unscramble used restores the original; this direction needs only a well-formed key. */
  lemma ScrambleInvertsUnscramble<P>(img: array2<P>, unscrambled: array2<P>, restored: array2<P>, key: seq<Coord>)
    requires Unscrambles(img, unscrambled, key)
    requires Scrambles(unscrambled, restored, key)
    ensures SamePixels(restored, img)
  {
    var w, h := img.Length0, img.Length1;
    forall x, y | 0 <= x < w && 0 <= y < h
      ensures restored[x, y] == img[x, y]
    {
      var c := Coord(x, y);
      RasterCoordOnto(c, w, h);
      var idx := x + y * w;
      assert PixelAt(restored, RasterCoord(idx, w, h)) == PixelAt(unscrambled, key[idx]);
    }
  }

  /**
   * The round trip: an image scrambled with a salt and then unscrambled with the same
   * salt is the original image, pixel for pixel. Each direction derives its key from
   * the dimensions of its own input, and the scrambled image keeps the original's.
   */
  lemma RoundTrip<P>(img: array2<P>, scrambled: array2<P>, restored: array2<P>, salt: Salt, seedFromU64: nat -> Rng)
    requires Scrambles(img, scrambled, Positions(img.Length0, img.Length1, salt, seedFromU64))
    requires Unscrambles(scrambled, restored, Positions(scrambled.Length0, scrambled.Length1, salt, seedFromU64))
    ensures SamePixels(restored, img)
  {
    PositionsIsGridPermutation(img.Length0, img.Length1, salt, seedFromU64);
    UnscrambleInvertsScramble(img, scrambled, restored, Positions(img.Length0, img.Length1, salt, seedFromU64));
  }

  /** On a 1 x 1 image both directions copy the one pixel to where it was. */
  lemma SinglePixelIdentity<P>(img: array2<P>, out: array2<P>, salt: Salt, seedFromU64: nat -> Rng)
    requires img.Length0 == 1 && img.Length1 == 1
    ensures Scrambles(img, out, Positions(1, 1, salt, seedFromU64)) ==> SamePixels(out, img)
    ensures Unscrambles(img, out, Positions(1, 1, salt, seedFromU64)) ==> SamePixels(out, img)
  {
    SinglePixelKey(salt, seedFromU64);
    var key := [Coord(0, 0)];
    if Scrambles(img, out, key) {
      assert RasterCoord(0, 1, 1) == Coord(0, 0);
      assert PixelAt(out, RasterCoord(0, 1, 1)) == PixelAt(img, key[0]);
    }
    if Unscrambles(img, out, key) {
      assert RasterCoord(0, 1, 1) == Coord(0, 0);
      assert PixelAt(out, key[0]) == PixelAt(img, RasterCoord(0, 1, 1));
    }
  }
}
