# Pixel permutation engine of image-encoder

A Dafny model of the two functions `scramble_pixels` and `unscramble_pixels` of
image-encoder (`src/main.rs`). Both functions take an image and a 32-bit salt. From
the image's width and height and the salt they derive a permutation key:

1. They list every pixel coordinate, with `x` in the outer loop and `y` in the inner one (column-major).
2. They shuffle that list in place with a Fisher-Yates shuffle. The shuffle is driven by a PCG generator seeded with the salt.

Linear index `idx` stands for the row-major cell `(idx % width, idx / width)`.
- Scramble writes the pixel found at `positions[idx]` to that cell.
- Unscramble reads that cell and writes the pixel back to `positions[idx]`.

Both functions compute the key in the same way, so unscrambling with the salt used for
scrambling gives back the original image, pixel for pixel.

The model has three modules:

- `Grid` (`grid.dfy`) holds the coordinates and the enumeration `Enumerate(w, h)`, the
  `flat_map` comprehension as a pure function. It also holds the index-to-cell mapping `RasterCoord`.
  It proves that the enumeration lists each of the `w * h` cells exactly once, in column order.
  It also proves that `RasterCoord` is a bijection from `[0, w * h)` onto the grid.
- `Shuffle` (`shuffle.dfy`) holds the shuffle.
  - The function `Shuffled` specifies it, and the array method `ShuffleInPlace` implements it.
  - The shuffle follows the shape of `SliceRandom::shuffle` in versions 0.7 and 0.8 of the `rand` crate, which fit this codebase's `image` 0.23 era (`image::png::PngEncoder`): for `i` from `len - 1` down to `1`, swap entry `i` with a drawn index `j <= i`.
  - It is proved to preserve the multiset, and with it distinctness, for every generator.
- `Engine` (`engine.dfy`) holds the rest.
  - `Positions(w, h, salt, seedFromU64)` is the key both directions share. `NewPositions` builds it the way lines 10-13 do.
  - The methods `ScramblePixels` and `UnscramblePixels` run the relocation loops over `array2` images into a freshly allocated destination.
  - The predicates `Scrambles` and `Unscrambles` state what those loops leave in the destination.
  - The lemmas prove the round trip, in both orders, and the 1 x 1 boundary case.

The generator is a parameter, since its code is not visible:
- `seedFromU64: nat -> Rng` stands for `Pcg64::seed_from_u64`.
- An `Rng` is the generator seen as a stream of raw draws.
- The index drawn for bound `b` at step `k` is `rng(k) % b`.

The round trip holds for every such generator. It relies only on one fact: scramble and
unscramble seed the generator identically and consume it only through the shuffle. In the
model this holds by construction, because both methods take their key from the one function `Positions`.

Images are `array2<P>`, indexed `[x, y]`. `Length0` is the width and `Length1` is the height.
The pixel type `P` is opaque. It must have a default value, because `ImageBuffer::new` starts from a zero-filled buffer.

The code does not check dimensions. Unscramble derives its key from the dimensions of its
own input, and the model does the same. Widths and heights of 0 are allowed: the key is then empty and nothing is copied.

## Model

| member | source | states |
|---|---|---|
| `Grid.Column` | src/main.rs:11 | definition: the inner `y` loop of the comprehension for one column `x`; its entries are stated through `Grid.EnumerateAt` |
| `Grid.Enumerate` | src/main.rs:11 | definition: the coordinate comprehension, column `0` first; its properties are `Grid.EnumerateAt`, `Grid.EnumerateInGrid`, `Grid.EnumerateDistinct` and `Grid.EnumerateCovers` |
| `Grid.EnumerateAt` | src/main.rs:11 | the enumeration has exactly `w * h` entries, and entry `k` is `(k / h, k % h)`, i.e. `x` is the outer loop and `y` the inner one |
| `Grid.EnumerateInGrid` | src/main.rs:11 | every enumerated coordinate has `x < w` and `y < h` |
| `Grid.EnumerateDistinct` | src/main.rs:11 | no coordinate is enumerated twice |
| `Grid.EnumerateCovers` | src/main.rs:11 | every cell `(x, y)` of the grid is enumerated, at index `x * h + y` |
| `Grid.RasterCoord` | src/main.rs:16 | the cell `(idx % w, idx / w)` of an index below `w * h` lies inside the grid, and `x + y * w` gives the index back |
| `Grid.RasterCoordOnto` | src/main.rs:16 | every cell of the grid is the raster cell of the index `x + y * w` |
| `Grid.RasterCoordInjective` | src/main.rs:15-18 | two indices below `w * h` have the same raster cell exactly when they are equal |
| `Shuffle.Draw` | src/main.rs:13 | the index drawn for bound `b` lies in `[0, b)` |
| `Shuffle.Swap` | src/main.rs:13 | a swap of `i` and `j` exchanges those two entries and leaves every other entry and the length as they were |
| `Shuffle.ShuffleFrom` | src/main.rs:13 | definition: the descending swap steps `i` down to `1`, step `i` using the `(len - 1 - i)`-th draw; its properties are `Shuffle.ShuffleFromPermutes` |
| `Shuffle.Shuffled` | src/main.rs:30 | definition: the whole shuffle, leaving empty and one-entry vectors as they are; its properties are `Shuffle.ShuffledPermutes`, `Shuffle.ShuffledKeepsDistinct`, `Shuffle.ShuffledSameElements`, `Shuffle.ShuffledSingleton`, and `Shuffle.ShuffleInPlace` is proved equal to it |
| `Shuffle.SwapPermutes` | src/main.rs:13 | a swap keeps the multiset, and keeps a sequence without repeats free of repeats |
| `Shuffle.ShuffleFromPermutes` | src/main.rs:13 | the remaining Fisher-Yates steps `i` down to `1` keep the length and the multiset, and keep distinct entries distinct |
| `Shuffle.ShuffledPermutes` | src/main.rs:13 | whatever the generator yields, the shuffled vector has the length and the multiset of the original |
| `Shuffle.ShuffledKeepsDistinct` | src/main.rs:13 | whatever the generator yields, shuffling a vector without repeats leaves none |
| `Shuffle.ShuffledSameElements` | src/main.rs:13 | an element is in the shuffled vector exactly when it is in the original |
| `Shuffle.ShuffledSingleton` | src/main.rs:13 | a one-entry vector is left unchanged by the shuffle |
| `Shuffle.SwapInPlace` | src/main.rs:13 | the array afterwards is its old contents with entries `i` and `j` exchanged |
| `Shuffle.ShuffleInPlace` | src/main.rs:13 | the array afterwards is `Shuffled` of its old contents, and has the same multiset |
| `Engine.Positions` | src/main.rs:27-30 | definition: the key both functions build, the enumeration shuffled by the generator seeded with the salt; its properties are `Engine.PositionsIsGridPermutation` and the lemmas it gathers, and `Engine.NewPositions` is proved equal to it |
| `Engine.PositionsPermuteEnumeration` | src/main.rs:10-13 | the key has `w * h` entries and the multiset of the enumeration |
| `Engine.PositionsInGrid` | src/main.rs:10-13 | every key entry is a cell of the grid |
| `Engine.PositionsCover` | src/main.rs:10-13 | every cell of the grid is a key entry |
| `Engine.PositionsDistinct` | src/main.rs:10-13 | no cell is a key entry twice |
| `Engine.PositionsIsGridPermutation` | src/main.rs:10-13 | for every salt and generator the key is a bijection from `[0, w * h)` onto the grid |
| `Engine.SinglePixelKey` | src/main.rs:11 | the key of a 1 x 1 image is `[(0, 0)]` for every salt |
| `Engine.NewPositions` | src/main.rs:10-13 | the freshly built and shuffled vector equals the shared key `Positions(width, height, salt, seedFromU64)` |
| `Engine.PixelAt` | src/main.rs:17 | definition: `get_pixel` at a cell inside the image, with the pixel kept opaque |
| `Engine.ScramblePixels` | src/main.rs:7-22 | the result is fresh and has the input's dimensions; for every index, cell `(idx % w, idx / w)` holds the input pixel at `positions[idx]` |
| `Engine.UnscramblePixels` | src/main.rs:24-39 | the result is fresh and has the input's dimensions; for every index, cell `positions[idx]` holds the input pixel at `(idx % w, idx / w)` |
| `Engine.ScrambledCell` | src/main.rs:15-19 | no cell of a scrambled image is left unwritten: cell `(x, y)` holds the source pixel at `positions[x + y * w]` |
| `Engine.UnscrambledCell` | src/main.rs:32-36 | with a bijective key, every cell of an unscrambled image is the target of exactly one index, and holds the source pixel of that index's raster cell |
| `Engine.UnscrambleInvertsScramble` | src/main.rs:15-35 | for any bijective key, unscrambling a scrambled image with the same key restores every pixel and the dimensions |
| `Engine.ScrambleInvertsUnscramble` | src/main.rs:15-35 | for any well-formed key, scrambling an unscrambled image with the same key restores every pixel and the dimensions |
| `Engine.RoundTrip` | src/main.rs:7-39 | `unscramble_pixels(scramble_pixels(img, salt), salt)` equals `img` pixel for pixel, each side deriving its key from its own input's dimensions |
| `Engine.SinglePixelIdentity` | src/main.rs:15-35 | on a 1 x 1 image, scramble and unscramble each leave the one pixel where it was |

## Left out

- `main` (src/main.rs:54-75) is left out. It parses arguments, reads stdin and writes files, and its salt `123` and file names are hard-coded; none of that is algorithmic.
- `encode_image` and `decode_image` (src/main.rs:41-52) are left out. They wrap the PNG codec of the `image` crate, which is foreign library code.
- The generator is not modelled. `Pcg64::seed_from_u64` becomes the parameter `seedFromU64`.
- Shuffle.Draw: the library's `gen_index` uses rejection sampling, which may consume a varying number of raw outputs per draw. The model instead reduces the `k`-th raw draw modulo the bound. No proved property depends on how the index is drawn.
- The model proves no golden shuffle output for a particular seed, and no statement that different salts give different keys with high probability. Both depend on the generator's internals.
- Pixel format conversion is left out. `get_pixel` converts to RGBA and the result is wrapped as `ImageRgba8`; in the model pixels are opaque values copied unchanged. So the round trip restores the input exactly only when it is already RGBA8; any other format comes back as its RGBA8 conversion.
- Integers are unbounded. `idx as u32` would truncate indices of images with more than 2^32 pixels; the model assumes `width * height <= 2^32` implicitly.
- Multiset of pixels: the model does not state that the output holds the same collection of pixels as the input. The cell-by-cell lemmas and the inverse lemmas say more.
- Dimension-mismatch checks are left out because the code has none. Widths and heights of 0 are handled, not excluded: `idx % width` is never reached then, because the key is empty.
