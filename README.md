# Geohash encoding and nearby search

A model of the geohash core of `geohash_main.py`:

- **Encoding.** `encode` turns a latitude and longitude into a geohash. It bisects the world box `[-90, 90] x [-180, 180]` 5 bits per character. Even bits halve longitude and odd bits halve latitude. Each group of five bits becomes a character of the 32-letter alphabet `0123456789bcdefghjkmnpqrstuvwxyz`.
- **Automatic precision.** Without a precision, `encode` tries 1 to 12 characters. It returns the first geohash that decodes exactly back to the point, or the 12-character one.
- **Decoding.** `bounds` replays the bits of a geohash to get its cell, and `decode` returns the cell's centre.
- **The circle test.** `in_circle_check` tests whether a point lies within a radius of a centre.
- **Nearby geohashes.** `get_nearby_geohashes` lays a grid of half-cell steps over the circle around a point and mirrors each in-circle offset into the four quadrants. It encodes every resulting point and returns the distinct geohashes, other than the point's own, in sorted order.
- **Nearby locations.** `get_nearby_locations` keeps the records of a list whose geohash is nearby, optionally only those of one type.

Modules:

| file | module | contents |
|---|---|---|
| `outcome.dfy` | `Outcome` | `Option`, `Result` and the two error kinds |
| `seqs.dfy` | `Seqs` | small generic sequence lemmas |
| `codec.dfy` | `Codec` | `encode`, `bounds`, `decode` |
| `order.dfy` | `Order` | Python's string order and `sorted(list(set(...)))` |
| `nearby.dfy` | `Nearby` | `in_circle_check`, `get_nearby_geohashes` |
| `locations.dfy` | `Locations` | `get_nearby_locations` |
| `demo.dfy` | `Demo` | the example point of the command-line entry point and its geohash `9q9hvu` |

Each operation is specified twice:

- **A specification function.** For example, `Geohash`, `PointCell` and `CharIndex` define a point's geohash one bisection at a time. `CellAt` and `Cell` define the box of a geohash from its characters' bits. `NearbySet` and `Select` define what the search returns.
- **A method.** The method follows the source's loops, and its `ensures` ties its result to the specification function.

The lemmas then prove what the source promises about those functions:

- a point lies in the cell of its own geohash;
- a point has geohash `h` exactly when it lies in `h`'s half-open cell;
- re-encoding a decoded centre gives the geohash back;
- longer geohashes refine shorter ones;
- a cell after `n` bisections is `360 / 2^((n + 1) / 2)` degrees wide and `180 / 2^(n / 2)` high, so decoding a point's geohash returns the point to within half a cell;
- the example point (37.422131, -122.084801) encodes to `9q9hvu` at six characters, and `9q9hvu` has the cell the algorithm promises;
- the automatic precision is the shortest that round-trips;
- every point the search visits comes from an offset within the radius; every grid offset in the circle whose height and width steps are each strictly below the radius is visited; and with a positive radius the offset (0, 0) is always visited;
- the search result is sorted, has no repeats, and contains exactly the nearby geohashes;
- the location filter keeps exactly the matching records, in their order and with their multiplicities.

Python floats are modelled as exact reals (`real`).

## Model

| member | source | states |
|---|---|---|
| Codec.Base32Member | geohash_main.py:9 | a character is in the alphabet exactly when it is in one of the ranges `IsBase32` lists |
| Codec.Base32Distinct | geohash_main.py:9 | the alphabet has no repeated character, so `index` and `[]` are inverse |
| Codec.DigitValueIndex | geohash_main.py:94 | for an alphabet character, `DigitValue` is `BASE32.index`: its first and only position in the alphabet |
| Codec.DigitValueOf | geohash_main.py:70 | the character at position `v < 32` is in the alphabet and its value is `v` |
| Codec.IndexIn | geohash_main.py:94 | `BASE32.index(c)`: a position holding `c`, with no earlier position holding it |
| Codec.MaskAnd | geohash_main.py:97-103 | for a value below 32, `char_idx & (1 << k)` on five-bit vectors is non-zero exactly when `(char_idx / 2^k) % 2 == 1` |
| Codec.MaskBit | geohash_main.py:97-103 | the division test `(v / 2^k) % 2 == 1` holds exactly when bit `k` of `v` is set |
| Codec.ReplayStep | geohash_main.py:97-112 | one turn of the replay loop: the masked bit of the character chooses which half of the box `bounds` keeps |
| Codec.EncodeFixed | geohash_main.py:37-76 | the bisection loop returns `Geohash(lat, lon, n)`: `n` is the precision, or 0 (the empty string) when the precision is negative |
| Codec.EncodeStep | geohash_main.py:48-74 | one loop turn: the midpoint test gives the point's next bit, the kept half is the point's next box, `idx` doubles and adds the bit, and after five bits the character is appended |
| Codec.GeohashValid | geohash_main.py:70 | every character of an encoding is in the alphabet |
| Codec.GeohashAt | geohash_main.py:69-72 | character `i` of a geohash is the alphabet letter of bits `5i` to `5i+4` |
| Codec.GeohashPrefix | geohash_main.py:47-74 | the geohash at a lower precision is a prefix of the one at a higher precision |
| Codec.PointInOwnCell | geohash_main.py:48-63 | a point in the world stays inside (closed) every box of its own bisection |
| Codec.PointInOwnCellHalfOpen | geohash_main.py:48-63 | below the world's north and east edges, the point stays in each box with the north and east edges left out (the `>=` midpoint test) |
| Codec.CharIndexBit | geohash_main.py:51-54 | bit `j` from the top of the accumulated `idx` is the point's bit `5i + j` |
| Codec.Bounds | geohash_main.py:83-114 | the replay loop returns `Cell(h)`, and a character outside the alphabet gives `Err(InvalidCharacter)` |
| Codec.Decode | geohash_main.py:117-131 | `decode` returns the centre of `Cell(h)`, and passes an invalid character's error on |
| Codec.ReplayOfGeohash | geohash_main.py:93-112 | replaying the bits of a point's geohash retraces the point's own bisections box by box |
| Codec.CellOfGeohash | geohash_main.py:83-114 | the cell of a point's geohash at precision `p` is the point's box after `5p` bisections |
| Codec.CellContainsPoint | geohash_main.py:83-114 | for a point in the world, the cell of its geohash is defined and contains the point |
| Codec.CellAtProper | geohash_main.py:102-112 | every box on the way has a strictly smaller south-west than north-east corner |
| Codec.CellAtNested | geohash_main.py:102-112 | the final box lies inside every intermediate box |
| Codec.MemberCells | geohash_main.py:93-112 | a point in the half-open cell of `h` is bisected exactly as the bits of `h` say |
| Codec.MemberBit | geohash_main.py:103-111 | for a point in the half-open cell of `h`, its bit `5i + j` is bit `j` of `h[i]` |
| Codec.MemberCharIndex | geohash_main.py:94-97 | for a point in the half-open cell of `h`, the accumulated `idx` after `j` bits is the top `j` bits of `h[i]`'s value |
| Codec.MemberGeohash | geohash_main.py:47-74 | a point in the half-open cell of `h` encodes, at any length up to the length of `h`, to that prefix of `h` |
| Codec.GeohashIffInCell | geohash_main.py:47-114 | below the north and east edges of the world, a point encodes to `h` exactly when it lies in `h`'s half-open cell (both directions) |
| Codec.GeohashOfDecoded | geohash_main.py:117-131 | encoding the decoded centre at the same length gives `h` back |
| Codec.CellAtOfPrefix | geohash_main.py:93-112 | the boxes of the first `k` characters do not depend on the later characters |
| Codec.CellRefines | geohash_main.py:83-114 | the cell of `h` is proper and lies inside the cell of every prefix of `h` |
| Codec.LonBitParity | geohash_main.py:39-65 | the flag that starts `True` and is toggled once per bit is set exactly on even bits |
| Codec.BisectSize | geohash_main.py:48-63 | one bisection halves the box along its axis, whichever half is kept |
| Codec.PointCellSize | geohash_main.py:43-74 | after `n` bisections the point's box is `360 / 2^((n + 1) / 2)` degrees wide and `180 / 2^(n / 2)` high |
| Codec.CellSize | geohash_main.py:89-112 | the box after `i` characters and `j` bits of a geohash has the size of `5i + j` bisections |
| Codec.CentreNear | geohash_main.py:127-128 | a point in a box of that size is within half the box's height and width of its centre |
| Codec.DecodeNear | geohash_main.py:117-131 | decoding a world point's geohash at precision `p` gives a point within `90 / 2^(5p / 2)` degrees of latitude and `180 / 2^((5p + 1) / 2)` of longitude of it |
| Codec.FirstPrecisionShape | geohash_main.py:19-24 | the precision search returns the first passing precision from `p`, or 12 when none passes |
| Codec.FirstPrecisionAt | geohash_main.py:19-23 | a passing precision preceded only by failing ones is the one the search returns |
| Codec.AutoGeohashShape | geohash_main.py:18-24 | without a precision, the result has 1 to 12 characters. No shorter length decodes exactly to the point, and the result does, or else it has 12 characters and no length from 1 to 12 does |
| Codec.AutoFound | geohash_main.py:19-23 | the first round-tripping precision is the one chosen |
| Codec.AutoNotFound | geohash_main.py:24 | when no precision round-trips, the 12-character geohash is returned |
| Codec.PrefixMissesCentre | geohash_main.py:20-22 | no proper prefix of `h` decodes exactly to the centre of `h` |
| Codec.AutoGeohashOfCentre | geohash_main.py:18-24 | encoding the centre of a 1-to-12-character cell without a precision gives that cell's geohash |
| Codec.TryPrecision | geohash_main.py:20-22 | one attempt: the geohash at `q`, and whether it decodes to exactly the point |
| Codec.EncodeAuto | geohash_main.py:18-24 | the loop over precisions 1 to 12 returns `AutoGeohash` |
| Codec.Encode | geohash_main.py:14-76 | a given precision gives `Geohash` at that length; none gives `AutoGeohash` |
| Order.BelowIrreflexive | geohash_main.py:202 | no string sorts before itself |
| Order.BelowTransitive | geohash_main.py:202 | the string order is transitive |
| Order.BelowTotal | geohash_main.py:202 | any two distinct strings are ordered one way or the other |
| Order.BelowAsymmetric | geohash_main.py:202 | the string order is asymmetric |
| Order.Below | geohash_main.py:202 | Python's `<` on strings: a proper prefix sorts first, and no string sorts before one of its prefixes |
| Order.Insert | geohash_main.py:202 | inserting into a strictly ascending list keeps it strictly ascending and adds exactly the new element |
| Order.SortedDistinct | geohash_main.py:202 | `sorted(list(set(xs)))` is strictly ascending and holds exactly the elements of `xs` |
| Order.SortedUnique | geohash_main.py:202 | two strictly ascending lists with the same elements are equal, so the result is the one Python's sort gives |
| Order.DropFirst | geohash_main.py:202 | the tail of a strictly ascending list is strictly ascending and lacks exactly the head |
| Order.SmallestFirst | geohash_main.py:202 | the head of a strictly ascending list is its least element |
| Nearby.InCircle | geohash_main.py:146-149 | the centre itself always passes, whatever the radius; a point that passes is within the radius along each axis |
| Nearby.InCircleMirror | geohash_main.py:146-149 | an offset in the circle about the origin stays in it when mirrored in either axis or both |
| Nearby.TableIndex | geohash_main.py:174-175 | `table[precision - 1]` exists exactly for precisions -11 to 12, and is entry `(precision - 1) mod 12`; otherwise the lookup fails |
| Nearby.Ceil | geohash_main.py:180-181 | `math.ceil(x)` is the integer `n` with `x <= n < x + 1` |
| Nearby.SearchGrid | geohash_main.py:174-175 | both half-cell steps are positive |
| Nearby.MovedMember | geohash_main.py:197-199 | a point is appended exactly when it is the converted point of one of the pairs |
| Nearby.CandidatesMember | geohash_main.py:193-197 | an offset contributes a pair exactly when it lies in the circle and the pair is one of its four mirrored forms |
| Nearby.RowsSource | geohash_main.py:185-197 | every visited pair comes from a grid offset `(i, j)` with `i < lat_moves` and `j < lon_moves` |
| Nearby.InRows | geohash_main.py:185-197 | every pair of every such grid offset is visited |
| Nearby.GridPairsWithinRadius | geohash_main.py:193-197 | every visited pair lies within the radius of the origin |
| Nearby.GridWithinRadius | geohash_main.py:184-199 | every point in `points` is the converted point of an offset pair within the radius |
| Nearby.GridCovers | geohash_main.py:180-199 | every grid offset of `i` height steps and `j` width steps that lies in the circle is visited in all four mirrored forms (each step below the radius) |
| Nearby.CentreVisited | geohash_main.py:184-199 | with a positive radius the offset (0, 0) is visited, so the point converted with no offset is among the points |
| Nearby.NoRadiusNoPoints | geohash_main.py:180-185 | with a radius of zero or below, `range(math.ceil(...))` is empty and no point is visited |
| Nearby.StepsBelow | geohash_main.py:180-187 | an offset of `i` steps shorter than the radius is within `range(math.ceil(radius / step))` |
| Nearby.EncodingsMember | geohash_main.py:201 | a geohash is in the comprehension exactly when it differs from the original and is the encoding of some point |
| Nearby.NearbyMember | geohash_main.py:168-203 | a geohash is returned exactly when it is the encoding of a visited point and not the point's own geohash |
| Nearby.NearbyShape | geohash_main.py:168-203 | every returned geohash has the requested length, uses only alphabet characters, and differs from the point's own geohash |
| Nearby.NearbyNonPositive | geohash_main.py:169-201 | at precision zero or below every encoding is empty like the original, so nothing is returned |
| Nearby.NearbyNoRadius | geohash_main.py:168-203 | with a radius of zero or below, nothing is returned |
| Nearby.CollectRow | geohash_main.py:187-199 | one pass of the inner loop appends the points of the row's in-circle offsets, in order |
| Nearby.CollectPoints | geohash_main.py:184-199 | the nested loops produce exactly the points of the grid's in-circle offsets, in row-major order |
| Nearby.EncodeAll | geohash_main.py:201 | the comprehension's list: each point's encoding that differs from the original, in order |
| Nearby.NearbyGeohashes | geohash_main.py:168-203 | a precision outside -11..12 fails. Otherwise the result is strictly sorted and its elements are exactly `NearbySet` |
| Locations.SelectSubsequence | geohash_main.py:294-297 | the result keeps the records' original order: it is a subsequence of the input |
| Locations.SelectCount | geohash_main.py:294-297 | each kept record appears as often as in the input; any other appears zero times |
| Locations.SelectMember | geohash_main.py:294-297 | a record is in the result exactly when it is in the input, its geohash is nearby, and its type matches if one is asked for |
| Locations.SelectAll | geohash_main.py:294-297 | with no type asked for and every geohash nearby, the whole input is returned |
| Locations.NothingNearby | geohash_main.py:290-297 | at precision zero or below, no record is returned |
| Locations.FilterLocations | geohash_main.py:293-299 | the filtering loop returns `Select` over the nearby geohashes |
| Locations.NearbyLocations | geohash_main.py:281-299 | a failing table lookup is passed on. Otherwise the result is `Select` over `NearbySet` |
| Demo.DemoGeohash | geohash_main.py:384-386 | `encode(37.422131, -122.084801, 6)` is `9q9hvu` |
| Demo.DemoCell | geohash_main.py:83-114 | `bounds("9q9hvu")` has south-west corner (37.41943359375, -122.091064453125) and north-east corner (37.4249267578125, -122.080078125), and the example point lies strictly inside |
| Demo.DemoDecode | geohash_main.py:387 | `decode("9q9hvu")` is (37.42218017578125, -122.0855712890625), and encoding it at six characters gives `9q9hvu` again |

## Left out

- `haversine_distance` and `geohash_distance` (geohash_main.py:210-235): trigonometry on floats and console output, outside the geohash core.
- `get_centroid` (geohash_main.py:152-156): nothing in the core calls it.
- `convert_to_latlon` (geohash_main.py:159-164): needs trigonometry. The search takes it as a parameter `convert` of type `Nearby.Convert`, and the lemmas hold for every such function.
- `generate_locations_data` and `populate_data.py`: random test data, which is I/O. The model takes the location list as input.
- The printing and display functions and the command-line entry point: console I/O.
- The type check in `encode` (geohash_main.py:29-30): the model's types already guarantee real coordinates and an integer precision.
- Float arithmetic: coordinates, midpoints and distances are exact reals. So the model's exact-equality round-trip test in the automatic precision search is idealised. So are the table values in metres and `math.ceil` of their quotients.
- `math.pow` is modelled as multiplication.
- Python's unbounded `char_idx & mask` is computed on five-bit vectors (`bv5`), which is exact because `char_idx` is below 32.
- `BASE32.index` raising `ValueError` is modelled as `Err(InvalidCharacter)`. The `IndexError` of a precision outside -11..12 in `get_nearby_geohashes` is modelled as `Err(PrecisionOutOfRange)`. Python exceptions are not modelled otherwise.
- Calling `get_nearby_geohashes` without a precision raises a `TypeError` at the table lookup. The model's precision there is always an integer.
- The comprehension at geohash_main.py:201 encodes each point twice. The model encodes it once: the two encodings are equal.
- `sorted(list(set(...)))` is modelled by insertion into a strictly ascending list. `Order.SortedUnique` shows that any strictly ascending list of the same elements is the same list, so it agrees with Python's sort.
- The offsets are placed as written: the pair `(x_cen, y_cen)` is passed to `convert_to_latlon` as `(y_cen, x_cen)`, so the width step moves north and the height step moves east. The lemmas are stated for the search as written.
- Nearby.GridCovers: it assumes each step is strictly below the radius. An offset in the circle whose step equals the radius exactly (`height * i == radius`) is not visited, because `range(math.ceil(radius / height))` stops before it. The lemma says nothing about such an offset.
