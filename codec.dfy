/**
 * The geohash codec: a coordinate is turned into a string by bisecting the
 * world box, longitude first, one bit per bisection, five bits per base-32
 * character, most significant bit first.
 *
 * The specification counts bits: `PointCell(lat, lon, n)` is the box a point
 * is narrowed to after `n` bisections and `CharIndex` accumulates a
 * character's five bits, as `encode` does; `CellAt(h, i, j)` is the box after
 * the first `i` characters of `h` and `j` bits of the next, as `bounds` does.
 * The methods `EncodeFixed`, `Encode`, `Bounds` and `Decode` are the
 * step-by-step procedures, proved equal to these functions.
 */
module Codec {
  import opened Outcome
  import opened Seqs

  datatype Coord = Coord(lat: real, lon: real)

  /** A cell, given by its south-west and north-east corners. */
  datatype Box = Box(sw: Coord, ne: Coord)

  const Base32: string := "0123456789bcdefghjkmnpqrstuvwxyz"

  const World: Box := Box(Coord(-90.0, -180.0), Coord(90.0, 180.0))

  /* ---------------------------------------------------------------------- */
  /* Alphabet                                                               */
  /* ---------------------------------------------------------------------- */

  /** Membership in `Base32`, written as ranges of characters. */
  predicate IsBase32(c: char) {
    ('0' <= c <= '9') || ('b' <= c <= 'h') || c == 'j' || c == 'k' ||
    c == 'm' || c == 'n' || ('p' <= c <= 'z')
  }

  lemma Base32Member(c: char)
    ensures IsBase32(c) <==> c in Base32
  {
  }

  lemma Base32Distinct()
    ensures forall i, j | 0 <= i < j < |Base32| :: Base32[i] != Base32[j]
  {
  }

  predicate ValidGeohash(h: string) {
    forall i | 0 <= i < |h| :: IsBase32(h[i])
  }

  /** The first `n` characters of `h` exist and are in the alphabet. */
  predicate ValidPrefix(h: string, n: nat) {
    n <= |h| && forall k | 0 <= k < n :: IsBase32(h[k])
  }

  /** First position of `c` in `s`, as Python's `str.index`. */
  function IndexIn(s: string, c: char): (i: nat)
    requires c in s
    ensures i < |s| && s[i] == c
    ensures forall k | 0 <= k < i :: s[k] != c
  {
    if s[0] == c then 0 else 1 + IndexIn(s[1..], c)
  }

  /** The five-bit value of a character: its position in `Base32`. */
  function DigitValue(c: char): (v: nat)
    requires IsBase32(c)
    ensures v < 32
  {
    if c <= '9' then c as int - '0' as int
    else if c <= 'h' then 10 + (c as int - 'b' as int)
    else if c == 'j' then 17
    else if c == 'k' then 18
    else if c == 'm' then 19
    else if c == 'n' then 20
    else 21 + (c as int - 'p' as int)
  }

  /** `BASE32.index(c)` as the five-bit value the source masks. */
  function Digit(c: char): bv5
    requires IsBase32(c)
  {
    DigitValue(c) as bv5
  }

  /** The character at position `DigitValue(c)` of `Base32` is `c`. */
  lemma DigitValueAt(c: char)
    requires IsBase32(c)
    ensures Base32[DigitValue(c)] == c
  {
  }

  /** In a string without repeated characters, `index` finds the one position holding `c`. */
  lemma IndexInAt(s: string, c: char, k: nat)
    requires k < |s| && s[k] == c
    requires forall i, j | 0 <= i < j < |s| :: s[i] != s[j]
    ensures c in s && IndexIn(s, c) == k
  {
  }

  /** `DigitValue` is `BASE32.index`: the position of the character. */
  lemma DigitValueIndex(c: char)
    requires IsBase32(c)
    ensures c in Base32 && DigitValue(c) == IndexIn(Base32, c) && Base32[DigitValue(c)] == c
  {
    DigitValueAt(c);
    Base32Distinct();
    IndexInAt(Base32, c, DigitValue(c));
  }

  /** Looking up the character at position `v` gives back `v`. */
  lemma DigitValueOf(v: nat)
    requires v < |Base32|
    ensures IsBase32(Base32[v]) && DigitValue(Base32[v]) == v
  {
    Base32Member(Base32[v]);
    Base32Distinct();
  }

  /* ---------------------------------------------------------------------- */
  /* Bits                                                                   */
  /* ---------------------------------------------------------------------- */

  function Pow2(n: nat): (r: nat)
    ensures r >= 1
  {
    if n == 0 then 1 else 2 * Pow2(n - 1)
  }

  /** Bit `k` of `v`, counted from the least significant. */
  predicate BitOf(v: nat, k: nat) {
    if k == 0 then v % 2 == 1 else BitOf(v / 2, k - 1)
  }

  /** `v` shifted right by `k` bits. */
  function Shift(v: nat, k: nat): nat {
    if k == 0 then v else Shift(v / 2, k - 1)
  }

  /** Bit `j` (0 = most significant) of the five bits of character `c`. */
  predicate CharBit(c: char, j: nat)
    requires IsBase32(c) && j < 5
  {
    BitOf(DigitValue(c), 4 - j)
  }

  lemma {:induction false} MulAtLeast(d: nat, k: nat)
    requires k >= 1
    ensures d * k >= d
  {
    if k > 1 {
      MulAtLeast(d, k - 1);
      assert d * k == d * (k - 1) + d;
    }
  }

  lemma DivUnique(v: nat, d: nat, s: nat, r: nat)
    requires d > 0 && v == d * s + r && r < d
    ensures v / d == s
  {
    var s', r' := v / d, v % d;
    assert v == d * s' + r';
    if s' > s {
      assert d * s' == d * s + d * (s' - s);
      MulAtLeast(d, s' - s);
    } else if s' < s {
      assert d * s == d * s' + d * (s - s');
      MulAtLeast(d, s - s');
    }
  }

  /** Halving and then dividing by `a` is dividing by `2 * a`. */
  lemma HalveThenDiv(v: nat, a: nat)
    requires a > 0
    ensures (v / 2) / a == v / (2 * a)
  {
    var s, t := (v / 2) / a, (v / 2) % a;
    assert v / 2 == a * s + t;
    assert v == 2 * (v / 2) + v % 2;
    assert 2 * (a * s + t) == (2 * a) * s + 2 * t;
    assert v == (2 * a) * s + (2 * t + v % 2);
    DivUnique(v, 2 * a, s, 2 * t + v % 2);
  }

  /** The division test `(v / 2^k) % 2 == 1` reads bit `k` of `v`. */
  lemma {:induction false} MaskBit(v: nat, k: nat)
    ensures (v / Pow2(k)) % 2 == 1 <==> BitOf(v, k)
  {
    if k > 0 {
      HalveThenDiv(v, Pow2(k - 1));
      MaskBit(v / 2, k - 1);
    }
  }

  /** `1 << k` among five bits. */
  function Bit(k: nat): bv5
    requires k < 5
  {
    1 << k
  }

  /** For a five-bit value, the source's test `v & (1 << k)` is the division test of `MaskBit`. */
  lemma MaskAnd(v: nat, k: nat)
    requires v < 32 && k < 5
    ensures (v as bv5) & Bit(k) != 0 <==> (v / Pow2(k)) % 2 == 1
  {
    var m := Bit(k);
    if k == 0 {
      assert m == 1 && Pow2(k) == 1;
    } else if k == 1 {
      assert m == 2 && Pow2(k) == 2;
    } else if k == 2 {
      assert m == 4 && Pow2(k) == 4;
    } else if k == 3 {
      assert m == 8 && Pow2(k) == 8;
    } else {
      assert m == 16 && Pow2(k) == 16;
    }
  }

  /** Shifting a `k`-bit value by `k` bits leaves nothing. */
  lemma {:induction false} ShiftAll(v: nat, k: nat)
    requires v < Pow2(k)
    ensures Shift(v, k) == 0
  {
    if k > 0 {
      ShiftAll(v / 2, k - 1);
    }
  }

  /** Shifting by `k` is twice shifting by `k + 1`, plus bit `k`. */
  lemma {:induction false} ShiftStep(v: nat, k: nat)
    ensures Shift(v, k) == 2 * Shift(v, k + 1) + (if BitOf(v, k) then 1 else 0)
  {
    if k > 0 {
      ShiftStep(v / 2, k - 1);
    }
  }

  /* ---------------------------------------------------------------------- */
  /* Bisection                                                              */
  /* ---------------------------------------------------------------------- */

  /** Bit `k` of a geohash bisects longitude when `k` is even, latitude when odd. */
  predicate IsLonBit(k: nat) {
    if k == 0 then true else !IsLonBit(k - 1)
  }

  function MidLon(b: Box): real { (b.sw.lon + b.ne.lon) / 2.0 }

  function MidLat(b: Box): real { (b.sw.lat + b.ne.lat) / 2.0 }

  /** Keeps the upper half (`bit`) or the lower half of `b` along one axis. */
  function Bisect(b: Box, isLon: bool, bit: bool): Box {
    if isLon then
      if bit then b.(sw := b.sw.(lon := MidLon(b))) else b.(ne := b.ne.(lon := MidLon(b)))
    else
      if bit then b.(sw := b.sw.(lat := MidLat(b))) else b.(ne := b.ne.(lat := MidLat(b)))
  }

  /** The bit a point produces in box `b`: it lies at or above the midpoint. */
  predicate Above(b: Box, isLon: bool, lat: real, lon: real) {
    if isLon then lon >= MidLon(b) else lat >= MidLat(b)
  }

  predicate Proper(b: Box) {
    b.sw.lat < b.ne.lat && b.sw.lon < b.ne.lon
  }

  predicate Inside(inner: Box, outer: Box) {
    outer.sw.lat <= inner.sw.lat && inner.ne.lat <= outer.ne.lat &&
    outer.sw.lon <= inner.sw.lon && inner.ne.lon <= outer.ne.lon
  }

  /** Closed containment, as the source's bounding box promises it. */
  predicate Contains(b: Box, lat: real, lon: real) {
    b.sw.lat <= lat <= b.ne.lat && b.sw.lon <= lon <= b.ne.lon
  }

  /** Containment in the cell with its north and east edges left out. */
  predicate HalfOpen(b: Box, lat: real, lon: real) {
    b.sw.lat <= lat < b.ne.lat && b.sw.lon <= lon < b.ne.lon
  }

  predicate InWorld(lat: real, lon: real) {
    -90.0 <= lat <= 90.0 && -180.0 <= lon <= 180.0
  }

  function Centre(b: Box): Coord {
    Coord(MidLat(b), MidLon(b))
  }

  /* ---------------------------------------------------------------------- */
  /* Encoding, as functions                                                 */
  /* ---------------------------------------------------------------------- */

  /** The box a point is narrowed to after `n` bisections. */
  function PointCell(lat: real, lon: real, n: nat): Box {
    if n == 0 then World
    else
      var b := PointCell(lat, lon, n - 1);
      Bisect(b, IsLonBit(n - 1), Above(b, IsLonBit(n - 1), lat, lon))
  }

  /** Bit `k` of a point's geohash. */
  predicate PointBit(lat: real, lon: real, k: nat) {
    Above(PointCell(lat, lon, k), IsLonBit(k), lat, lon)
  }

  /** The value of the first `j` bits of character `i` of a point's geohash. */
  function CharIndex(lat: real, lon: real, i: nat, j: nat): (v: nat)
    ensures v < Pow2(j)
  {
    if j == 0 then 0
    else 2 * CharIndex(lat, lon, i, j - 1) + (if PointBit(lat, lon, 5 * i + j - 1) then 1 else 0)
  }

  /** The geohash of a point at `precision` characters. */
  function Geohash(lat: real, lon: real, precision: nat): (h: string)
    ensures |h| == precision
  {
    if precision == 0 then ""
    else Geohash(lat, lon, precision - 1) + [Base32[CharIndex(lat, lon, precision - 1, 5)]]
  }

  /** The length `encode` produces for a precision: a negative one gives the empty string. */
  function HashLength(precision: int): (n: nat)
    ensures precision >= 0 ==> n == precision
    ensures precision < 0 ==> n == 0
  {
    if precision < 0 then 0 else precision
  }

  /** Every character of a geohash is in the alphabet. */
  lemma {:induction false} GeohashValid(lat: real, lon: real, precision: nat)
    ensures ValidGeohash(Geohash(lat, lon, precision))
  {
    if precision > 0 {
      GeohashValid(lat, lon, precision - 1);
      DigitValueOf(CharIndex(lat, lon, precision - 1, 5));
    }
  }

  /* ---------------------------------------------------------------------- */
  /* Decoding, as functions                                                 */
  /* ---------------------------------------------------------------------- */

  /** The box after the first `i` characters of `h` and `j` bits of character `i`. */
  function CellAt(h: string, i: nat, j: nat): Box
    requires j <= 5 && ValidPrefix(h, if j == 0 then i else i + 1)
    decreases i, j
  {
    if j == 0 then
      if i == 0 then World else CellAt(h, i - 1, 5)
    else
      Bisect(CellAt(h, i, j - 1), IsLonBit(5 * i + j - 1), CharBit(h[i], j - 1))
  }

  /** The bounding box of a geohash; a character outside the alphabet is an error. */
  function Cell(h: string): (r: Result<Box>)
    ensures r.Ok? <==> ValidGeohash(h)
  {
    if ValidGeohash(h) then Ok(CellAt(h, |h|, 0)) else Err(InvalidCharacter)
  }

  /** The centre of the bounding box of a geohash. */
  function Decoded(h: string): (r: Result<Coord>)
    ensures r.Ok? <==> ValidGeohash(h)
  {
    match Cell(h)
    case Ok(b) => Ok(Centre(b))
    case Err(e) => Err(e)
  }

  /** The geohash decodes exactly to the point it was made from. */
  predicate RoundTrips(h: string, lat: real, lon: real) {
    Decoded(h) == Ok(Coord(lat, lon))
  }

  /** Which precisions give a geohash that decodes exactly to the point. */
  function RoundTripsAt(lat: real, lon: real): nat -> bool {
    (q: nat) => RoundTrips(Geohash(lat, lon, q), lat, lon)
  }

  /** The first precision from `p` to 12 that passes `ok`, and 12 if none does. */
  function FirstPrecision(ok: nat -> bool, p: nat): nat
    requires 1 <= p <= 12
    decreases 12 - p
  {
    if ok(p) then p
    else if p == 12 then 12
    else FirstPrecision(ok, p + 1)
  }

  /** The precision `encode` picks when none is given. */
  function AutoPrecision(lat: real, lon: real): nat {
    FirstPrecision(RoundTripsAt(lat, lon), 1)
  }

  /** The geohash `encode` returns when no precision is given. */
  function AutoGeohash(lat: real, lon: real): string {
    Geohash(lat, lon, AutoPrecision(lat, lon))
  }

  /* ---------------------------------------------------------------------- */
  /* Properties of encoding                                                 */
  /* ---------------------------------------------------------------------- */

  /** The point's own bisections narrow the world to boxes that still hold it. */
  lemma {:induction false} PointInOwnCell(lat: real, lon: real, n: nat)
    requires InWorld(lat, lon)
    ensures Contains(PointCell(lat, lon, n), lat, lon)
  {
    if n > 0 {
      PointInOwnCell(lat, lon, n - 1);
    }
  }

  /** Below the world's north and east edges, the point's box holds it half-open. */
  lemma {:induction false} PointInOwnCellHalfOpen(lat: real, lon: real, n: nat)
    requires -90.0 <= lat < 90.0 && -180.0 <= lon < 180.0
    ensures HalfOpen(PointCell(lat, lon, n), lat, lon)
  {
    if n > 0 {
      PointInOwnCellHalfOpen(lat, lon, n - 1);
    }
  }

  /** Bit `j` of the accumulated value `CharIndex(.., i, m)`, counted from the top, is bit `5 * i + j`. */
  lemma {:induction false} CharIndexBit(lat: real, lon: real, i: nat, m: nat, j: nat)
    requires j < m
    ensures BitOf(CharIndex(lat, lon, i, m), m - 1 - j) <==> PointBit(lat, lon, 5 * i + j)
  {
    var c := CharIndex(lat, lon, i, m - 1);
    var b := if PointBit(lat, lon, 5 * i + m - 1) then 1 else 0;
    assert CharIndex(lat, lon, i, m) == 2 * c + b;
    if j < m - 1 {
      CharIndexBit(lat, lon, i, m - 1, j);
      BitOfDouble(c, b, m - 2 - j);
    } else {
      BitOfDouble(c, b, 0);
    }
  }

  /** Doubling and adding `b` shifts the bits up by one and puts `b` at the bottom. */
  lemma BitOfDouble(c: nat, b: nat, k: nat)
    requires b < 2
    ensures BitOf(2 * c + b, k + 1) == BitOf(c, k)
    ensures BitOf(2 * c + b, 0) == (b == 1)
  {
    assert (2 * c + b) / 2 == c && (2 * c + b) % 2 == b;
  }

  /** Character `i` of a geohash carries the value accumulated from bits `5 * i` to `5 * i + 4`. */
  lemma {:induction false} GeohashAt(lat: real, lon: real, p: nat, i: nat)
    requires i < p
    ensures Geohash(lat, lon, p)[i] == Base32[CharIndex(lat, lon, i, 5)]
  {
    if i < p - 1 {
      GeohashAt(lat, lon, p - 1, i);
    }
  }

  /** A longer geohash of the same point extends the shorter one. */
  lemma {:induction false} GeohashPrefix(lat: real, lon: real, p: nat, q: nat)
    requires q <= p
    ensures Geohash(lat, lon, p)[..q] == Geohash(lat, lon, q)
  {
    if q < p {
      GeohashPrefix(lat, lon, p - 1, q);
      AppendPrefix(Geohash(lat, lon, p - 1), [Base32[CharIndex(lat, lon, p - 1, 5)]], q);
    } else {
      WholePrefix(Geohash(lat, lon, p));
    }
  }

  /** Replaying the bits of a point's geohash retraces the point's own bisections. */
  lemma {:induction false} ReplayOfGeohash(lat: real, lon: real, p: nat, i: nat, j: nat)
    requires j <= 5 && (if j == 0 then i <= p else i < p)
    ensures ValidGeohash(Geohash(lat, lon, p))
    ensures CellAt(Geohash(lat, lon, p), i, j) == PointCell(lat, lon, 5 * i + j)
    decreases i, j
  {
    GeohashValid(lat, lon, p);
    if j == 0 {
      if i > 0 {
        ReplayOfGeohash(lat, lon, p, i - 1, 5);
      }
    } else {
      ReplayOfGeohash(lat, lon, p, i, j - 1);
      GeohashAt(lat, lon, p, i);
      DigitValueOf(CharIndex(lat, lon, i, 5));
      CharIndexBit(lat, lon, i, 5, j - 1);
    }
  }

  /** The box of a point's geohash is the box of its `5 * precision` bisections. */
  lemma CellOfGeohash(lat: real, lon: real, precision: nat)
    ensures Cell(Geohash(lat, lon, precision)) == Ok(PointCell(lat, lon, 5 * precision))
  {
    ReplayOfGeohash(lat, lon, precision, precision, 0);
  }

  /** The box of a point's geohash holds the point. */
  lemma CellContainsPoint(lat: real, lon: real, precision: nat)
    requires InWorld(lat, lon)
    ensures Cell(Geohash(lat, lon, precision)).Ok?
    ensures Contains(Cell(Geohash(lat, lon, precision)).value, lat, lon)
  {
    CellOfGeohash(lat, lon, precision);
    PointInOwnCell(lat, lon, 5 * precision);
  }

  /* ---------------------------------------------------------------------- */
  /* Properties of decoding                                                 */
  /* ---------------------------------------------------------------------- */

  lemma {:induction false} CellAtProper(h: string, i: nat, j: nat)
    requires j <= 5 && ValidPrefix(h, if j == 0 then i else i + 1)
    ensures Proper(CellAt(h, i, j))
    decreases i, j
  {
    if j == 0 {
      if i > 0 {
        CellAtProper(h, i - 1, 5);
      }
    } else {
      CellAtProper(h, i, j - 1);
    }
  }

  /** The whole geohash's box lies inside the box of every shorter run of its bits. */
  lemma {:induction false} CellAtNested(h: string, i: nat, j: nat)
    requires ValidGeohash(h) && j <= 5 && (if j == 0 then i <= |h| else i < |h|)
    ensures Inside(CellAt(h, |h|, 0), CellAt(h, i, j))
    decreases |h| - i, 5 - j
  {
    if j == 5 {
      CellAtNested(h, i + 1, 0);
    } else if i < |h| {
      CellAtNested(h, i, j + 1);
      CellAtProper(h, i, j);
    }
  }

  /**
   * A point in the half-open box of `h` is narrowed exactly as `h` says:
   * its boxes are those of `h`.
   */
  lemma {:induction false} MemberCells(h: string, lat: real, lon: real, i: nat, j: nat)
    requires ValidGeohash(h) && HalfOpen(CellAt(h, |h|, 0), lat, lon)
    requires j <= 5 && (if j == 0 then i <= |h| else i < |h|)
    ensures PointCell(lat, lon, 5 * i + j) == CellAt(h, i, j)
    decreases i, j
  {
    if j == 0 {
      if i > 0 {
        MemberCells(h, lat, lon, i - 1, 5);
      }
    } else {
      MemberCells(h, lat, lon, i, j - 1);
      MemberBit(h, lat, lon, i, j - 1);
    }
  }

  /** Bit `5 * i + j` of a point in the half-open box of `h` is bit `j` of `h[i]`. */
  lemma MemberBit(h: string, lat: real, lon: real, i: nat, j: nat)
    requires ValidGeohash(h) && HalfOpen(CellAt(h, |h|, 0), lat, lon)
    requires i < |h| && j < 5
    requires PointCell(lat, lon, 5 * i + j) == CellAt(h, i, j)
    ensures PointBit(lat, lon, 5 * i + j) == CharBit(h[i], j)
  {
    CellAtNested(h, i, j + 1);
  }

  /** The accumulated value of a member point's character `i` is the top `j` bits of `h[i]`. */
  lemma {:induction false} MemberCharIndex(h: string, lat: real, lon: real, i: nat, j: nat)
    requires ValidGeohash(h) && HalfOpen(CellAt(h, |h|, 0), lat, lon)
    requires i < |h| && j <= 5
    ensures CharIndex(lat, lon, i, j) == Shift(DigitValue(h[i]), 5 - j)
  {
    if j == 0 {
      ShiftAll(DigitValue(h[i]), 5);
    } else {
      MemberCharIndex(h, lat, lon, i, j - 1);
      MemberCells(h, lat, lon, i, j - 1);
      MemberBit(h, lat, lon, i, j - 1);
      ShiftStep(DigitValue(h[i]), 5 - j);
    }
  }

  /** A point in the half-open box of `h` has the first `p` characters of `h` as its geohash. */
  lemma {:induction false} MemberGeohash(h: string, lat: real, lon: real, p: nat)
    requires ValidGeohash(h) && HalfOpen(CellAt(h, |h|, 0), lat, lon)
    requires p <= |h|
    ensures Geohash(lat, lon, p) == h[..p]
  {
    if p > 0 {
      MemberGeohash(h, lat, lon, p - 1);
      MemberCharIndex(h, lat, lon, p - 1, 5);
      DigitValueAt(h[p - 1]);
      LastOfPrefix(h, p);
    }
  }

  /**
   * Below the north and east edges of the world, a point has geohash `h`
   * exactly when it lies in the half-open box of `h`.
   */
  lemma GeohashIffInCell(h: string, lat: real, lon: real)
    requires ValidGeohash(h)
    requires -90.0 <= lat < 90.0 && -180.0 <= lon < 180.0
    ensures Geohash(lat, lon, |h|) == h <==> HalfOpen(Cell(h).value, lat, lon)
  {
    if HalfOpen(Cell(h).value, lat, lon) {
      MemberGeohash(h, lat, lon, |h|);
      WholePrefix(h);
    }
    if Geohash(lat, lon, |h|) == h {
      CellOfGeohash(lat, lon, |h|);
      PointInOwnCellHalfOpen(lat, lon, 5 * |h|);
    }
  }

  /** Re-encoding the decoded centre at the same length gives the geohash back. */
  lemma GeohashOfDecoded(h: string)
    requires ValidGeohash(h)
    ensures Geohash(Decoded(h).value.lat, Decoded(h).value.lon, |h|) == h
  {
    var m := Decoded(h).value;
    CellAtProper(h, |h|, 0);
    MemberGeohash(h, m.lat, m.lon, |h|);
    WholePrefix(h);
  }

  /** The bits of the first `k` characters do not depend on the characters after them. */
  lemma {:induction false} CellAtOfPrefix(h: string, k: nat, i: nat, j: nat)
    requires ValidGeohash(h) && k <= |h|
    requires j <= 5 && (if j == 0 then i <= k else i < k)
    ensures ValidPrefix(h[..k], if j == 0 then i else i + 1)
    ensures CellAt(h[..k], i, j) == CellAt(h, i, j)
    decreases i, j
  {
    if j == 0 {
      if i > 0 {
        CellAtOfPrefix(h, k, i - 1, 5);
      }
    } else {
      CellAtOfPrefix(h, k, i, j - 1);
    }
  }

  /** Each extra character narrows the box: the box of `h` lies in the box of any prefix. */
  lemma CellRefines(h: string, k: nat)
    requires ValidGeohash(h) && k <= |h|
    ensures Cell(h).Ok? && Cell(h[..k]).Ok?
    ensures Proper(Cell(h).value)
    ensures Inside(Cell(h).value, Cell(h[..k]).value)
  {
    CellAtOfPrefix(h, k, k, 0);
    CellAtNested(h, k, 0);
    CellAtProper(h, |h|, 0);
  }

  /* ---------------------------------------------------------------------- */
  /* Cell sizes and the decoding error                                      */
  /* ---------------------------------------------------------------------- */

  /** Bit `k` bisects longitude exactly when `k` is even. */
  lemma {:induction false} LonBitParity(k: nat)
    ensures IsLonBit(k) <==> k % 2 == 0
  {
    if k > 0 {
      LonBitParity(k - 1);
    }
  }

  function Width(b: Box): real { b.ne.lon - b.sw.lon }

  function Height(b: Box): real { b.ne.lat - b.sw.lat }

  /** The size of a box after `n` bisections of the world: `(n + 1) / 2` of them halve longitude, `n / 2` latitude. */
  predicate SizeAfter(b: Box, n: nat) {
    Width(b) == 360.0 / Pow2((n + 1) / 2) as real && Height(b) == 180.0 / Pow2(n / 2) as real
  }

  /** Halving `x / 2^k` gives `x / 2^(k + 1)`. */
  lemma HalveStep(x: real, k: nat)
    ensures (x / Pow2(k) as real) / 2.0 == x / Pow2(k + 1) as real
  {
    var q := Pow2(k) as real;
    assert Pow2(k + 1) as real == 2.0 * q;
  }

  /** One more bisection halves the box along the axis of bit `n`, whichever half is kept. */
  lemma BisectSize(b: Box, n: nat, bit: bool)
    requires SizeAfter(b, n)
    ensures SizeAfter(Bisect(b, IsLonBit(n), bit), n + 1)
  {
    LonBitParity(n);
    if n % 2 == 0 {
      assert (n + 2) / 2 == (n + 1) / 2 + 1 && (n + 1) / 2 == n / 2;
      HalveStep(360.0, (n + 1) / 2);
    } else {
      assert (n + 2) / 2 == (n + 1) / 2 && (n + 1) / 2 == n / 2 + 1;
      HalveStep(180.0, n / 2);
    }
  }

  /** The box a point is narrowed to after `n` bisections has the size of `n` halvings. */
  lemma {:induction false} PointCellSize(lat: real, lon: real, n: nat)
    ensures SizeAfter(PointCell(lat, lon, n), n)
  {
    if n > 0 {
      PointCellSize(lat, lon, n - 1);
      var b := PointCell(lat, lon, n - 1);
      BisectSize(b, n - 1, Above(b, IsLonBit(n - 1), lat, lon));
    }
  }

  /**
   * The box after `i` characters and `j` bits of a geohash is
   * `360 / 2^((n + 1) / 2)` degrees wide and `180 / 2^(n / 2)` high, for `n = 5 * i + j`.
   */
  lemma {:induction false} CellSize(h: string, i: nat, j: nat)
    requires j <= 5 && ValidPrefix(h, if j == 0 then i else i + 1)
    ensures SizeAfter(CellAt(h, i, j), 5 * i + j)
    decreases i, j
  {
    if j == 0 {
      if i > 0 {
        CellSize(h, i - 1, 5);
        CellBoundary(h, i, 5 * i);
      }
    } else {
      CellSize(h, i, j - 1);
      CellStepSize(h, i, j - 1, 5 * i + j - 1);
    }
  }

  /** Finishing a character's five bits is starting the next character. */
  lemma CellBoundary(h: string, i: nat, n: nat)
    requires 0 < i && ValidPrefix(h, i) && n == 5 * i
    requires SizeAfter(CellAt(h, i - 1, 5), n)
    ensures SizeAfter(CellAt(h, i, 0), n)
  {
  }

  /** One bit of the replay halves the box along that bit's axis. */
  lemma CellStepSize(h: string, i: nat, j: nat, n: nat)
    requires j < 5 && ValidPrefix(h, i + 1) && n == 5 * i + j
    requires SizeAfter(CellAt(h, i, j), n)
    ensures SizeAfter(CellAt(h, i, j + 1), n + 1)
  {
    BisectSize(CellAt(h, i, j), n, CharBit(h[i], j));
  }

  function Abs(x: real): real { if x < 0.0 then -x else x }

  /** A value between `lo` and `hi` is within half the distance of their midpoint. */
  lemma HalfWithin(lo: real, hi: real, x: real)
    requires lo <= x <= hi
    ensures Abs((lo + hi) / 2.0 - x) <= (hi - lo) / 2.0
  {
  }

  /** Half of `x / 2^k` is `(x / 2) / 2^k`. */
  lemma HalfOf(x: real, k: nat)
    ensures (x / Pow2(k) as real) / 2.0 == (x / 2.0) / Pow2(k) as real
  {
    var q := Pow2(k) as real;
    assert q > 0.0;
  }

  /** A point in a closed box is within half the box's size of its centre. */
  lemma CentreNear(b: Box, n: nat, lat: real, lon: real)
    requires Contains(b, lat, lon) && SizeAfter(b, n)
    ensures Abs(Centre(b).lat - lat) <= 90.0 / Pow2(n / 2) as real
    ensures Abs(Centre(b).lon - lon) <= 180.0 / Pow2((n + 1) / 2) as real
  {
    HalfWithin(b.sw.lat, b.ne.lat, lat);
    HalfWithin(b.sw.lon, b.ne.lon, lon);
    HalfOf(180.0, n / 2);
    HalfOf(360.0, (n + 1) / 2);
  }

  /**
   * Decoding the geohash of a point in the world gives back the point to
   * within half a cell: `90 / 2^(5p / 2)` degrees of latitude and
   * `180 / 2^((5p + 1) / 2)` of longitude at precision `p`.
   */
  lemma DecodeNear(lat: real, lon: real, p: nat)
    requires InWorld(lat, lon)
    ensures Decoded(Geohash(lat, lon, p)).Ok?
    ensures var d := Decoded(Geohash(lat, lon, p)).value;
      Abs(d.lat - lat) <= 90.0 / Pow2(5 * p / 2) as real &&
      Abs(d.lon - lon) <= 180.0 / Pow2((5 * p + 1) / 2) as real
  {
    CellOfGeohash(lat, lon, p);
    PointInOwnCell(lat, lon, 5 * p);
    PointCellSize(lat, lon, 5 * p);
    CentreNear(PointCell(lat, lon, 5 * p), 5 * p, lat, lon);
  }

  /* ---------------------------------------------------------------------- */
  /* Properties of the automatic precision                                  */
  /* ---------------------------------------------------------------------- */

  /** The search returns the first passing precision from `p` on, or 12 when none passes. */
  lemma {:induction false} FirstPrecisionShape(ok: nat -> bool, p: nat)
    requires 1 <= p <= 12
    ensures var r := FirstPrecision(ok, p);
      p <= r <= 12 &&
      (forall q | p <= q < r :: !ok(q)) &&
      (ok(r) || (r == 12 && forall q | p <= q <= 12 :: !ok(q)))
    decreases 12 - p
  {
    if !ok(p) && p < 12 {
      FirstPrecisionShape(ok, p + 1);
    }
  }

  /** The search stops at a passing precision once every earlier one failed. */
  lemma {:induction false} FirstPrecisionAt(ok: nat -> bool, p: nat, r: nat)
    requires 1 <= p <= r <= 12 && ok(r)
    requires forall q | p <= q < r :: !ok(q)
    ensures FirstPrecision(ok, p) == r
    decreases r - p
  {
    if p < r {
      FirstPrecisionAt(ok, p + 1, r);
    }
  }

  /**
   * `encode` without a precision returns the shortest geohash (1 to 12
   * characters) that decodes exactly to the point, and the 12-character one
   * when none does.
   */
  lemma AutoGeohashShape(lat: real, lon: real)
    ensures var h := AutoGeohash(lat, lon);
      1 <= |h| <= 12 && h == Geohash(lat, lon, |h|) &&
      (forall q | 1 <= q < |h| :: !RoundTrips(Geohash(lat, lon, q), lat, lon)) &&
      (RoundTrips(h, lat, lon) ||
       (|h| == 12 && forall q | 1 <= q <= 12 :: !RoundTrips(Geohash(lat, lon, q), lat, lon)))
  {
    var ok := RoundTripsAt(lat, lon);
    FirstPrecisionShape(ok, 1);
    var r := FirstPrecision(ok, 1);
    assert |AutoGeohash(lat, lon)| == r;
    forall q | 1 <= q < r
      ensures !RoundTrips(Geohash(lat, lon, q), lat, lon)
    {
      assert !ok(q);
    }
    if !ok(r) {
      forall q | 1 <= q <= 12
        ensures !RoundTrips(Geohash(lat, lon, q), lat, lon)
      {
        assert !ok(q);
      }
    }
  }

  /** Conversely, the first round-tripping precision is the one `encode` picks. */
  lemma AutoFound(lat: real, lon: real, q: nat)
    requires 1 <= q <= 12 && RoundTrips(Geohash(lat, lon, q), lat, lon)
    requires forall r | 1 <= r < q :: !RoundTrips(Geohash(lat, lon, r), lat, lon)
    ensures AutoGeohash(lat, lon) == Geohash(lat, lon, q)
  {
    var ok := RoundTripsAt(lat, lon);
    forall r | 1 <= r < q
      ensures !ok(r)
    {
    }
    FirstPrecisionAt(ok, 1, q);
  }

  /** When no precision from 1 to 12 round-trips, `encode` falls back to 12. */
  lemma AutoNotFound(lat: real, lon: real)
    requires forall r | 1 <= r <= 12 :: !RoundTrips(Geohash(lat, lon, r), lat, lon)
    ensures AutoGeohash(lat, lon) == Geohash(lat, lon, 12)
  {
    var ok := RoundTripsAt(lat, lon);
    FirstPrecisionShape(ok, 1);
    assert !ok(FirstPrecision(ok, 1));
  }

  /** No shorter prefix of `h` decodes to the centre of `h`. */
  lemma PrefixMissesCentre(h: string, q: nat)
    requires ValidGeohash(h) && q < |h|
    ensures !RoundTrips(h[..q], Decoded(h).value.lat, Decoded(h).value.lon)
  {
    CellAtOfPrefix(h, q, q, 0);
    CellAtNested(h, q, 1);
    CellAtProper(h, |h|, 0);
    assert CellAt(h, q, 1) == Bisect(CellAt(h, q, 0), IsLonBit(5 * q), CharBit(h[q], 0));
  }

  /** Encoding a cell's centre with automatic precision gives that cell's geohash. */
  lemma AutoGeohashOfCentre(h: string)
    requires ValidGeohash(h) && 1 <= |h| <= 12
    ensures AutoGeohash(Decoded(h).value.lat, Decoded(h).value.lon) == h
  {
    var m := Decoded(h).value;
    GeohashOfDecoded(h);
    var ok := RoundTripsAt(m.lat, m.lon);
    forall q | 1 <= q < |h|
      ensures !ok(q)
    {
      GeohashPrefix(m.lat, m.lon, |h|, q);
      PrefixMissesCentre(h, q);
    }
    FirstPrecisionAt(ok, 1, |h|);
  }

  /* ---------------------------------------------------------------------- */
  /* The codec as the source runs it                                        */
  /* ---------------------------------------------------------------------- */

  /** One turn of the bisection loop, stated on the specification functions. */
  lemma EncodeStep(lat: real, lon: real, i: nat, j: nat, latMin: real, latMax: real, lonMin: real, lonMax: real)
    requires j < 5
    requires Box(Coord(latMin, lonMin), Coord(latMax, lonMax)) == PointCell(lat, lon, 5 * i + j)
    ensures var latMid, lonMid := (latMin + latMax) / 2.0, (lonMin + lonMax) / 2.0;
      PointBit(lat, lon, 5 * i + j) == (if IsLonBit(5 * i + j) then lon >= lonMid else lat >= latMid) &&
      PointCell(lat, lon, 5 * i + j + 1) ==
        if IsLonBit(5 * i + j) then
          if lon >= lonMid then Box(Coord(latMin, lonMid), Coord(latMax, lonMax))
          else Box(Coord(latMin, lonMin), Coord(latMax, lonMid))
        else
          if lat >= latMid then Box(Coord(latMid, lonMin), Coord(latMax, lonMax))
          else Box(Coord(latMin, lonMin), Coord(latMid, lonMax))
    ensures CharIndex(lat, lon, i, j + 1) ==
      2 * CharIndex(lat, lon, i, j) + (if PointBit(lat, lon, 5 * i + j) then 1 else 0)
    ensures IsLonBit(5 * i + j + 1) == !IsLonBit(5 * i + j)
    ensures j == 4 ==> CharIndex(lat, lon, i, 5) < 32 && CharIndex(lat, lon, i + 1, 0) == 0
    ensures j == 4 ==> Geohash(lat, lon, i + 1) == Geohash(lat, lon, i) + [Base32[CharIndex(lat, lon, i, 5)]]
  {
  }

  /** `encode` with an explicit precision: the bisection loop. */
  method EncodeFixed(lat: real, lon: real, precision: int) returns (geohash: string)
    ensures geohash == Geohash(lat, lon, HashLength(precision))
  {
    var idx: nat := 0;
    var bit: nat := 0;
    var evenBit := true;
    geohash := "";
    var latMin, latMax := -90.0, 90.0;
    var lonMin, lonMax := -180.0, 180.0;
    ghost var n: nat := 0;  // bisections done so far
    while |geohash| < precision
      invariant |geohash| <= HashLength(precision) && bit < 5 && n == 5 * |geohash| + bit
      invariant |geohash| == HashLength(precision) ==> bit == 0
      invariant geohash == Geohash(lat, lon, |geohash|)
      invariant idx == CharIndex(lat, lon, |geohash|, bit)
      invariant evenBit == IsLonBit(n)
      invariant Box(Coord(latMin, lonMin), Coord(latMax, lonMax)) == PointCell(lat, lon, n)
      decreases 5 * (HashLength(precision) - |geohash|) - bit
    {
      ghost var i := |geohash|;
      ghost var up := PointBit(lat, lon, n);
      EncodeStep(lat, lon, i, bit, latMin, latMax, lonMin, lonMax);
      if evenBit {
        var lonMid := (lonMin + lonMax) / 2.0;
        if lon >= lonMid {
          idx := idx * 2 + 1;
          lonMin := lonMid;
        } else {
          idx := idx * 2;
          lonMax := lonMid;
        }
      } else {
        var latMid := (latMin + latMax) / 2.0;
        if lat >= latMid {
          idx := idx * 2 + 1;
          latMin := latMid;
        } else {
          idx := idx * 2;
          latMax := latMid;
        }
      }
      assert idx == 2 * CharIndex(lat, lon, i, bit) + (if up then 1 else 0) == CharIndex(lat, lon, i, bit + 1);
      assert Box(Coord(latMin, lonMin), Coord(latMax, lonMax)) == PointCell(lat, lon, n + 1);
      evenBit := !evenBit;
      n := n + 1;
      if bit == 4 {
        geohash := geohash + [Base32[idx]];
        assert |geohash| == i + 1;
        bit := 0;
        idx := 0;
      } else {
        bit := bit + 1;
      }
    }
  }

  /** One turn of the replay loop: the masked bit of the character picks the half kept. */
  lemma ReplayStep(h: string, i: nat, j: nat)
    requires j < 5 && ValidPrefix(h, i + 1)
    ensures var bit := Digit(h[i]) & Bit(4 - j) != 0;
      CellAt(h, i, j + 1) == Bisect(CellAt(h, i, j), IsLonBit(5 * i + j), bit)
  {
    MaskAnd(DigitValue(h[i]), 4 - j);
    MaskBit(DigitValue(h[i]), 4 - j);
  }

  /** `bounds`: replays the bisection from the characters' bits. */
  method Bounds(h: string) returns (r: Result<Box>)
    ensures r == Cell(h)
  {
    var latMin, latMax := -90.0, 90.0;
    var lonMin, lonMax := -180.0, 180.0;
    var isLon := true;
    for i := 0 to |h|
      invariant ValidPrefix(h, i)
      invariant isLon == IsLonBit(5 * i)
      invariant Box(Coord(latMin, lonMin), Coord(latMax, lonMax)) == CellAt(h, i, 0)
    {
      if !IsBase32(h[i]) {
        return Err(InvalidCharacter);
      }
      var charIdx := Digit(h[i]);
      for j := 0 to 5
        invariant isLon == IsLonBit(5 * i + j)
        invariant Box(Coord(latMin, lonMin), Coord(latMax, lonMax)) == CellAt(h, i, j)
      {
        var mask := Bit(4 - j);
        ReplayStep(h, i, j);
        if isLon {
          if charIdx & mask != 0 {
            lonMin := (lonMin + lonMax) / 2.0;
          } else {
            lonMax := (lonMin + lonMax) / 2.0;
          }
        } else {
          if charIdx & mask != 0 {
            latMin := (latMin + latMax) / 2.0;
          } else {
            latMax := (latMin + latMax) / 2.0;
          }
        }
        isLon := !isLon;
      }
    }
    r := Ok(Box(Coord(latMin, lonMin), Coord(latMax, lonMax)));
  }

  /** `decode`: the centre of the bounding box. */
  method Decode(h: string) returns (r: Result<Coord>)
    ensures r == Decoded(h)
  {
    var bounds := Bounds(h);
    if bounds.Err? {
      return Err(bounds.error);
    }
    var b := bounds.value;
    r := Ok(Coord((b.sw.lat + b.ne.lat) / 2.0, (b.sw.lon + b.ne.lon) / 2.0));
  }

  /** One turn of the automatic-precision search: encode at `q` and test the round trip. */
  method TryPrecision(lat: real, lon: real, q: nat) returns (hash: string, found: bool)
    ensures hash == Geohash(lat, lon, q)
    ensures found == RoundTrips(hash, lat, lon)
  {
    hash := EncodeFixed(lat, lon, q);
    var posn := Decode(hash);
    found := posn.Ok? && posn.value.lat == lat && posn.value.lon == lon;
  }

  /**
   * The automatic-precision part of `encode`: try 1 to 12 and return the
   * first geohash that decodes exactly to the point, falling back to 12.
   */
  method EncodeAuto(lat: real, lon: real) returns (geohash: string)
    ensures geohash == AutoGeohash(lat, lon)
  {
    for q := 1 to 13
      invariant forall r | 1 <= r < q :: !RoundTrips(Geohash(lat, lon, r), lat, lon)
    {
      var hash, found := TryPrecision(lat, lon, q);
      if found {
        AutoFound(lat, lon, q);
        return hash;
      }
    }
    AutoNotFound(lat, lon);
    geohash := EncodeFixed(lat, lon, 12);
  }

  /** `encode`: a given precision is used as is; without one it is chosen automatically. */
  method Encode(lat: real, lon: real, precision: Option<int>) returns (geohash: string)
    ensures precision.Some? ==> geohash == Geohash(lat, lon, HashLength(precision.value))
    ensures precision.None? ==> geohash == AutoGeohash(lat, lon)
  {
    if precision.None? {
      geohash := EncodeAuto(lat, lon);
    } else {
      geohash := EncodeFixed(lat, lon, precision.value);
    }
  }
}
