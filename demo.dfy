/**
 * The documented example: the point (37.422131, -122.084801) has the
 * six-character geohash "9q9hvu", and this is that geohash's cell.
 */
module Demo {
  import opened Outcome
  import opened Codec

  const Hash: string := "9q9hvu"

  /** The characters of the example and their five-bit values. */
  lemma HashDigits()
    ensures ValidGeohash(Hash)
    ensures DigitValue(Hash[0]) == 9 && DigitValue(Hash[1]) == 22 && DigitValue(Hash[2]) == 9 && DigitValue(Hash[3]) == 16 && DigitValue(Hash[4]) == 27 && DigitValue(Hash[5]) == 26
  {
    assert IsBase32(Hash[0]) && IsBase32(Hash[1]) && IsBase32(Hash[2]);
    assert IsBase32(Hash[3]) && IsBase32(Hash[4]) && IsBase32(Hash[5]);
  }

  lemma Powers()
    ensures Pow2(0) == 1 && Pow2(1) == 2 && Pow2(2) == 4 && Pow2(3) == 8 && Pow2(4) == 16
  {
  }

  /** One bisection of the replay: the axis is the parity of the bit's position, the half is the character's bit. */
  lemma Step(i: nat, j: nat, v: nat, isLon: bool, bit: bool)
    requires ValidGeohash(Hash) && i < 6 && j < 5 && DigitValue(Hash[i]) == v
    requires isLon == ((5 * i + j) % 2 == 0) && bit == ((v / Pow2(4 - j)) % 2 == 1)
    ensures CellAt(Hash, i, j + 1) == Bisect(CellAt(Hash, i, j), isLon, bit)
  {
    LonBitParity(5 * i + j);
    MaskBit(v, 4 - j);
  }

  /** The box after the first character. */
  lemma Cell1()
    ensures ValidGeohash(Hash) && CellAt(Hash, 1, 0) == Box(Coord(0.0, -135.0), Coord(45.0, -90.0))
  {
    HashDigits();
    Powers();
    Step(0, 0, 9, true, false);
    assert CellAt(Hash, 0, 1) == Box(Coord(-90.0, -180.0), Coord(90.0, 0.0));
    Step(0, 1, 9, false, true);
    assert CellAt(Hash, 0, 2) == Box(Coord(0.0, -180.0), Coord(90.0, 0.0));
    Step(0, 2, 9, true, false);
    assert CellAt(Hash, 0, 3) == Box(Coord(0.0, -180.0), Coord(90.0, -90.0));
    Step(0, 3, 9, false, false);
    assert CellAt(Hash, 0, 4) == Box(Coord(0.0, -180.0), Coord(45.0, -90.0));
    Step(0, 4, 9, true, true);
  }

  /** The box after the first 2 characters. */
  lemma Cell2()
    ensures ValidGeohash(Hash) && CellAt(Hash, 2, 0) == Box(Coord(33.75, -123.75), Coord(39.375, -112.5))
  {
    Cell1();
    HashDigits();
    Powers();
    Step(1, 0, 22, false, true);
    assert CellAt(Hash, 1, 1) == Box(Coord(22.5, -135.0), Coord(45.0, -90.0));
    Step(1, 1, 22, true, false);
    assert CellAt(Hash, 1, 2) == Box(Coord(22.5, -135.0), Coord(45.0, -112.5));
    Step(1, 2, 22, false, true);
    assert CellAt(Hash, 1, 3) == Box(Coord(33.75, -135.0), Coord(45.0, -112.5));
    Step(1, 3, 22, true, true);
    assert CellAt(Hash, 1, 4) == Box(Coord(33.75, -123.75), Coord(45.0, -112.5));
    Step(1, 4, 22, false, false);
  }

  /** The box after the first 3 characters. */
  lemma Cell3()
    ensures ValidGeohash(Hash) && CellAt(Hash, 3, 0) == Box(Coord(36.5625, -122.34375), Coord(37.96875, -120.9375))
  {
    Cell2();
    HashDigits();
    Powers();
    Step(2, 0, 9, true, false);
    assert CellAt(Hash, 2, 1) == Box(Coord(33.75, -123.75), Coord(39.375, -118.125));
    Step(2, 1, 9, false, true);
    assert CellAt(Hash, 2, 2) == Box(Coord(36.5625, -123.75), Coord(39.375, -118.125));
    Step(2, 2, 9, true, false);
    assert CellAt(Hash, 2, 3) == Box(Coord(36.5625, -123.75), Coord(39.375, -120.9375));
    Step(2, 3, 9, false, false);
    assert CellAt(Hash, 2, 4) == Box(Coord(36.5625, -123.75), Coord(37.96875, -120.9375));
    Step(2, 4, 9, true, true);
  }

  /** The box after the first 4 characters. */
  lemma Cell4()
    ensures ValidGeohash(Hash) && CellAt(Hash, 4, 0) == Box(Coord(37.265625, -122.34375), Coord(37.44140625, -121.9921875))
  {
    Cell3();
    HashDigits();
    Powers();
    Step(3, 0, 16, false, true);
    assert CellAt(Hash, 3, 1) == Box(Coord(37.265625, -122.34375), Coord(37.96875, -120.9375));
    Step(3, 1, 16, true, false);
    assert CellAt(Hash, 3, 2) == Box(Coord(37.265625, -122.34375), Coord(37.96875, -121.640625));
    Step(3, 2, 16, false, false);
    assert CellAt(Hash, 3, 3) == Box(Coord(37.265625, -122.34375), Coord(37.6171875, -121.640625));
    Step(3, 3, 16, true, false);
    assert CellAt(Hash, 3, 4) == Box(Coord(37.265625, -122.34375), Coord(37.6171875, -121.9921875));
    Step(3, 4, 16, false, false);
  }

  /** The box after the first 5 characters. */
  lemma Cell5()
    ensures ValidGeohash(Hash) && CellAt(Hash, 5, 0) == Box(Coord(37.3974609375, -122.1240234375), Coord(37.44140625, -122.080078125))
  {
    Cell4();
    HashDigits();
    Powers();
    Step(4, 0, 27, true, true);
    assert CellAt(Hash, 4, 1) == Box(Coord(37.265625, -122.16796875), Coord(37.44140625, -121.9921875));
    Step(4, 1, 27, false, true);
    assert CellAt(Hash, 4, 2) == Box(Coord(37.353515625, -122.16796875), Coord(37.44140625, -121.9921875));
    Step(4, 2, 27, true, false);
    assert CellAt(Hash, 4, 3) == Box(Coord(37.353515625, -122.16796875), Coord(37.44140625, -122.080078125));
    Step(4, 3, 27, false, true);
    assert CellAt(Hash, 4, 4) == Box(Coord(37.3974609375, -122.16796875), Coord(37.44140625, -122.080078125));
    Step(4, 4, 27, true, true);
  }

  /** The box after the first 6 characters. */
  lemma Cell6()
    ensures ValidGeohash(Hash) && CellAt(Hash, 6, 0) == Box(Coord(37.41943359375, -122.091064453125), Coord(37.4249267578125, -122.080078125))
  {
    Cell5();
    HashDigits();
    Powers();
    Step(5, 0, 26, false, true);
    assert CellAt(Hash, 5, 1) == Box(Coord(37.41943359375, -122.1240234375), Coord(37.44140625, -122.080078125));
    Step(5, 1, 26, true, true);
    assert CellAt(Hash, 5, 2) == Box(Coord(37.41943359375, -122.10205078125), Coord(37.44140625, -122.080078125));
    Step(5, 2, 26, false, false);
    assert CellAt(Hash, 5, 3) == Box(Coord(37.41943359375, -122.10205078125), Coord(37.430419921875, -122.080078125));
    Step(5, 3, 26, true, true);
    assert CellAt(Hash, 5, 4) == Box(Coord(37.41943359375, -122.091064453125), Coord(37.430419921875, -122.080078125));
    Step(5, 4, 26, false, false);
  }

  /** `bounds("9q9hvu")`: the cell's south-west and north-east corners; the point lies strictly inside. */
  lemma DemoCell()
    ensures Cell(Hash) == Ok(Box(Coord(37.41943359375, -122.091064453125), Coord(37.4249267578125, -122.080078125)))
    ensures var b := Cell(Hash).value;
      b.sw.lat < 37.422131 < b.ne.lat && b.sw.lon < -122.084801 < b.ne.lon
  {
    Cell6();
  }

  /** `encode(37.422131, -122.084801, 6)` is "9q9hvu". */
  lemma DemoGeohash()
    ensures Geohash(37.422131, -122.084801, 6) == Hash
  {
    DemoCell();
    GeohashIffInCell(Hash, 37.422131, -122.084801);
  }

  /** `decode("9q9hvu")` is the cell's centre, and encoding the centre at six characters gives "9q9hvu" again. */
  lemma DemoDecode()
    ensures Decoded(Hash) == Ok(Coord(37.42218017578125, -122.0855712890625))
    ensures Geohash(37.42218017578125, -122.0855712890625, 6) == Hash
  {
    DemoCell();
    GeohashOfDecoded(Hash);
  }
}
