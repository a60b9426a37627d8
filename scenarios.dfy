/** Worked examples of the segmentation `processImageData` computes
    (`ProcessImageData` ensures its output is `Segmented`). */
module Scenarios {
  import opened Pixels
  import opened Accumulator
  import opened Runs

  /** A row of two opaque grey pixels whose shades differ by less than the
      threshold is one region, stored as the grey `2 * (x + y)` when that is
      a byte: the accumulator holds twice each channel sum. */
  lemma {:induction false} SimilarPairRow(data: seq<Byte>, x: Byte, y: Byte)
    requires |data| == 8 && data[0..4] == Grey(x) && data[4..8] == Grey(y)
    requires Abs(x - y) < Threshold && 2 * (x + y) < 256
    ensures Segmented(data, 2) == Grey(2 * (x + y)) + Grey(2 * (x + y))
  {
    assert Rem(4, RowBytes(2)) != 0 && Rem(8, RowBytes(2)) == 0;
    GreySimilar(data, 0, 4, x, y);
    PairRegion(data, 2, 0);
    GreyPair(data, 0, 4, x, y);
    BlockTwice(Grey(2 * (x + y)));
  }

  /** Similarity is a chain: a row of three opaque grey pixels, each similar
      to the next, is one region, even when the first and last are not
      similar to each other. */
  lemma {:induction false} SimilarTripleRow(data: seq<Byte>, x: Byte, y: Byte, z: Byte)
    requires |data| == 12 && data[0..4] == Grey(x) && data[4..8] == Grey(y) && data[8..12] == Grey(z)
    requires Abs(x - y) < Threshold && Abs(y - z) < Threshold && 3 * (x + y + z) < 256
    ensures Segmented(data, 3) == Grey(3 * (x + y + z)) + Grey(3 * (x + y + z)) + Grey(3 * (x + y + z))
  {
    assert Rem(4, RowBytes(3)) != 0 && Rem(8, RowBytes(3)) != 0 && Rem(12, RowBytes(3)) == 0;
    GreySimilar(data, 0, 4, x, y);
    GreySimilar(data, 4, 8, y, z);
    TripleRegion(data, 3, 0);
    GreyTriple(data, 0, 4, 8, x, y, z);
    BlockThrice(Grey(3 * (x + y + z)));
  }

  /** In an image two pixels wide, a row at `s` of two similar opaque grey
      pixels is one region, painted `2 * (x + y)`, and the scan goes on
      with the next row. */
  lemma {:induction false} PairRowAt(data: seq<Byte>, s: int, x: Byte, y: Byte)
    requires |data| % 4 == 0 && IsPixel(data, s) && s + 8 <= |data|
    requires Rem(s + 4, RowBytes(2)) != 0 && Rem(s + 8, RowBytes(2)) == 0
    requires data[s .. s + 4] == Grey(x) && data[s + 4 .. s + 8] == Grey(y)
    requires Abs(x - y) < Threshold && 2 * (x + y) < 256
    ensures SegmentFrom(data, 2, s) == Grey(2 * (x + y)) + Grey(2 * (x + y)) + SegmentFrom(data, 2, s + 8)
  {
    GreySimilar(data, s, s + 4, x, y);
    PairRegion(data, 2, s);
    GreyPair(data, s, s + 4, x, y);
    BlockTwice(Grey(2 * (x + y)));
  }

  /** A two-by-two image of one opaque grey is two regions, one per row,
      not one region of four: each row is painted `2 * (x + x)`. */
  lemma {:induction false} UniformSquare(data: seq<Byte>, x: Byte)
    requires |data| == 16 && data[0..4] == Grey(x) && data[4..8] == Grey(x)
    requires data[8..12] == Grey(x) && data[12..16] == Grey(x) && 4 * x < 256
    ensures Segmented(data, 2) == Grey(4 * x) + Grey(4 * x) + (Grey(4 * x) + Grey(4 * x))
  {
    assert Rem(4, RowBytes(2)) != 0 && Rem(8, RowBytes(2)) == 0;
    assert Rem(12, RowBytes(2)) != 0 && Rem(16, RowBytes(2)) == 0;
    assert 2 * (x + x) == 4 * x;
    PairRowAt(data, 0, x, x);
    PairRowAt(data, 8, x, x);
    assert SegmentFrom(data, 2, 16) == [];
  }

  /** A row of two pixels that are not similar is two regions, and is
      stored unchanged. */
  lemma {:induction false} DissimilarPairRow(data: seq<Byte>)
    requires |data| == 8 && !Similar(data, 0, 4)
    ensures Segmented(data, 2) == data
  {
    assert Rem(8, RowBytes(2)) == 0;
    assert !Continues(data, 2, 0) && !Continues(data, 2, 4);
    SingletonRegion(data, 2, 0);
    SingletonRegion(data, 2, 4);
    assert data == data[0..4] + data[4..8];
  }

  /** An image one pixel wide is stored unchanged, however similar its
      pixels are: the fill never steps down, so every pixel is a region of
      its own. */
  lemma {:induction false} ColumnUnchanged(data: seq<Byte>)
    requires |data| % 4 == 0
    ensures Segmented(data, 1) == data
  {
    ColumnFrom(data, 0);
  }

  lemma {:induction false} ColumnFrom(data: seq<Byte>, s: int)
    requires |data| % 4 == 0 && 0 <= s <= |data| && s % 4 == 0
    ensures SegmentFrom(data, 1, s) == data[s..]
    decreases |data| - s
  {
    if s < |data| {
      QuotRemMatch(s + 4, RowBytes(1));
      assert !Continues(data, 1, s);
      SingletonRegion(data, 1, s);
      ColumnFrom(data, s + 4);
      assert data[s..] == data[s .. s + 4] + data[s + 4..];
    }
  }

  /** 10 and 11 are similar: the pair is painted 2 * (10 + 11) = 42. */
  lemma {:induction false} TwoSimilarPixels(data: seq<Byte>)
    requires data == [10, 10, 10, 255, 11, 11, 11, 255]
    ensures Segmented(data, 2) == [42, 42, 42, 255, 42, 42, 42, 255]
  {
    assert data[0..4] == Grey(10) && data[4..8] == Grey(11);
    SimilarPairRow(data, 10, 11);
  }

  /** 0 is similar to 2 and 2 to 4, so the row is one region, painted
      3 * (0 + 2 + 4) = 18, although 0 and 4 are not similar. */
  lemma {:induction false} ChainOfThree(data: seq<Byte>)
    requires data == [0, 0, 0, 255, 2, 2, 2, 255, 4, 4, 4, 255]
    ensures Segmented(data, 3) == [18, 18, 18, 255, 18, 18, 18, 255, 18, 18, 18, 255]
  {
    assert data[0..4] == Grey(0) && data[4..8] == Grey(2) && data[8..12] == Grey(4);
    SimilarTripleRow(data, 0, 2, 4);
  }

  /** The three pixels 0, 2 and 1 form one region. Each join rescales the
      accumulator and adds the new sample, here 0, then 2 * (0 + 2) = 4,
      then 4 * 3 / 2 + 1 * 3 = 9: three times the sum, not the mean 1. */
  lemma {:induction false} ThreePixelRegion(data: seq<Byte>)
    requires data == [0, 0, 0, 255, 2, 2, 2, 255, 1, 1, 1, 255]
    ensures Segmented(data, 3) == [9, 9, 9, 255, 9, 9, 9, 255, 9, 9, 9, 255]
  {
    assert data[0..4] == Grey(0) && data[4..8] == Grey(2) && data[8..12] == Grey(1);
    SimilarTripleRow(data, 0, 2, 1);
  }

  /** A two-by-two image of shade 10 is painted 40 everywhere: two regions
      of two. One region of four would have been painted 4 * 40 = 160. */
  lemma {:induction false} UniformTwoByTwo(data: seq<Byte>)
    requires data == [10, 10, 10, 255, 10, 10, 10, 255, 10, 10, 10, 255, 10, 10, 10, 255]
    ensures Segmented(data, 2) == [40, 40, 40, 255, 40, 40, 40, 255, 40, 40, 40, 255, 40, 40, 40, 255]
  {
    assert data[0..4] == Grey(10) && data[4..8] == Grey(10);
    assert data[8..12] == Grey(10) && data[12..16] == Grey(10);
    UniformSquare(data, 10);
  }

  /** The threshold is strict: shades 3 apart are not similar. */
  lemma {:induction false} ThresholdIsStrict(data: seq<Byte>)
    requires data == [0, 0, 0, 255, 3, 3, 3, 255]
    ensures Segmented(data, 2) == data
  {
    assert data[0..4] == Grey(0) && data[4..8] == Grey(3);
    GreySimilar(data, 0, 4, 0, 3);
    DissimilarPairRow(data);
  }

  /** A pixel that does not continue to the right is a region of its own and
      is stored unchanged. */
  lemma {:induction false} SingletonRegion(data: seq<Byte>, width: nat, s: int)
    requires width > 0 && |data| % 4 == 0 && IsPixel(data, s) && !Continues(data, width, s)
    ensures (s + 4) % 4 == 0
    ensures SegmentFrom(data, width, s) == data[s .. s + 4] + SegmentFrom(data, width, s + 4)
  {
    SegmentFromStep(data, width, s);
    assert Run(data, width, s) == [s];
    var c := Aggregate(data, [s]);
    AggregateOfSingleton(data, s);
    forall ch | 0 <= ch < 4 ensures ClampByte(c[ch]) == data[s + ch] {
      ClampByteKeepsBytes(data[s + ch]);
    }
    assert Finalize(c) == data[s .. s + 4];
    assert Block(Finalize(c), 1) == Block(Finalize(c), 0) + Finalize(c);
  }

  /** A pixel that continues to the right into a pixel that does not forms a
      region of two. */
  lemma {:induction false} PairRegion(data: seq<Byte>, width: nat, s: int)
    requires width > 0 && |data| % 4 == 0 && IsPixel(data, s)
    requires Continues(data, width, s) && !Continues(data, width, s + 4)
    ensures (s + 8) % 4 == 0 && s + 8 <= |data|
    ensures SegmentFrom(data, width, s) ==
              Block(Finalize(Aggregate(data, [s, s + 4])), 2) + SegmentFrom(data, width, s + 8)
  {
    SegmentFromStep(data, width, s);
    assert Run(data, width, s) == [s, s + 4];
  }

  /** Three pixels in a row, each continuing into the next, the last one
      continuing no further, form a region of three. */
  lemma {:induction false} TripleRegion(data: seq<Byte>, width: nat, s: int)
    requires width > 0 && |data| % 4 == 0 && IsPixel(data, s)
    requires Continues(data, width, s) && Continues(data, width, s + 4) && !Continues(data, width, s + 8)
    ensures (s + 12) % 4 == 0 && s + 12 <= |data|
    ensures SegmentFrom(data, width, s) ==
              Block(Finalize(Aggregate(data, [s, s + 4, s + 8])), 3) + SegmentFrom(data, width, s + 12)
  {
    SegmentFromStep(data, width, s);
    assert Run(data, width, s) == [s, s + 4, s + 8];
  }

  /** The accumulator of a region of two is twice each channel's sum. */
  lemma {:induction false} PairColour(data: seq<Byte>, a: int, b: int)
    requires InBuffer(data, a) && InBuffer(data, b)
    ensures AllInBuffer(data, [a, b])
    ensures forall ch :: 0 <= ch < 4 ==>
              Aggregate(data, [a, b])[ch] == 2.0 * (data[a + ch] as real + data[b + ch] as real)
  {
    forall ch | 0 <= ch < 4
      ensures Aggregate(data, [a, b])[ch] == 2.0 * (data[a + ch] as real + data[b + ch] as real)
    {
      SumOfTwo(data, a, b, ch);
      AggregateIsScaledSum(data, [a, b], ch);
    }
  }

  /** The accumulator of a region of three is three times each channel's sum. */
  lemma {:induction false} TripleColour(data: seq<Byte>, a: int, b: int, c: int)
    requires InBuffer(data, a) && InBuffer(data, b) && InBuffer(data, c)
    ensures AllInBuffer(data, [a, b, c])
    ensures forall ch :: 0 <= ch < 4 ==>
              Aggregate(data, [a, b, c])[ch] == 3.0 * (data[a + ch] as real + data[b + ch] as real + data[c + ch] as real)
  {
    forall ch | 0 <= ch < 4
      ensures Aggregate(data, [a, b, c])[ch] == 3.0 * (data[a + ch] as real + data[b + ch] as real + data[c + ch] as real)
    {
      SumOfThree(data, a, b, c, ch);
      AggregateIsScaledSum(data, [a, b, c], ch);
    }
  }

  lemma {:induction false} SumOfTwo(data: seq<Byte>, a: int, b: int, ch: int)
    requires InBuffer(data, a) && InBuffer(data, b) && 0 <= ch < 4
    ensures AllInBuffer(data, [a, b])
    ensures ChannelSum(data, [a, b], ch) == data[a + ch] as real + data[b + ch] as real
  {
    assert [a, b][..1] == [a] && [a][..0] == [];
    assert ChannelSum(data, [a], ch) == data[a + ch] as real;
  }

  lemma {:induction false} SumOfThree(data: seq<Byte>, a: int, b: int, c: int, ch: int)
    requires InBuffer(data, a) && InBuffer(data, b) && InBuffer(data, c) && 0 <= ch < 4
    ensures AllInBuffer(data, [a, b, c])
    ensures ChannelSum(data, [a, b, c], ch) == data[a + ch] as real + data[b + ch] as real + data[c + ch] as real
  {
    assert [a, b, c][..2] == [a, b];
    SumOfTwo(data, a, b, ch);
  }

  /** An opaque grey pixel. */
  function Grey(v: Byte): (p: seq<Byte>)
    ensures |p| == 4 && p[0] == p[1] == p[2] == v && p[3] == 255
  {
    [v, v, v, 255]
  }

  /** The channels of an opaque grey pixel at `a`. */
  lemma {:induction false} GreyChannels(data: seq<Byte>, a: int, x: Byte)
    requires InBuffer(data, a) && data[a .. a + 4] == Grey(x)
    ensures data[a] == x && data[a + 1] == x && data[a + 2] == x && data[a + 3] == 255
  {
    assert data[a] == data[a .. a + 4][0] && data[a + 1] == data[a .. a + 4][1];
    assert data[a + 2] == data[a .. a + 4][2] && data[a + 3] == data[a .. a + 4][3];
  }

  /** A region of two opaque grey pixels whose scaled sum is a byte is
      stored as that grey. */
  lemma {:induction false} GreyPair(data: seq<Byte>, a: int, b: int, x: Byte, y: Byte)
    requires InBuffer(data, a) && InBuffer(data, b)
    requires data[a .. a + 4] == Grey(x) && data[b .. b + 4] == Grey(y)
    requires 2 * (x + y) < 256
    ensures AllInBuffer(data, [a, b])
    ensures Finalize(Aggregate(data, [a, b])) == Grey(2 * (x + y))
  {
    PairColour(data, a, b);
    GreyChannels(data, a, x);
    GreyChannels(data, b, y);
    FinalizeGrey(Aggregate(data, [a, b]), 2 * (x + y));
  }

  /** Two opaque grey pixels are similar exactly when their shades differ by
      less than the threshold. */
  lemma {:induction false} GreySimilar(data: seq<Byte>, a: int, b: int, x: Byte, y: Byte)
    requires InBuffer(data, a) && InBuffer(data, b)
    requires data[a .. a + 4] == Grey(x) && data[b .. b + 4] == Grey(y)
    ensures Similar(data, a, b) <==> Abs(x - y) < Threshold
  {
    GreyChannels(data, a, x);
    GreyChannels(data, b, y);
  }

  /** A region of three opaque grey pixels whose scaled sum is a byte is
      stored as that grey. */
  lemma {:induction false} GreyTriple(data: seq<Byte>, a: int, b: int, c: int, x: Byte, y: Byte, z: Byte)
    requires InBuffer(data, a) && InBuffer(data, b) && InBuffer(data, c)
    requires data[a .. a + 4] == Grey(x) && data[b .. b + 4] == Grey(y) && data[c .. c + 4] == Grey(z)
    requires 3 * (x + y + z) < 256
    ensures AllInBuffer(data, [a, b, c])
    ensures Finalize(Aggregate(data, [a, b, c])) == Grey(3 * (x + y + z))
  {
    TripleColour(data, a, b, c);
    GreyChannels(data, a, x);
    GreyChannels(data, b, y);
    GreyChannels(data, c, z);
    FinalizeGrey(Aggregate(data, [a, b, c]), 3 * (x + y + z));
  }

  /** An accumulator with three equal colour channels that are bytes and an
      alpha channel at or above 255 is stored as that grey, opaque. */
  lemma {:induction false} FinalizeGrey(c: seq<real>, v: Byte)
    requires |c| == 4 && c[0] == c[1] == c[2] == v as real && c[3] >= 255.0
    ensures Finalize(c) == [v, v, v, 255]
  {
    ClampByteKeepsBytes(v);
  }

  lemma {:induction false} BlockTwice(c: seq<Byte>)
    requires |c| == 4
    ensures Block(c, 2) == c + c
  {
    assert Block(c, 1) == Block(c, 0) + c;
  }

  lemma {:induction false} BlockThrice(c: seq<Byte>)
    requires |c| == 4
    ensures Block(c, 3) == c + c + c
  {
    BlockTwice(c);
  }
}
