/** A reference description of the regions `processImageData` (index.js:123-144)
    finds. The driver seeds a region at the lowest unvisited index, and at
    that moment every lower index is visited; the up and left neighbours of
    the region's pixels are then always visited already, and the down branch
    never links two pixels. So every region is a horizontal run: the seed and
    the pixels to its right, for as long as each is similar to the one before
    and no row boundary is crossed. This module defines that segmentation
    without any traversal; the flood fill is proved to produce it. */
module Runs {
  import opened Pixels
  import opened Accumulator

  /** Bytes per row of the image (`indexWidth = width * 4`). */
  function RowBytes(width: nat): nat {
    width * 4
  }

  /** The rightward step of index.js:114-116 is taken at pixel `s`: `s` is not
      the last pixel of its row and the next pixel is similar. */
  predicate Continues(data: seq<Byte>, width: nat, s: int)
    requires width > 0
  {
    Rem(s + 4, RowBytes(width)) != 0 && Similar(data, s, s + 4)
  }

  /** The number of pixels in the run that starts at `s`. */
  function RunLength(data: seq<Byte>, width: nat, s: int): (k: nat)
    requires width > 0 && IsPixel(data, s)
    ensures k >= 1 && s + 4 * k <= |data|
    decreases |data| - s
  {
    if Continues(data, width, s) then 1 + RunLength(data, width, s + 4) else 1
  }

  /** The pixel indices of the run that starts at `s`, left to right. */
  function Run(data: seq<Byte>, width: nat, s: int): (r: seq<int>)
    requires width > 0 && IsPixel(data, s)
    ensures |r| == RunLength(data, width, s)
    ensures forall j :: 0 <= j < |r| ==> r[j] == s + 4 * j
    decreases |data| - s
  {
    if Continues(data, width, s) then [s] + Run(data, width, s + 4) else [s]
  }

  /** The stride-4 indices from `s` to the end of the buffer, ascending. */
  function PixelsFrom(data: seq<Byte>, s: int): (r: seq<int>)
    requires 0 <= s <= |data| && s % 4 == 0 && |data| % 4 == 0
    ensures |r| == (|data| - s) / 4
    ensures forall j :: 0 <= j < |r| ==> r[j] == s + 4 * j
    decreases |data| - s
  {
    if s == |data| then [] else [s] + PixelsFrom(data, s + 4)
  }

  /** The regions found by a scan that starts at `s`, in the order they are
      seeded. */
  function Regions(data: seq<Byte>, width: nat, s: int): seq<seq<int>>
    requires width > 0 && 0 <= s <= |data| && s % 4 == 0 && |data| % 4 == 0
    decreases |data| - s
  {
    if s == |data| then []
    else [Run(data, width, s)] + Regions(data, width, s + 4 * RunLength(data, width, s))
  }

  /** The four bytes a region's final accumulator is stored as. */
  function Finalize(color: seq<real>): (c: seq<Byte>)
    requires |color| == 4
    ensures |c| == 4
  {
    [ClampByte(color[0]), ClampByte(color[1]),
     ClampByte(color[2]), ClampByte(color[3])]
  }

  /** `k` copies of the four bytes `c`. */
  function Block(c: seq<Byte>, k: nat): (r: seq<Byte>)
    requires |c| == 4
    ensures |r| == 4 * k
  {
    if k == 0 then [] else Block(c, k - 1) + c
  }

  /** The output bytes from offset `s` on: each run's pixels all hold that
      run's finalized colour. */
  function SegmentFrom(data: seq<Byte>, width: nat, s: int): (out: seq<Byte>)
    requires width > 0 && 0 <= s <= |data| && s % 4 == 0 && |data| % 4 == 0
    ensures |out| == |data| - s
    decreases |data| - s
  {
    if s == |data| then []
    else RunBlock(data, width, s) + SegmentFrom(data, width, s + 4 * RunLength(data, width, s))
  }

  /** The output bytes of the run at `s`: its finalized accumulator, once
      for every pixel of the run. */
  function RunBlock(data: seq<Byte>, width: nat, s: int): (b: seq<Byte>)
    requires width > 0 && IsPixel(data, s)
    ensures |b| == 4 * RunLength(data, width, s)
  {
    Block(Finalize(Aggregate(data, Run(data, width, s))), RunLength(data, width, s))
  }

  /** The whole output buffer. */
  function Segmented(data: seq<Byte>, width: nat): seq<Byte>
    requires width > 0 && |data| % 4 == 0
  {
    SegmentFrom(data, width, 0)
  }

  /** Concatenation of a sequence of regions. */
  function Concat(rs: seq<seq<int>>): seq<int> {
    if rs == [] then [] else rs[0] + Concat(rs[1..])
  }

  // ---------------------------------------------------------------------
  // Properties of the reference segmentation
  // ---------------------------------------------------------------------

  /** The output buffer has exactly as many bytes as the input. */
  lemma {:induction false} SegmentedLength(data: seq<Byte>, width: nat)
    requires width > 0 && |data| % 4 == 0
    ensures |Segmented(data, width)| == |data|
  {
  }

  /** `r` is consecutive pixels of one row, each similar to the one before,
      and the pixel after the last one does not continue it. */
  ghost predicate IsRun(data: seq<Byte>, width: nat, r: seq<int>)
    requires width > 0
  {
    && r != []
    && (forall j {:trigger Linked(data, width, r, j)} :: 0 < j < |r| ==> Linked(data, width, r, j))
    && !Continues(data, width, r[|r| - 1])
  }

  /** Position `j` of `r` is the pixel right of position `j - 1`, in the same
      row, and similar to it. */
  ghost predicate Linked(data: seq<Byte>, width: nat, r: seq<int>, j: int)
    requires width > 0 && 0 < j < |r|
  {
    r[j] == r[j - 1] + 4 && Rem(r[j], RowBytes(width)) != 0 && Similar(data, r[j - 1], r[j])
  }

  /** A run is consecutive pixels of one row, each similar to the one before,
      and it cannot be extended to the right. */
  lemma {:induction false} RunShape(data: seq<Byte>, width: nat, s: int)
    requires width > 0 && IsPixel(data, s)
    ensures IsRun(data, width, Run(data, width, s)) && Run(data, width, s)[0] == s
    decreases |data| - s
  {
    if Continues(data, width, s) {
      RunShape(data, width, s + 4);
      var r, t := Run(data, width, s), Run(data, width, s + 4);
      assert r == [s] + t;
      forall j | 0 < j < |r|
        ensures Linked(data, width, r, j)
      {
        if j > 1 {
          assert Linked(data, width, t, j - 1);
          assert r[j - 1] == t[j - 2] && r[j] == t[j - 1];
        }
      }
      assert r[|r| - 1] == t[|t| - 1];
    }
  }

  /** The `j`-th pixel of the run at `s` is `s + 4 * j`; it continues the run
      exactly when it is not the last one, and its offset within the row is
      `j` pixels past that of `s`. */
  lemma {:induction false} RunPixel(data: seq<Byte>, width: nat, s: int, j: int)
    requires width > 0 && IsPixel(data, s) && 0 <= j < RunLength(data, width, s)
    ensures IsPixel(data, s + 4 * j)
    ensures Continues(data, width, s + 4 * j) <==> j + 1 < RunLength(data, width, s)
    ensures Rem(s + 4 * j, RowBytes(width)) == Rem(s, RowBytes(width)) + 4 * j
    decreases |data| - s
  {
    if j > 0 {
      RunPixel(data, width, s + 4, j - 1);
      RemStride(s, RowBytes(width));
      assert s + 4 + 4 * (j - 1) == s + 4 * j;
    }
  }

  /** A run never leaves the row of its first pixel. */
  lemma {:induction false} RunInRow(data: seq<Byte>, width: nat, s: int)
    requires width > 0 && IsPixel(data, s)
    ensures Rem(s, RowBytes(width)) + 4 * RunLength(data, width, s) <= RowBytes(width)
    decreases |data| - s
  {
    RemStride(s, RowBytes(width));
    if Continues(data, width, s) {
      RunInRow(data, width, s + 4);
    }
  }

  /** The pixels from `s` on split into the run at `s` and the pixels after it. */
  lemma {:induction false} RunThenRest(data: seq<Byte>, width: nat, s: int)
    requires width > 0 && IsPixel(data, s) && |data| % 4 == 0
    ensures PixelsFrom(data, s) == Run(data, width, s) + PixelsFrom(data, s + 4 * RunLength(data, width, s))
    decreases |data| - s
  {
    if Continues(data, width, s) {
      RunThenRest(data, width, s + 4);
    }
  }

  /** Coverage: laid end to end, the regions of a scan from `s` list every
      stride-4 index from `s` on, each exactly once and in ascending order. */
  lemma {:induction false} RegionsCover(data: seq<Byte>, width: nat, s: int)
    requires width > 0 && 0 <= s <= |data| && s % 4 == 0 && |data| % 4 == 0
    ensures Concat(Regions(data, width, s)) == PixelsFrom(data, s)
    decreases |data| - s
  {
    if s < |data| {
      var k := RunLength(data, width, s);
      RegionsCover(data, width, s + 4 * k);
      RunThenRest(data, width, s);
      var rs := Regions(data, width, s);
      assert rs[1..] == Regions(data, width, s + 4 * k);
    }
  }

  /** The members of the run at `s` are the stride-4 indices
      `s, s + 4, ..., s + 4 * (k - 1)`. */
  lemma {:induction false} RunMember(data: seq<Byte>, width: nat, s: int, p: int)
    requires width > 0 && IsPixel(data, s)
    ensures p in Run(data, width, s) <==> p % 4 == 0 && s <= p < s + 4 * RunLength(data, width, s)
  {
    var r := Run(data, width, s);
    if p in r {
      var j :| 0 <= j < |r| && r[j] == p;
      StrideAdd(s, j, p);
    }
    if p % 4 == 0 && s <= p < s + 4 * RunLength(data, width, s) {
      var j := (p - s) / 4;
      assert p == s + 4 * j;
      assert r[j] == p;
    }
  }

  /** Every member of every region in `rs` is a pixel at or after `s`. */
  ghost predicate PixelsAtOrAfter(data: seq<Byte>, rs: seq<seq<int>>, s: int) {
    forall r, q :: 0 <= r < |rs| && 0 <= q < |rs[r]| ==> IsPixel(data, rs[r][q]) && s <= rs[r][q]
  }

  /** Every member of a region of the scan from `s` is a pixel at or after `s`. */
  lemma {:induction false} RegionsBounds(data: seq<Byte>, width: nat, s: int)
    requires width > 0 && 0 <= s <= |data| && s % 4 == 0 && |data| % 4 == 0
    ensures PixelsAtOrAfter(data, Regions(data, width, s), s)
    decreases |data| - s
  {
    if s < |data| {
      var k := RunLength(data, width, s);
      var rs, rest := Regions(data, width, s), Regions(data, width, s + 4 * k);
      RegionsBounds(data, width, s + 4 * k);
      assert rs == [Run(data, width, s)] + rest;
      RunBounds(data, width, s);
      PixelsAtOrAfterCons(data, Run(data, width, s), rest, s, s + 4 * k);
    }
  }

  /** The members of the run at `s` are pixels in `s .. s + 4 * k - 1`. */
  lemma {:induction false} RunBounds(data: seq<Byte>, width: nat, s: int)
    requires width > 0 && IsPixel(data, s)
    ensures forall q :: 0 <= q < |Run(data, width, s)| ==>
              IsPixel(data, Run(data, width, s)[q]) && s <= Run(data, width, s)[q] < s + 4 * RunLength(data, width, s)
  {
  }

  lemma {:induction false} PixelsAtOrAfterCons(data: seq<Byte>, first: seq<int>, rest: seq<seq<int>>, s: int, s': int)
    requires forall q :: 0 <= q < |first| ==> IsPixel(data, first[q]) && s <= first[q]
    requires PixelsAtOrAfter(data, rest, s') && s <= s'
    ensures PixelsAtOrAfter(data, [first] + rest, s)
  {
    var rs := [first] + rest;
    forall r, q | 0 <= r < |rs| && 0 <= q < |rs[r]|
      ensures IsPixel(data, rs[r][q]) && s <= rs[r][q]
    {
      if r > 0 { assert rs[r] == rest[r - 1]; }
    }
  }

  /** `p` is a member of exactly one of the regions `rs`. */
  ghost predicate InExactlyOne(rs: seq<seq<int>>, p: int) {
    && (exists r :: 0 <= r < |rs| && p in rs[r])
    && (forall r1, r2 :: 0 <= r1 < |rs| && 0 <= r2 < |rs| && p in rs[r1] && p in rs[r2] ==> r1 == r2)
  }

  /** Every pixel lies in exactly one region. */
  lemma {:induction false} RegionsPartition(data: seq<Byte>, width: nat, s: int, p: int)
    requires width > 0 && 0 <= s <= |data| && s % 4 == 0 && |data| % 4 == 0
    requires IsPixel(data, p) && s <= p
    ensures InExactlyOne(Regions(data, width, s), p)
    decreases |data| - s
  {
    var k := RunLength(data, width, s);
    var rs, rest := Regions(data, width, s), Regions(data, width, s + 4 * k);
    assert rs == [Run(data, width, s)] + rest;
    RegionsBounds(data, width, s + 4 * k);
    RunMember(data, width, s, p);
    if p < s + 4 * k {
      assert p in rs[0];
      forall r | 0 < r < |rs| ensures p !in rs[r] {
        assert rs[r] == rest[r - 1];
        forall q | 0 <= q < |rs[r]| ensures rs[r][q] != p {
          assert rs[r][q] == rest[r - 1][q];
        }
      }
      forall r1, r2 | 0 <= r1 < |rs| && 0 <= r2 < |rs| && p in rs[r1] && p in rs[r2]
        ensures r1 == r2
      {
        assert r1 == 0 && r2 == 0;
      }
    } else {
      RegionsPartition(data, width, s + 4 * k, p);
      var r :| 0 <= r < |rest| && p in rest[r];
      assert rs[r + 1] == rest[r];
      forall r1, r2 | 0 <= r1 < |rs| && 0 <= r2 < |rs| && p in rs[r1] && p in rs[r2]
        ensures r1 == r2
      {
        assert r1 > 0 && r2 > 0;
        assert rs[r1] == rest[r1 - 1] && rs[r2] == rest[r2 - 1];
      }
    }
  }

  /** `out` holds the bytes from offset `s` on, and at every member `p` of
      the region `r` the four bytes `p .. p + 3` are `c`. */
  ghost predicate RegionPainted(r: seq<int>, out: seq<Byte>, s: int, c: seq<Byte>) {
    forall q :: 0 <= q < |r| ==> s <= r[q] && r[q] - s + 4 <= |out| && out[r[q] - s .. r[q] - s + 4] == c
  }

  /** Every region of `rs` is a nonempty sequence of pixels painted with its own
      finalized accumulator. */
  ghost predicate Painted(data: seq<Byte>, rs: seq<seq<int>>, out: seq<Byte>, s: int)
  {
    forall r :: 0 <= r < |rs| ==>
      && rs[r] != [] && AllInBuffer(data, rs[r])
      && RegionPainted(rs[r], out, s, Finalize(Aggregate(data, rs[r])))
  }

  /** Uniform colour: at every member `p` of a region, the four output bytes
      `p .. p + 3` hold the region's finalized accumulator. */
  lemma {:induction false} RegionsPainted(data: seq<Byte>, width: nat, s: int)
    requires width > 0 && 0 <= s <= |data| && s % 4 == 0 && |data| % 4 == 0
    ensures Painted(data, Regions(data, width, s), SegmentFrom(data, width, s), s)
    decreases |data| - s
  {
    if s < |data| {
      var s' := s + 4 * RunLength(data, width, s);
      RegionsStep(data, width, s);
      SegmentFromStep(data, width, s);
      RegionsPainted(data, width, s');
      RunBounds(data, width, s);
      PaintedCons(data, Run(data, width, s), Regions(data, width, s'), RunBlock(data, width, s),
                  SegmentFrom(data, width, s'), s, s');
    }
  }

  /** Coverage, partition and uniform colour of the regions of the whole
      buffer, painted into the whole output. */
  lemma {:induction false} RegionsFacts(data: seq<Byte>, width: nat, rs: seq<seq<int>>, out: seq<Byte>)
    requires width > 0 && |data| % 4 == 0
    requires rs == Regions(data, width, 0) && out == Segmented(data, width)
    ensures Concat(rs) == PixelsFrom(data, 0)
    ensures forall p :: IsPixel(data, p) ==> InExactlyOne(rs, p)
    ensures Painted(data, rs, out, 0)
  {
    RegionsCover(data, width, 0);
    RegionsPainted(data, width, 0);
    forall p | IsPixel(data, p) ensures InExactlyOne(rs, p) {
      RegionsPartition(data, width, 0, p);
    }
  }

  /** The scan from pixel `s` seeds the run at `s` first and goes on after it. */
  lemma {:induction false} RegionsStep(data: seq<Byte>, width: nat, s: int)
    requires width > 0 && |data| % 4 == 0 && IsPixel(data, s)
    ensures (s + 4 * RunLength(data, width, s)) % 4 == 0
    ensures Regions(data, width, s) == [Run(data, width, s)] + Regions(data, width, s + 4 * RunLength(data, width, s))
  {
    StrideAdd(s, RunLength(data, width, s), s + 4 * RunLength(data, width, s));
  }

  /** The reference output from a pixel `s` on is the block of the run at
      `s`, painted with that run's finalized accumulator, followed by the
      output from the end of the run on. */
  lemma {:induction false} SegmentFromStep(data: seq<Byte>, width: nat, s: int)
    requires width > 0 && |data| % 4 == 0 && IsPixel(data, s)
    ensures (s + 4 * RunLength(data, width, s)) % 4 == 0
    ensures SegmentFrom(data, width, s) == RunBlock(data, width, s) + SegmentFrom(data, width, s + 4 * RunLength(data, width, s))
  {
    StrideAdd(s, RunLength(data, width, s), s + 4 * RunLength(data, width, s));
  }

  /** `SegmentFromStep` with the run at `s`, its accumulator and its end
      given by name. */
  lemma {:induction false} RunOutput(data: seq<Byte>, width: nat, s: int, members: seq<int>, color: seq<real>, end: int)
    requires width > 0 && |data| % 4 == 0 && IsPixel(data, s)
    requires members == Run(data, width, s) && color == Aggregate(data, members)
    requires end == s + 4 * |members|
    ensures |color| == 4 && end == s + 4 * RunLength(data, width, s)
    ensures s < end <= |data| && end % 4 == 0
    ensures SegmentFrom(data, width, s) == Block(Finalize(color), |members|) + SegmentFrom(data, width, end)
  {
    assert |members| == RunLength(data, width, s);
    SegmentFromStep(data, width, s);
  }

  /** `RegionsStep` with the run at `s` and its end given by name. */
  lemma {:induction false} RunRegion(data: seq<Byte>, width: nat, s: int, members: seq<int>, end: int)
    requires width > 0 && |data| % 4 == 0 && IsPixel(data, s)
    requires members == Run(data, width, s) && end == s + 4 * |members|
    ensures s < end <= |data| && end % 4 == 0
    ensures Regions(data, width, s) == [members] + Regions(data, width, end)
  {
    assert |members| == RunLength(data, width, s);
    RegionsStep(data, width, s);
  }

  /** A run painted with its own colour in front of painted regions. */
  lemma {:induction false} PaintedCons(data: seq<Byte>, first: seq<int>, rest: seq<seq<int>>, block: seq<Byte>,
                    tail: seq<Byte>, s: int, s': int)
    requires first != [] && AllInBuffer(data, first) && s' == s + |block|
    requires forall q :: 0 <= q < |first| ==> first[q] == s + 4 * q
    requires block == Block(Finalize(Aggregate(data, first)), |first|)
    requires Painted(data, rest, tail, s')
    ensures Painted(data, [first] + rest, block + tail, s)
  {
    var rs := [first] + rest;
    BlockPainted(first, block, tail, s, Finalize(Aggregate(data, first)));
    forall r | 0 < r < |rs|
      ensures RegionPainted(rs[r], block + tail, s, Finalize(Aggregate(data, rs[r])))
    {
      assert rs[r] == rest[r - 1];
      ShiftPainted(rs[r], block, tail, s, s', Finalize(Aggregate(data, rs[r])));
    }
  }

  /** A run of pixels `s, s + 4, ...` is painted by a block of its colour. */
  lemma {:induction false} BlockPainted(r: seq<int>, block: seq<Byte>, tail: seq<Byte>, s: int, c: seq<Byte>)
    requires |c| == 4 && block == Block(c, |r|)
    requires forall q :: 0 <= q < |r| ==> r[q] == s + 4 * q
    ensures RegionPainted(r, block + tail, s, c)
  {
    forall q | 0 <= q < |r|
      ensures s <= r[q] && r[q] - s + 4 <= |block + tail| && (block + tail)[r[q] - s .. r[q] - s + 4] == c
    {
      BlockCell(c, |r|, tail, q);
    }
  }

  /** The `q`-th four bytes of a block are its colour. */
  lemma {:induction false} BlockCell(c: seq<Byte>, k: nat, tail: seq<Byte>, q: int)
    requires |c| == 4 && 0 <= q < k
    ensures 4 * q + 4 <= |Block(c, k) + tail| && (Block(c, k) + tail)[4 * q .. 4 * q + 4] == c
  {
    var block := Block(c, k);
    BlockAt(c, k, q);
    assert (block + tail)[4 * q .. 4 * q + 4] == block[4 * q .. 4 * q + 4];
  }

  /** The `q`-th four bytes of `Block(c, k)` are `c`. */
  lemma {:induction false} BlockAt(c: seq<Byte>, k: nat, q: int)
    requires |c| == 4 && 0 <= q < k
    ensures Block(c, k)[4 * q .. 4 * q + 4] == c
    decreases k
  {
    var prev := Block(c, k - 1);
    assert Block(c, k) == prev + c;
    if q == k - 1 {
      assert (prev + c)[4 * q .. 4 * q + 4] == c;
    } else {
      BlockAt(c, k - 1, q);
      assert (prev + c)[4 * q .. 4 * q + 4] == prev[4 * q .. 4 * q + 4];
    }
  }

  /** Painting survives putting `block` in front of the bytes. */
  lemma {:induction false} ShiftPainted(r: seq<int>, block: seq<Byte>, tail: seq<Byte>, s: int, s': int, c: seq<Byte>)
    requires s' == s + |block| && RegionPainted(r, tail, s', c)
    ensures RegionPainted(r, block + tail, s, c)
  {
    var out := block + tail;
    forall q | 0 <= q < |r|
      ensures s <= r[q] && r[q] - s + 4 <= |out| && out[r[q] - s .. r[q] - s + 4] == c
    {
      var x := r[q] - s';
      assert out[x + |block| .. x + |block| + 4] == tail[x .. x + 4];
    }
  }
}
