/** The flood fill `averageSimilarNeighbors` (index.js:81-121) and the driver
    `processImageData` (index.js:123-144). */
module Segmentation {
  import opened Pixels
  import opened Accumulator
  import opened Runs

  // ---------------------------------------------------------------------
  // The four recursive steps of the flood fill
  // ---------------------------------------------------------------------

  /** The upward step (index.js:106-108): `i` is not in the top row
      (`Math.floor(i / indexWidth) !== 0`) and the pixel above is similar. */
  predicate UpStep(data: seq<Byte>, width: nat, i: int)
    requires width > 0
  {
    Quot(i, RowBytes(width)) != 0 && Similar(data, i, i - RowBytes(width))
  }

  /** The leftward step (index.js:110-112): `i` does not start its row and the
      pixel to its left is similar. */
  predicate LeftStep(data: seq<Byte>, width: nat, i: int)
    requires width > 0
  {
    Rem(i, RowBytes(width)) != 0 && Similar(data, i, i - 4)
  }

  /** The downward step (index.js:118-120), guarded as written by
      `!isBottomMost` with `isBottomMost = i + indexWidth < indexSize`. */
  predicate DownStep(data: seq<Byte>, width: nat, i: int)
    requires width > 0
  {
    !(i + RowBytes(width) < |data|) && Similar(data, i, i + RowBytes(width))
  }

  /** The visit at `i` recurses into `j`; the rightward step is `Continues`. */
  predicate Step(data: seq<Byte>, width: nat, i: int, j: int)
    requires width > 0
  {
    || (UpStep(data, width, i) && j == i - RowBytes(width))
    || (LeftStep(data, width, i) && j == i - 4)
    || (Continues(data, width, i) && j == i + 4)
    || (DownStep(data, width, i) && j == i + RowBytes(width))
  }

  /** The guard of the downward step only lets through pixels whose lower
      neighbour lies past the end of the buffer, where `isSimilar` is false:
      the flood fill never moves down. */
  lemma {:induction false} DownStepNever(data: seq<Byte>, width: nat, i: int)
    requires width > 0
    ensures !DownStep(data, width, i)
  {
    if !(i + RowBytes(width) < |data|) {
      assert !ChannelClose(data, i, i + RowBytes(width));
    }
  }

  /** Every step leads from a pixel to a pixel. */
  lemma {:induction false} StepToPixel(data: seq<Byte>, width: nat, i: int, j: int)
    requires width > 0 && IsPixel(data, i) && Step(data, width, i, j)
    ensures IsPixel(data, j)
  {
    DownStepNever(data, width, i);
    assert RowBytes(width) % 4 == 0;
  }

  /** In a buffer of whole rows, the edge tests of index.js:101-103 keep the
      upward, leftward and rightward reads of index.js:106-116 inside the
      buffer: a pixel not in the top row has a pixel above it, one that does
      not start its row has a pixel to its left, and one that does not end
      its row has a pixel to its right. */
  lemma {:induction false} GuardsInBounds(data: seq<Byte>, width: nat, i: int)
    requires width > 0 && |data| % 4 == 0 && |data| % RowBytes(width) == 0 && IsPixel(data, i)
    ensures Quot(i, RowBytes(width)) != 0 ==> IsPixel(data, i - RowBytes(width))
    ensures Rem(i, RowBytes(width)) != 0 ==> IsPixel(data, i - 4)
    ensures Rem(i + 4, RowBytes(width)) != 0 ==> IsPixel(data, i + 4)
  {
    UpGuardInBounds(data, width, i);
    LeftGuardInBounds(data, width, i);
    RightGuardInBounds(data, width, i);
  }

  lemma {:induction false} UpGuardInBounds(data: seq<Byte>, width: nat, i: int)
    requires width > 0 && IsPixel(data, i)
    ensures Quot(i, RowBytes(width)) != 0 ==> IsPixel(data, i - RowBytes(width))
  {
    var m, q := RowBytes(width), Quot(i, RowBytes(width));
    QuotRemBounds(i, m);
    if q < 0 {
      MulGap(m, q, 0);
    } else if q > 0 {
      MulGap(m, 0, q);
      StrideAdd(i, -(width as int), i - m);
    }
  }

  lemma {:induction false} LeftGuardInBounds(data: seq<Byte>, width: nat, i: int)
    requires width > 0 && IsPixel(data, i)
    ensures Rem(i, RowBytes(width)) != 0 ==> IsPixel(data, i - 4)
  {
    if i == 0 {
      assert Rem(0, RowBytes(width)) == 0;
    } else {
      StrideGap(0, i);
      StrideAdd(i, -1, i - 4);
    }
  }

  lemma {:induction false} RightGuardInBounds(data: seq<Byte>, width: nat, i: int)
    requires width > 0 && |data| % 4 == 0 && |data| % RowBytes(width) == 0 && IsPixel(data, i)
    ensures Rem(i + 4, RowBytes(width)) != 0 ==> IsPixel(data, i + 4)
  {
    StrideAdd(i, 1, i + 4);
    if i + 4 == |data| {
      QuotRemMatch(i + 4, RowBytes(width));
    } else {
      StrideGap(i + 4, |data|);
    }
  }

  /** Without whole rows the rightward test does not keep the read inside
      the buffer: in a buffer of one pixel with rows two pixels wide, the
      only pixel does not end its row, yet nothing lies to its right (the
      read then gives `undefined` and `isSimilar` is false). */
  lemma {:induction false} RightGuardPartialRow(data: seq<Byte>)
    requires |data| == 4
    ensures IsPixel(data, 0) && Rem(0 + 4, RowBytes(2)) != 0 && !InBuffer(data, 0 + 4)
    ensures !Similar(data, 0, 0 + 4)
  {
    assert Rem(4, 8) == 4;
  }

  // ---------------------------------------------------------------------
  // What one visit does to `hits` and `set`
  // ---------------------------------------------------------------------

  /** The indices not yet visited. */
  ghost function Unvisited(h: seq<bool>): set<int> {
    set k | 0 <= k < |h| && !h[k]
  }

  /** From `(h0, m0)` to `(h1, m1)` the members only grew at the end, the
      indices that became visited are exactly the new members, each new member
      was unvisited before, and no index joined twice. */
  ghost predicate Extends(h0: seq<bool>, m0: seq<int>, h1: seq<bool>, m1: seq<int>) {
    && |h1| == |h0| && m0 <= m1
    && (forall k {:trigger MarkedAt(h0, h1, m1[|m0|..], k)} :: MarkedAt(h0, h1, m1[|m0|..], k))
    && (forall q {:trigger FreshAt(h0, m1, q)} :: |m0| <= q < |m1| ==> FreshAt(h0, m1, q))
    && (forall q, q' {:trigger Apart(m1, q, q')} :: |m0| <= q < q' < |m1| ==> Apart(m1, q, q'))
  }

  /** Index `k` is visited in `h1` exactly when it was visited in `h0` or is
      one of the `added` members. */
  ghost predicate MarkedAt(h0: seq<bool>, h1: seq<bool>, added: seq<int>, k: int) {
    0 <= k < |h0| && 0 <= k < |h1| ==> (h1[k] <==> h0[k] || k in added)
  }

  /** The member at position `q` of `ms` was an unvisited index of `h0`. */
  ghost predicate FreshAt(h0: seq<bool>, ms: seq<int>, q: int)
    requires 0 <= q < |ms|
  {
    0 <= ms[q] < |h0| && !h0[ms[q]]
  }

  /** Positions `q` and `q'` of `ms` hold different indices. */
  ghost predicate Apart(ms: seq<int>, q: int, q': int)
    requires 0 <= q < |ms| && 0 <= q' < |ms|
  {
    ms[q] != ms[q']
  }

  /** `j` is a visited index of `h`. */
  ghost predicate Hit(h: seq<bool>, j: int) {
    0 <= j < |h| && h[j]
  }

  /** Each of the four steps out of `p` that is taken leads to a visited index. */
  ghost predicate StepsHit(data: seq<Byte>, width: nat, h: seq<bool>, p: int)
    requires width > 0
  {
    && (UpStep(data, width, p) ==> Hit(h, p - RowBytes(width)))
    && (LeftStep(data, width, p) ==> Hit(h, p - 4))
    && (Continues(data, width, p) ==> Hit(h, p + 4))
    && (DownStep(data, width, p) ==> Hit(h, p + RowBytes(width)))
  }

  /** Every step out of a member of `ms` leads to a visited index. */
  ghost predicate Closed(data: seq<Byte>, width: nat, h: seq<bool>, ms: seq<int>)
    requires width > 0
  {
    forall q {:trigger StepsHit(data, width, h, ms[q])} :: 0 <= q < |ms| ==> StepsHit(data, width, h, ms[q])
  }

  /** The member at position `q` of `ms` is reached by a step from an earlier one. */
  ghost predicate ReachedBefore(data: seq<Byte>, width: nat, ms: seq<int>, q: int)
    requires width > 0 && 0 <= q < |ms|
  {
    exists q' :: 0 <= q' < q && Step(data, width, ms[q'], ms[q])
  }

  /** Every member after the first is reached by a step from an earlier one. */
  ghost predicate Connected(data: seq<Byte>, width: nat, ms: seq<int>)
    requires width > 0
  {
    forall q {:trigger ReachedBefore(data, width, ms, q)} :: 0 < q < |ms| ==> ReachedBefore(data, width, ms, q)
  }

  /** The effect of `averageSimilarNeighbors(imageData, hits, t, color, set)`
      taking `hits` from `h0` to `h1` and `set` from `m0` to `m1`: if `t` was
      visited nothing joins; otherwise `t` joins first and the new members are
      connected by steps from `t`; either way `t` ends visited and every step
      out of a new member leads to a visited index. */
  ghost predicate Visited(data: seq<Byte>, width: nat, h0: seq<bool>, m0: seq<int>, h1: seq<bool>, m1: seq<int>, t: int)
    requires width > 0
  {
    && Extends(h0, m0, h1, m1)
    && 0 <= t < |h1| && h1[t]
    && (h0[t] ==> m1 == m0)
    && (!h0[t] ==> |m1| > |m0| && m1[|m0|] == t && Connected(data, width, m1[|m0|..]))
    && Closed(data, width, h1, m1[|m0|..])
  }

  /** The state part-way through a visit of `i` that started at `(h0, m0)`:
      `i` joined first, the members so far are connected, the members after
      `i` are closed, and the steps out of `i` taken so far (`done`) lead to
      visited indices. */
  ghost predicate Partial(data: seq<Byte>, width: nat, h0: seq<bool>, m0: seq<int>,
                          h1: seq<bool>, m1: seq<int>, i: int, done: set<int>)
    requires width > 0
  {
    && Extends(h0, m0, h1, m1)
    && 0 <= i < |h0| && !h0[i]
    && |m1| > |m0| && m1[|m0|] == i
    && Connected(data, width, m1[|m0|..])
    && Closed(data, width, h1, m1[|m0| + 1..])
    && (forall j :: j in done ==> Hit(h1, j))
  }

  lemma {:induction false} ExtendsMark(h0: seq<bool>, m0: seq<int>, i: int)
    requires 0 <= i < |h0| && !h0[i]
    ensures Extends(h0, m0, h0[i := true], m0 + [i])
  {
    var m1, h1 := m0 + [i], h0[i := true];
    assert m1[|m0|..] == [i];
    forall k ensures MarkedAt(h0, h1, m1[|m0|..], k) { }
    forall q | |m0| <= q < |m1| ensures FreshAt(h0, m1, q) { }
  }

  /** Along an extension visited indices stay visited. */
  lemma {:induction false} ExtendsMonotone(h0: seq<bool>, m0: seq<int>, h1: seq<bool>, m1: seq<int>)
    requires Extends(h0, m0, h1, m1)
    ensures forall k :: 0 <= k < |h0| && h0[k] ==> h1[k]
  {
    forall k | 0 <= k < |h0| && h0[k] ensures h1[k] {
      assert MarkedAt(h0, h1, m1[|m0|..], k);
    }
  }

  lemma {:induction false} ExtendsTrans(h0: seq<bool>, m0: seq<int>, h1: seq<bool>, m1: seq<int>, h2: seq<bool>, m2: seq<int>)
    requires Extends(h0, m0, h1, m1) && Extends(h1, m1, h2, m2)
    ensures Extends(h0, m0, h2, m2)
  {
    assert m2[|m0|..] == m1[|m0|..] + m2[|m1|..];
    forall k ensures MarkedAt(h0, h2, m2[|m0|..], k) {
      assert MarkedAt(h0, h1, m1[|m0|..], k) && MarkedAt(h1, h2, m2[|m1|..], k);
    }
    forall q | |m0| <= q < |m2|
      ensures FreshAt(h0, m2, q)
    {
      if q >= |m1| {
        assert FreshAt(h1, m2, q);
        assert MarkedAt(h0, h1, m1[|m0|..], m2[q]);
      } else {
        assert FreshAt(h0, m1, q);
        assert m2[q] == m1[q];
      }
    }
    forall q, q' | |m0| <= q < q' < |m2|
      ensures Apart(m2, q, q')
    {
      if q < |m1| && q' >= |m1| {
        assert m2[q] == m1[q] && m1[q] in m1[|m0|..];
        assert FreshAt(h0, m1, q) && FreshAt(h1, m2, q');
        assert MarkedAt(h0, h1, m1[|m0|..], m2[q]);
        assert h1[m2[q]] && !h1[m2[q']];
      } else if q' < |m1| {
        assert Apart(m1, q, q');
        assert m2[q] == m1[q] && m2[q'] == m1[q'];
      } else {
        assert Apart(m2, q, q');
      }
    }
  }

  lemma {:induction false} ClosedGrows(data: seq<Byte>, width: nat, h0: seq<bool>, h1: seq<bool>, ms: seq<int>)
    requires width > 0 && Closed(data, width, h0, ms) && |h1| == |h0|
    requires forall k :: 0 <= k < |h0| && h0[k] ==> h1[k]
    ensures Closed(data, width, h1, ms)
  {
    forall q | 0 <= q < |ms| ensures StepsHit(data, width, h1, ms[q]) {
      assert StepsHit(data, width, h0, ms[q]);
    }
  }

  lemma {:induction false} ClosedAppend(data: seq<Byte>, width: nat, h: seq<bool>, a: seq<int>, b: seq<int>)
    requires width > 0 && Closed(data, width, h, a) && Closed(data, width, h, b)
    ensures Closed(data, width, h, a + b)
  {
    var ab := a + b;
    forall q | 0 <= q < |ab|
      ensures StepsHit(data, width, h, ab[q])
    {
      if q >= |a| { assert ab[q] == b[q - |a|]; }
    }
  }

  lemma {:induction false} ConnectedAppend(data: seq<Byte>, width: nat, a: seq<int>, b: seq<int>)
    requires width > 0 && Connected(data, width, a) && Connected(data, width, b)
    requires a != [] && b != [] && Step(data, width, a[0], b[0])
    ensures Connected(data, width, a + b)
  {
    var ab := a + b;
    forall q | 0 < q < |ab|
      ensures ReachedBefore(data, width, ab, q)
    {
      if q < |a| {
        assert ReachedBefore(data, width, a, q);
        var q' :| 0 <= q' < q && Step(data, width, a[q'], a[q]);
        assert ab[q'] == a[q'] && ab[q] == a[q];
      } else if q == |a| {
        assert ab[0] == a[0] && ab[q] == b[0];
      } else {
        var r := q - |a|;
        assert 0 < r < |b| && ReachedBefore(data, width, b, r);
        var r' :| 0 <= r' < r && Step(data, width, b[r'], b[r]);
        assert ab[r' + |a|] == b[r'] && ab[q] == b[r];
      }
    }
  }

  /** Unvisited indices decrease strictly once `i` is visited. */
  lemma {:induction false} UnvisitedShrinks(h0: seq<bool>, h1: seq<bool>, i: int)
    requires |h1| == |h0| && 0 <= i < |h0| && !h0[i] && h1[i]
    requires forall k :: 0 <= k < |h0| && h0[k] ==> h1[k]
    ensures Unvisited(h1) < Unvisited(h0)
  {
    assert i in Unvisited(h0) && i !in Unvisited(h1);
  }

  /** Marking `i` and pushing it starts a visit. */
  lemma {:induction false} PartialStart(data: seq<Byte>, width: nat, h0: seq<bool>, m0: seq<int>, i: int)
    requires width > 0 && 0 <= i < |h0| && !h0[i]
    ensures Partial(data, width, h0, m0, h0[i := true], m0 + [i], i, {})
  {
    ExtendsMark(h0, m0, i);
    assert (m0 + [i])[|m0|..] == [i];
    assert (m0 + [i])[|m0| + 1..] == [];
  }

  /** A visit part-way through has already visited `i`, so its recursive
      calls see fewer unvisited indices. */
  lemma {:induction false} PartialShrinks(data: seq<Byte>, width: nat, h0: seq<bool>, m0: seq<int>,
                       h1: seq<bool>, m1: seq<int>, i: int, done: set<int>)
    requires width > 0 && Partial(data, width, h0, m0, h1, m1, i, done)
    ensures Unvisited(h1) < Unvisited(h0)
  {
    assert i in m1[|m0|..];
    assert MarkedAt(h0, h1, m1[|m0|..], i);
    ExtendsMonotone(h0, m0, h1, m1);
    UnvisitedShrinks(h0, h1, i);
  }

  /** One recursive call from the visit of `i` into its step target `t`. */
  lemma {:induction false} PartialStep(data: seq<Byte>, width: nat, h0: seq<bool>, m0: seq<int>,
                    hb: seq<bool>, mb: seq<int>, ha: seq<bool>, ma: seq<int>, i: int, t: int, done: set<int>)
    requires width > 0 && Partial(data, width, h0, m0, hb, mb, i, done)
    requires Visited(data, width, hb, mb, ha, ma, t) && Step(data, width, i, t)
    ensures Partial(data, width, h0, m0, ha, ma, i, done + {t})
  {
    ExtendsTrans(h0, m0, hb, mb, ha, ma);
    ExtendsMonotone(hb, mb, ha, ma);
    ClosedGrows(data, width, hb, ha, mb[|m0| + 1..]);
    assert ma[|m0| + 1..] == mb[|m0| + 1..] + ma[|mb|..];
    ClosedAppend(data, width, ha, mb[|m0| + 1..], ma[|mb|..]);
    if !hb[t] {
      assert ma[|m0|..] == mb[|m0|..] + ma[|mb|..];
      ConnectedAppend(data, width, mb[|m0|..], ma[|mb|..]);
    } else {
      assert ma[|m0|..] == mb[|m0|..];
    }
  }

  /** A visit whose every step out of `i` has been taken is complete. */
  lemma {:induction false} PartialFinish(data: seq<Byte>, width: nat, h0: seq<bool>, m0: seq<int>,
                      h1: seq<bool>, m1: seq<int>, i: int, done: set<int>)
    requires width > 0 && Partial(data, width, h0, m0, h1, m1, i, done)
    requires UpStep(data, width, i) ==> i - RowBytes(width) in done
    requires LeftStep(data, width, i) ==> i - 4 in done
    requires Continues(data, width, i) ==> i + 4 in done
    requires DownStep(data, width, i) ==> i + RowBytes(width) in done
    ensures Visited(data, width, h0, m0, h1, m1, i)
  {
    assert i in m1[|m0|..];
    assert MarkedAt(h0, h1, m1[|m0|..], i);
    assert m1[|m0|..] == [i] + m1[|m0| + 1..];
    ClosedAppend(data, width, h1, [i], m1[|m0| + 1..]);
  }

  /** Exactly the stride-4 indices below `n` are visited. */
  ghost predicate HitsBelow(h: seq<bool>, n: int) {
    forall k {:trigger BelowAt(h, n, k)} :: BelowAt(h, n, k)
  }

  /** Index `k` of `h` is visited exactly when it is a stride-4 index below `n`. */
  ghost predicate BelowAt(h: seq<bool>, n: int, k: int) {
    0 <= k < |h| ==> (h[k] <==> k % 4 == 0 && k < n)
  }

  /** In the driver's state (exactly the pixels below `i` visited), the
      `q`-th member a visit of `i` adds is `i + 4 * q`, inside the run at `i`. */
  lemma {:induction false} MemberPosition(data: seq<Byte>, width: nat, h0: seq<bool>, m0: seq<int>,
                                          h1: seq<bool>, m1: seq<int>, i: int, q: int)
    requires width > 0 && IsPixel(data, i) && HitsBelow(h0, i)
    requires Visited(data, width, h0, m0, h1, m1, i) && 0 <= i < |h0| && !h0[i]
    requires 0 <= q < |m1| - |m0|
    ensures q < RunLength(data, width, i) && m1[|m0| + q] == i + 4 * q
    decreases q
  {
    if q > 0 {
      var ms := m1[|m0|..];
      assert ReachedBefore(data, width, ms, q);
      var q' :| 0 <= q' < q && Step(data, width, ms[q'], ms[q]);
      MemberPosition(data, width, h0, m0, h1, m1, i, q');
      if q' > 0 { MemberPosition(data, width, h0, m0, h1, m1, i, q' - 1); }
      if q' + 1 < q { MemberPosition(data, width, h0, m0, h1, m1, i, q' + 1); }
      StepWithinRun(data, width, h0, m0, h1, m1, i, q', q);
    }
  }

  /** The step from the `q'`-th new member, `i + 4 * q'`, to the `q`-th one
      (`q' < q`) is the step right to `i + 4 * (q' + 1)`: up leads to a row
      above, left to a pixel before `i` or one that joined earlier, right
      past `q' + 1` would repeat a member, and down is never taken. */
  lemma {:induction false} StepWithinRun(data: seq<Byte>, width: nat, h0: seq<bool>, m0: seq<int>,
                      h1: seq<bool>, m1: seq<int>, i: int, q': int, q: int)
    requires width > 0 && IsPixel(data, i) && HitsBelow(h0, i)
    requires Visited(data, width, h0, m0, h1, m1, i) && 0 <= i < |h0| && !h0[i]
    requires 0 <= q' < q < |m1| - |m0| && Step(data, width, m1[|m0| + q'], m1[|m0| + q])
    requires q' < RunLength(data, width, i) && m1[|m0| + q'] == i + 4 * q'
    requires q' > 0 ==> m1[|m0| + q' - 1] == i + 4 * (q' - 1)
    requires q' + 1 < q ==> m1[|m0| + q' + 1] == i + 4 * (q' + 1)
    ensures q < RunLength(data, width, i) && m1[|m0| + q] == i + 4 * q
  {
    var p, t := i + 4 * q', m1[|m0| + q];
    RunPixel(data, width, i, q');
    assert FreshAt(h0, m1, |m0| + q);
    DownStepNever(data, width, p);
    // An up or left step lands before `i`, where every pixel is visited
    // already and so cannot join, or on a member that joined earlier.
    AboveVisited(data, width, h0, i, q');
    if q' > 0 {
      Distinct(h0, m0, h1, m1, |m0| + q' - 1, |m0| + q);
    } else {
      StrideAdd(i, -1, i - 4);
      BelowMeaning(h0, i, i - 4);
    }
    if q' + 1 < q { Distinct(h0, m0, h1, m1, |m0| + q' + 1, |m0| + q); }
  }

  /** In the driver's state the pixel above any pixel of the run at `i` is
      visited, if it exists: the run lies in the row of `i`. */
  lemma {:induction false} AboveVisited(data: seq<Byte>, width: nat, h0: seq<bool>, i: int, q': int)
    requires width > 0 && IsPixel(data, i) && HitsBelow(h0, i)
    requires 0 <= q' < RunLength(data, width, i)
    ensures 0 <= i + 4 * q' - RowBytes(width) < |h0| ==> h0[i + 4 * q' - RowBytes(width)]
  {
    RunInRow(data, width, i);
    RemStride(i, RowBytes(width));
    StrideAdd(i, q' - width, i + 4 * q' - RowBytes(width));
    BelowMeaning(h0, i, i + 4 * q' - RowBytes(width));
  }

  lemma {:induction false} HitsBelowMoved(h: seq<bool>, n: int, n': int)
    requires HitsBelow(h, n) && n == n'
    ensures HitsBelow(h, n')
  {
  }

  lemma {:induction false} BelowMeaning(h: seq<bool>, n: int, k: int)
    requires HitsBelow(h, n)
    ensures 0 <= k < |h| ==> (h[k] <==> k % 4 == 0 && k < n)
  {
    assert BelowAt(h, n, k);
  }

  /** No index joins twice. */
  lemma {:induction false} Distinct(h0: seq<bool>, m0: seq<int>, h1: seq<bool>, m1: seq<int>, a: int, b: int)
    requires Extends(h0, m0, h1, m1) && |m0| <= a < b < |m1|
    ensures m1[a] != m1[b]
  {
    assert Apart(m1, a, b);
  }

  /** In the driver's state, every pixel of the run at `i` joins during the
      visit of `i`: each one continues the run, so the visit steps to the
      next, which is unvisited beforehand. */
  lemma {:induction false} RunCovered(data: seq<Byte>, width: nat, h0: seq<bool>, m0: seq<int>,
                                      h1: seq<bool>, m1: seq<int>, i: int, j: int)
    requires width > 0 && IsPixel(data, i) && HitsBelow(h0, i)
    requires Visited(data, width, h0, m0, h1, m1, i) && 0 <= i < |h0| && !h0[i]
    requires 0 <= j < RunLength(data, width, i)
    ensures j < |m1| - |m0|
    decreases j
  {
    if j > 0 {
      RunCovered(data, width, h0, m0, h1, m1, i, j - 1);
      var ms := m1[|m0|..];
      MemberPosition(data, width, h0, m0, h1, m1, i, j - 1);
      RunPixel(data, width, i, j - 1);
      var p := i + 4 * (j - 1);
      assert ms[j - 1] == p;
      assert StepsHit(data, width, h1, ms[j - 1]);
      var t := p + 4;
      assert MarkedAt(h0, h1, ms, t) && BelowAt(h0, i, t);
      var k :| 0 <= k < |ms| && ms[k] == t;
      MemberPosition(data, width, h0, m0, h1, m1, i, k);
    }
  }

  /** What a visit of `i` does when every pixel below `i`, and no other, is
      visited (the state in which `processImageData` starts one): it appends
      exactly the run at `i` to `set`, and afterwards exactly the pixels
      before the end of the run are visited. */
  lemma {:induction false} VisitedRun(data: seq<Byte>, width: nat, h0: seq<bool>, m0: seq<int>,
                   h1: seq<bool>, m1: seq<int>, i: int)
    requires width > 0 && IsPixel(data, i) && HitsBelow(h0, i)
    requires Visited(data, width, h0, m0, h1, m1, i)
    ensures m1 == m0 + Run(data, width, i)
    ensures HitsBelow(h1, i + 4 * RunLength(data, width, i))
  {
    assert BelowAt(h0, i, i);
    VisitedRunMembers(data, width, h0, m0, h1, m1, i);
    VisitedRunHits(data, width, h0, m0, h1, m1, i);
  }

  lemma {:induction false} VisitedRunMembers(data: seq<Byte>, width: nat, h0: seq<bool>, m0: seq<int>,
                          h1: seq<bool>, m1: seq<int>, i: int)
    requires width > 0 && IsPixel(data, i) && HitsBelow(h0, i)
    requires Visited(data, width, h0, m0, h1, m1, i) && 0 <= i < |h0| && !h0[i]
    ensures m1[|m0|..] == Run(data, width, i) && m1 == m0 + Run(data, width, i)
  {
    var ms, k, r := m1[|m0|..], RunLength(data, width, i), Run(data, width, i);
    RunCovered(data, width, h0, m0, h1, m1, i, k - 1);
    MemberPosition(data, width, h0, m0, h1, m1, i, |ms| - 1);
    forall q | 0 <= q < k
      ensures ms[q] == r[q]
    {
      MemberPosition(data, width, h0, m0, h1, m1, i, q);
    }
    assert m1 == m0 + ms;
  }

  lemma {:induction false} VisitedRunHits(data: seq<Byte>, width: nat, h0: seq<bool>, m0: seq<int>,
                       h1: seq<bool>, m1: seq<int>, i: int)
    requires width > 0 && IsPixel(data, i) && HitsBelow(h0, i) && |h0| == |h1|
    requires Extends(h0, m0, h1, m1) && m1[|m0|..] == Run(data, width, i)
    ensures HitsBelow(h1, i + 4 * RunLength(data, width, i))
  {
    var ms, n := m1[|m0|..], i + 4 * RunLength(data, width, i);
    forall x
      ensures BelowAt(h1, n, x)
    {
      assert MarkedAt(h0, h1, ms, x) && BelowAt(h0, i, x);
      RunMember(data, width, i, x);
    }
  }

  /** The region being built: `set` and `color` of index.js:130-131. */
  class Region {
    var members: seq<int>
    var color: seq<real>

    /** Members are pixels and `color` is the accumulator after them. */
    ghost predicate Valid(data: seq<Byte>)
      reads this
    {
      && (forall k :: 0 <= k < |members| ==> IsPixel(data, members[k]))
      && color == Aggregate(data, members)
    }

    /** `const set = []; const color = []`. */
    constructor ()
      ensures members == [] && color == []
    {
      members := [];
      color := [];
    }

    /** The pixel at `i` joins the region (index.js:88-99): it is marked in
        `hits`, pushed onto `set`, and `color` takes its channels if it is the
        first member and is blended with them otherwise. */
    method Absorb(data: seq<Byte>, hits: array<bool>, i: int)
      requires IsPixel(data, i) && Valid(data) && 0 <= i < hits.Length
      modifies this, hits
      ensures Valid(data) && members == old(members) + [i]
      ensures hits[..] == old(hits[..])[i := true]
    {
      ghost var m0 := members;
      hits[i] := true;
      members := members + [i];
      AggregatePush(data, m0, i);
      if |color| == 0 {
        color := PixelColor(data, i);
      } else {
        color := Blend(color, |members|, PixelColor(data, i));
      }
    }

    /** `averageSimilarNeighbors(imageData, hits, i, color, set)`: the
        region stays well formed and the call has the effect of a visit of
        `i` (`Visited`); `VisitedRun` says what that effect is in the state
        the driver calls it in. */
    method AverageSimilarNeighbors(data: seq<Byte>, width: nat, hits: array<bool>, i: int)
      requires width > 0 && |data| % 4 == 0 && hits.Length == |data|
      requires IsPixel(data, i) && Valid(data)
      modifies this, hits
      decreases Unvisited(hits[..]), 2
      ensures Valid(data)
      ensures Visited(data, width, old(hits[..]), old(members), hits[..], members, i)
    {
      if hits[i] {
        assert members[|members|..] == [];
        return;
      }
      ghost var h0, m0 := hits[..], members;
      Absorb(data, hits, i);
      PartialStart(data, width, h0, m0, i);
      VisitNeighbours(data, width, hits, i, h0, m0);
    }

    /** The four guarded recursive calls of index.js:101-120, made once `i`
        has joined the region in a visit that started at `(h0, m0)`: they
        complete that visit. */
    method VisitNeighbours(data: seq<Byte>, width: nat, hits: array<bool>, i: int,
                           ghost h0: seq<bool>, ghost m0: seq<int>)
      requires width > 0 && |data| % 4 == 0 && hits.Length == |data|
      requires IsPixel(data, i) && Valid(data)
      requires Partial(data, width, h0, m0, hits[..], members, i, {})
      modifies this, hits
      decreases Unvisited(h0), 1
      ensures Valid(data)
      ensures Visited(data, width, h0, m0, hits[..], members, i)
    {
      ghost var done: set<int> := {};

      var indexSize := |data|;
      var indexWidth := RowBytes(width);
      var isTopMost := Quot(i, indexWidth) == 0;
      var isLeftMost := Rem(i, indexWidth) == 0;
      var isRightMost := Rem(i + 4, indexWidth) == 0;
      var isBottomMost := i + indexWidth < indexSize;

      done := VisitNeighbour(data, width, hits, i, i - indexWidth,
                             !isTopMost && Similar(data, i, i - indexWidth), h0, m0, done);
      done := VisitNeighbour(data, width, hits, i, i - 4,
                             !isLeftMost && Similar(data, i, i - 4), h0, m0, done);
      done := VisitNeighbour(data, width, hits, i, i + 4,
                             !isRightMost && Similar(data, i, i + 4), h0, m0, done);
      if !isBottomMost && Similar(data, i, i + indexWidth) {
        // The downward call of index.js:119 is unreachable: this guard lets
        // through only pixels whose lower neighbour is past the end of the
        // buffer, where `isSimilar` is false (`DownStepNever`).
        assert false;
      }
      DownStepNever(data, width, i);
      PartialFinish(data, width, h0, m0, hits[..], members, i, done);
    }

    /** One statement `if (go) averageSimilarNeighbors(imageData, hits, t, color, set)`
        of the visit of `i` that started at `(h0, m0)` (index.js:106-116): the
        visit stays well formed and, when `go` holds, its step to `t` is taken. */
    method VisitNeighbour(data: seq<Byte>, width: nat, hits: array<bool>, i: int, t: int, go: bool,
                          ghost h0: seq<bool>, ghost m0: seq<int>, ghost done: set<int>)
        returns (ghost done': set<int>)
      requires width > 0 && |data| % 4 == 0 && hits.Length == |data|
      requires IsPixel(data, i) && (go ==> Step(data, width, i, t)) && Valid(data)
      requires Partial(data, width, h0, m0, hits[..], members, i, done)
      modifies this, hits
      decreases Unvisited(h0), 0
      ensures Valid(data) && done' == if go then done + {t} else done
      ensures Partial(data, width, h0, m0, hits[..], members, i, done')
    {
      done' := done;
      if go {
        ghost var hb, mb := hits[..], members;
        StepToPixel(data, width, i, t);
        PartialShrinks(data, width, h0, m0, hb, mb, i, done);
        AverageSimilarNeighbors(data, width, hits, t);
        PartialStep(data, width, h0, m0, hb, mb, hits[..], members, i, t, done);
        done' := done + {t};
      }
    }
  }

  /** `processImageData(imageData)`: scan the pixels in order, start a region
      at every pixel not yet visited, and paint all its members with the
      region's final accumulator. The output is the reference segmentation
      `Segmented`: each region is the run at its seed, painted with the
      clamped, rounded accumulator of that run. `regions` lists the `set` of
      every region the scan builds, in order: they are the reference
      `Regions`, they cover every pixel once, in ascending order, and every
      member of each holds that region's colour in the output. */
  method ProcessImageData(data: seq<Byte>, width: nat) returns (out: seq<Byte>, ghost regions: seq<seq<int>>)
    requires width > 0 && |data| % 4 == 0
    ensures out == Segmented(data, width)
    ensures regions == Regions(data, width, 0)
    ensures Concat(regions) == PixelsFrom(data, 0)
    ensures forall p :: IsPixel(data, p) ==> InExactlyOne(regions, p)
    ensures Painted(data, regions, out, 0)
  {
    var size := |data|;
    var hits := new bool[size](_ => false);
    var newData := new Byte[size](_ => 0);
    ghost var next, whole, all := 0, Segmented(data, width), Regions(data, width, 0);
    regions := [];
    forall k ensures BelowAt(hits[..], 0, k) { }
    var i := 0;
    while i < size
      invariant 0 <= i <= next <= size && i % 4 == 0 && next % 4 == 0
      invariant HitsBelow(hits[..], next)
      invariant newData[..next] + SegmentFrom(data, width, next) == whole
      invariant regions + Regions(data, width, next) == all
      decreases size - i
    {
      next, regions := ScanStep(data, width, hits, newData, i, next, whole, regions, all);
      ghost var before := i;
      i := i + 4;
      StrideAdd(before, 1, i);
    }
    assert next == size;
    Finished(newData[..], next, SegmentFrom(data, width, next), whole);
    out := newData[..];
    assert regions + [] == all;
    RegionsFacts(data, width, regions, out);
  }

  /** One iteration of the scan at the stride-4 index `i` (index.js:129-143),
      with the pixels below `next` visited, the output before `next`
      finished and the regions seeded before `next` listed in `regions`: a
      visited pixel is skipped, and an unvisited one is `next` itself and
      starts a region there. Output bytes from the new `next` on are not
      written. */
  method ScanStep(data: seq<Byte>, width: nat, hits: array<bool>, newData: array<Byte>, i: int,
                  ghost next: int, ghost whole: seq<Byte>, ghost regions: seq<seq<int>>, ghost all: seq<seq<int>>)
      returns (ghost next': int, ghost regions': seq<seq<int>>)
    requires width > 0 && |data| % 4 == 0
    requires hits.Length == |data| && newData.Length == |data|
    requires 0 <= i < |data| && i <= next <= |data| && i % 4 == 0 && next % 4 == 0
    requires HitsBelow(hits[..], next)
    requires newData[..next] + SegmentFrom(data, width, next) == whole
    requires regions + Regions(data, width, next) == all
    modifies hits, newData
    ensures i + 4 <= next' <= |data| && next' % 4 == 0
    ensures HitsBelow(hits[..], next')
    ensures newData[..next'] + SegmentFrom(data, width, next') == whole
    ensures regions' + Regions(data, width, next') == all
    ensures newData[next'..] == old(newData[next'..])
  {
    BelowMeaning(hits[..], next, i);
    if !hits[i] {
      assert i == next;
      StrideGap(i, |data|);
      next', regions' := SegmentAt(data, width, hits, newData, i, whole, regions, all);
    } else {
      StrideGap(i, next);
      next', regions' := next, regions;
    }
  }

  /** One visit of the scan at an unvisited pixel `i` (index.js:129-143),
      with every pixel before `i` visited and the output before `i`
      finished: fill the region seeded at `i` and paint it. Afterwards the
      pixels up to the end of the run at `i` are visited, the output up to
      there is finished, the output after it is untouched, and the region's
      `set` is appended to `regions`. */
  method SegmentAt(data: seq<Byte>, width: nat, hits: array<bool>, newData: array<Byte>, i: int,
                   ghost whole: seq<Byte>, ghost regions: seq<seq<int>>, ghost all: seq<seq<int>>)
      returns (ghost next: int, ghost regions': seq<seq<int>>)
    requires width > 0 && |data| % 4 == 0 && IsPixel(data, i)
    requires hits.Length == |data| && newData.Length == |data|
    requires HitsBelow(hits[..], i)
    requires newData[..i] + SegmentFrom(data, width, i) == whole
    requires regions + Regions(data, width, i) == all
    modifies hits, newData
    ensures next == i + 4 * RunLength(data, width, i)
    ensures i < next <= |data| && next % 4 == 0
    ensures HitsBelow(hits[..], next)
    ensures newData[..next] + SegmentFrom(data, width, next) == whole
    ensures regions' == regions + [Run(data, width, i)]
    ensures regions' + Regions(data, width, next) == all
    ensures newData[next..] == old(newData[next..])
  {
    ghost var start := newData[..];
    ghost var before := newData[..i];
    var region := FillRegion(data, width, hits, i);
    assert newData[..] == start;
    ghost var visited := hits[..];
    ghost var members, color := region.members, region.color;
    next := i + 4 * |members|;
    RunOutput(data, width, i, members, color, next);
    RunRegion(data, width, i, members, next);
    HitsBelowMoved(visited, i + 4 * RunLength(data, width, i), next);
    ghost var block, tail := Block(Finalize(color), |members|), SegmentFrom(data, width, next);
    Regroup(before, SegmentFrom(data, width, i), block, tail, whole);
    PaintRun(newData, region.members, region.color, i, next, before, tail, whole);
    assert hits[..] == visited;
    regions' := regions + [members];
    assert regions' + Regions(data, width, next) == regions + ([members] + Regions(data, width, next));
  }

  /** Painting a region (index.js:136-142) whose members are `s, s + 4, ...`
      into an output that is finished before `s` and is to continue with
      `tail` after the region: once painted, the output is finished up to
      the end of the region, and the bytes from there on are untouched. */
  method PaintRun(newData: array<Byte>, members: seq<int>, color: seq<real>, ghost s: int, ghost end: int,
                  ghost prefix: seq<Byte>, ghost tail: seq<Byte>, ghost whole: seq<Byte>)
    requires |color| == 4 && 0 <= s && end == s + 4 * |members| && end <= newData.Length
    requires forall q :: 0 <= q < |members| ==> members[q] == s + 4 * q
    requires newData[..s] == prefix && prefix + (Block(Finalize(color), |members|) + tail) == whole
    modifies newData
    ensures newData[..end] + tail == whole
    ensures newData[end..] == old(newData[end..])
  {
    Paint(newData, members, color, s, end);
    Splice(newData[..], s, 4 * |members|, prefix, Block(Finalize(color), |members|), tail, whole);
  }

  /** index.js:130-135: a fresh, empty region seeded at the lowest
      unvisited pixel `i` ends up holding exactly the run at `i`, with that
      run's accumulator, and afterwards every pixel up to the end of the run
      is visited and no later one. */
  method FillRegion(data: seq<Byte>, width: nat, hits: array<bool>, i: int) returns (region: Region)
    requires width > 0 && |data| % 4 == 0 && hits.Length == |data| && IsPixel(data, i)
    requires HitsBelow(hits[..], i)
    modifies hits
    ensures fresh(region) && region.Valid(data)
    ensures region.members == Run(data, width, i)
    ensures HitsBelow(hits[..], i + 4 * RunLength(data, width, i))
  {
    ghost var h0 := hits[..];
    region := new Region();
    region.AverageSimilarNeighbors(data, width, hits, i);
    VisitedRun(data, width, h0, [], hits[..], region.members, i);
  }

  /** The painting loop of index.js:136-142: every member `p` of the region
      gets the four channels of `color`, each stored as a clamped byte. The
      region's members are `s, s + 4, ...`, so the bytes from `s` on become
      one block of the finalized colour, and those before `s` and from the
      end of the region on are kept. */
  method Paint(newData: array<Byte>, members: seq<int>, color: seq<real>, ghost s: int, ghost end: int)
    requires |color| == 4 && 0 <= s
    requires forall q :: 0 <= q < |members| ==> members[q] == s + 4 * q
    requires end == s + 4 * |members| && end <= newData.Length
    modifies newData
    ensures newData[..s] == old(newData[..s])
    ensures newData[s .. s + 4 * |members|] == Block(Finalize(color), |members|)
    ensures newData[end..] == old(newData[end..])
  {
    var setSize := |members|;
    ghost var fin := Finalize(color);
    var j := 0;
    while j < setSize
      invariant 0 <= j <= setSize
      invariant newData[..s] == old(newData[..s])
      invariant newData[s .. s + 4 * j] == Block(fin, j)
      invariant newData[end..] == old(newData[end..])
    {
      var p := members[j];
      ghost var prev := newData[..];
      newData[p] := ClampByte(color[0]);
      newData[p + 1] := ClampByte(color[1]);
      newData[p + 2] := ClampByte(color[2]);
      newData[p + 3] := ClampByte(color[3]);
      ghost var j0 := j;
      j := j + 1;
      PaintStep(prev, newData[..], s, j0, j, p, end, fin);
    }
  }

  /** Writing the four bytes `c` at `p = s + 4 * j`, right after a block of
      `j` copies of `c` that starts at `s`, grows the block by one copy and
      keeps everything before `s` and from `end` on. */
  lemma {:induction false} PaintStep(prev: seq<Byte>, cur: seq<Byte>, s: int, j: nat, j': nat, p: int, end: int, c: seq<Byte>)
    requires |c| == 4 && 0 <= s && j' == j + 1 && p == s + 4 * j && p + 4 <= end <= |prev| == |cur|
    requires prev[s .. p] == Block(c, j)
    requires cur[p] == c[0] && cur[p + 1] == c[1] && cur[p + 2] == c[2] && cur[p + 3] == c[3]
    requires forall k :: 0 <= k < |cur| && (k < p || p + 4 <= k) ==> cur[k] == prev[k]
    ensures cur[..s] == prev[..s]
    ensures cur[s .. s + 4 * j'] == Block(c, j')
    ensures cur[end..] == prev[end..]
  {
    assert cur[s .. p] == prev[s .. p];
    assert cur[p .. p + 4] == c;
    assert cur[s .. s + 4 * j'] == cur[s .. p] + cur[p .. p + 4];
  }


  /** An output finished up to its end, with nothing left to follow, is whole. */
  lemma {:induction false} Finished(out: seq<Byte>, n: int, tail: seq<Byte>, whole: seq<Byte>)
    requires n == |out| && tail == [] && out[..n] + tail == whole
    ensures out == whole
  {
    assert out[..n] == out;
  }

  /** Splitting the middle part of `prefix + middle == whole` into `block + tail`. */
  lemma {:induction false} Regroup(prefix: seq<Byte>, middle: seq<Byte>, block: seq<Byte>, tail: seq<Byte>, whole: seq<Byte>)
    requires prefix + middle == whole && middle == block + tail
    ensures prefix + (block + tail) == whole
  {
  }

  /** If `whole` is `prefix`, then `block`, then `tail`, and `a` starts with
      `prefix` followed by `block`, then the first `n + m` elements of `a`
      followed by `tail` are `whole`. */
  lemma {:induction false} Splice(a: seq<Byte>, n: nat, m: nat, prefix: seq<Byte>, block: seq<Byte>, tail: seq<Byte>, whole: seq<Byte>)
    requires n + m <= |a| && a[..n] == prefix && a[n .. n + m] == block
    requires prefix + (block + tail) == whole
    ensures a[..n + m] + tail == whole
  {
    assert a[..n + m] == a[..n] + a[n .. n + m];
  }
}
