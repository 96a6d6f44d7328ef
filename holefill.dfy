/**
 * The binary part of the segmenter's mask post-processing (main.py): the
 * threshold that turns the median-filtered mask into a 0/255 mask, and
 * `imfill`, which floods the background from pixel (0, 0) and turns every
 * background pixel the flood cannot reach into foreground.
 *
 * `cv2.floodFill` is modelled as OpenCV's default fill: 4-connected, zero
 * tolerance (a neighbour joins the region when it holds the seed's value),
 * with the (h+2) x (w+2) mask as the buffer that records filled pixels.
 */
module HoleFilling {
  import opened Grids

  const Foreground: Byte := 255
  const Background: Byte := 0

  /** The cutoff of `cv2.threshold(mask, 120, 255, THRESH_BINARY)`. */
  const Cutoff: int := 120

  /** The seed of the flood fill: pixel (0, 0). */
  const Origin: Cell := (0, 0)

  /** Every sample is 0 or 255. */
  predicate IsBinary(g: Grid<Byte>) {
    forall y, x :: 0 <= y < |g| && 0 <= x < |g[y]| ==> g[y][x] == Background || g[y][x] == Foreground
  }

  /** The threshold step of `postprocess_mask`: a sample above the cutoff becomes 255, any other 0. */
  function Threshold(g: Grid<Byte>): (r: Grid<Byte>)
    ensures |r| == |g| && forall y :: 0 <= y < |g| ==> |r[y]| == |g[y]|
    ensures IsBinary(r)
    ensures forall y, x :: 0 <= y < |g| && 0 <= x < |g[y]| ==> (r[y][x] == Foreground <==> g[y][x] > Cutoff)
  {
    seq(|g|, y requires 0 <= y < |g| =>
      seq(|g[y]|, x requires 0 <= x < |g[y]| => if g[y][x] > Cutoff then Foreground else Background))
  }

  /** Addition of two `uint8` samples as NumPy does it: modulo 256. */
  function AddWrap(a: Byte, b: Byte): (r: Byte)
    ensures r == (a + b) % 256
  {
    if a + b < 256 then a + b else a + b - 256
  }

  /** The four neighbours of a pixel (4-connectivity, OpenCV's default). */
  function Neighbours(p: Cell): seq<Cell> {
    [(p.0 - 1, p.1), (p.0 + 1, p.1), (p.0, p.1 - 1), (p.0, p.1 + 1)]
  }

  /** A 4-connected walk through pixels that all hold the value `v`, defined by its last step. */
  ghost predicate IsWalk(g: Grid<Byte>, v: Byte, ps: seq<Cell>)
    decreases |ps|
  {
    && |ps| > 0
    && InGrid(g, ps[|ps| - 1]) && At(g, ps[|ps| - 1]) == v
    && (|ps| > 1 ==> ps[|ps| - 1] in Neighbours(ps[|ps| - 2]) && IsWalk(g, v, ps[..|ps| - 1]))
  }

  /** The pixel `c` is reached from (0, 0) by a walk through pixels holding `v`. */
  ghost predicate Reaches(g: Grid<Byte>, v: Byte, c: Cell) {
    exists ps :: IsWalk(g, v, ps) && ps[0] == Origin && ps[|ps| - 1] == c
  }

  /** `c` belongs to the region a flood fill seeded at (0, 0) covers. */
  ghost predicate InSeedRegion(g: Grid<Byte>, c: Cell) {
    InGrid(g, Origin) && Reaches(g, At(g, Origin), c)
  }

  /** Pixel (y, x) after a flood fill from (0, 0) with `newVal`. */
  ghost function FilledPixel(g: Grid<Byte>, newVal: Byte, y: int, x: int): Byte
    requires 0 <= y < |g| && 0 <= x < |g[y]|
  {
    if InSeedRegion(g, (y, x)) then newVal else g[y][x]
  }

  /** The pixels of the seed region. */
  ghost function SeedRegion(g: Grid<Byte>): (r: set<Cell>)
    ensures forall c :: c in r <==> InGrid(g, c) && InSeedRegion(g, c)
  {
    set y, x | 0 <= y < |g| && 0 <= x < |g[y]| && InSeedRegion(g, (y, x)) :: (y, x)
  }

  /** The image after `cv2.floodFill(img, mask, (0, 0), newVal)`: the seed's region painted `newVal`. */
  ghost function FloodFilled(g: Grid<Byte>, newVal: Byte): (r: Grid<Byte>)
    ensures |r| == |g| && forall y :: 0 <= y < |g| ==> |r[y]| == |g[y]|
  {
    seq(|g|, y requires 0 <= y < |g| =>
      seq(|g[y]|, x requires 0 <= x < |g[y]| => FilledPixel(g, newVal, y, x)))
  }

  /** The result of `imfill`: `input + (255 - floodfilled)` in `uint8` arithmetic. */
  ghost function ImFilled(g: Grid<Byte>): (r: Grid<Byte>)
    ensures |r| == |g| && forall y :: 0 <= y < |g| ==> |r[y]| == |g[y]|
  {
    seq(|g|, y requires 0 <= y < |g| =>
      seq(|g[y]|, x requires 0 <= x < |g[y]| => AddWrap(g[y][x], 255 - FilledPixel(g, Foreground, y, x))))
  }

  /** Pixel by pixel, the flood-filled grid is `newVal` on the seed region and `g` elsewhere. */
  lemma FloodFilledAt(g: Grid<Byte>, newVal: Byte)
    ensures forall y, x :: 0 <= y < |g| && 0 <= x < |g[y]| ==> FloodFilled(g, newVal)[y][x] == FilledPixel(g, newVal, y, x)
  {
  }

  /** Pixel by pixel, `imfill` adds the inverted flood fill to the input. */
  lemma ImFilledAt(g: Grid<Byte>)
    ensures forall y, x :: 0 <= y < |g| && 0 <= x < |g[y]| ==>
      ImFilled(g)[y][x] == AddWrap(g[y][x], 255 - FilledPixel(g, Foreground, y, x))
  {
  }

  // ---------------------------------------------------------------------------
  // Facts about walks and regions

  /** The seed is in its own region. */
  lemma SeedInRegion(g: Grid<Byte>)
    requires InGrid(g, Origin)
    ensures InSeedRegion(g, Origin)
  {
    assert IsWalk(g, At(g, Origin), [Origin]);
  }

  /** Every pixel of the seed region holds the seed's value. */
  lemma RegionHoldsSeedValue(g: Grid<Byte>, c: Cell)
    requires InSeedRegion(g, c)
    ensures InGrid(g, c) && At(g, c) == At(g, Origin)
  {
    var ps :| IsWalk(g, At(g, Origin), ps) && ps[0] == Origin && ps[|ps| - 1] == c;
    assert InGrid(g, ps[|ps| - 1]);
  }

  /** A region pixel's neighbour holding the seed's value is in the region too. */
  lemma RegionStep(g: Grid<Byte>, p: Cell, q: Cell)
    requires InSeedRegion(g, p)
    requires q in Neighbours(p) && InGrid(g, q) && At(g, q) == At(g, Origin)
    ensures InSeedRegion(g, q)
  {
    var v := At(g, Origin);
    var ps :| IsWalk(g, v, ps) && ps[0] == Origin && ps[|ps| - 1] == p;
    var qs := ps + [q];
    assert qs[..|qs| - 1] == ps;
    assert IsWalk(g, v, qs);
  }

  /** Every non-empty prefix of a walk is a walk. */
  lemma {:induction false} WalkPrefix(g: Grid<Byte>, v: Byte, ps: seq<Cell>, n: nat)
    requires IsWalk(g, v, ps) && 1 <= n <= |ps|
    ensures IsWalk(g, v, ps[..n])
    decreases |ps|
  {
    if n < |ps| {
      var pre := ps[..|ps| - 1];
      WalkPrefix(g, v, pre, n);
      assert pre[..n] == ps[..n];
    } else {
      assert ps[..n] == ps;
    }
  }

  /** Every pixel along a walk from the seed is reached by the walk's prefix. */
  lemma WalkPrefixesReach(g: Grid<Byte>, v: Byte, ps: seq<Cell>)
    requires IsWalk(g, v, ps) && ps[0] == Origin
    ensures forall k :: 0 <= k < |ps| ==> Reaches(g, v, ps[k])
  {
    forall k | 0 <= k < |ps|
      ensures Reaches(g, v, ps[k])
    {
      var pre := ps[..k + 1];
      WalkPrefix(g, v, ps, k + 1);
      assert pre[0] == ps[0] && pre[|pre| - 1] == ps[k];
      assert IsWalk(g, v, pre) && pre[0] == Origin && pre[|pre| - 1] == ps[k];
    }
  }

  /** A set that holds the seed and is closed under stepping to a `v`-neighbour holds every walk's end. */
  lemma {:induction false} ClosedSetHoldsWalk(g: Grid<Byte>, v: Byte, s: set<Cell>, ps: seq<Cell>)
    requires IsWalk(g, v, ps) && ps[0] in s
    requires forall p, q :: p in s && q in Neighbours(p) && InGrid(g, q) && At(g, q) == v ==> q in s
    ensures ps[|ps| - 1] in s
    decreases |ps|
  {
    if |ps| > 1 {
      var pre := ps[..|ps| - 1];
      ClosedSetHoldsWalk(g, v, s, pre);
    }
  }

  /** A closed set holding the seed contains the whole seed region. */
  lemma ClosedSetHoldsRegion(g: Grid<Byte>, s: set<Cell>, c: Cell)
    requires InGrid(g, Origin) && Origin in s
    requires forall p, q :: p in s && q in Neighbours(p) && InGrid(g, q) && At(g, q) == At(g, Origin) ==> q in s
    requires InSeedRegion(g, c)
    ensures c in s
  {
    var ps :| IsWalk(g, At(g, Origin), ps) && ps[0] == Origin && ps[|ps| - 1] == c;
    ClosedSetHoldsWalk(g, At(g, Origin), s, ps);
  }

  /** A walk through pixels of `g` stays a walk in `o` when `o` holds `v` on every pixel of it. */
  lemma {:induction false} WalkTransfers(g: Grid<Byte>, o: Grid<Byte>, v: Byte, ps: seq<Cell>)
    requires IsWalk(g, v, ps)
    requires forall k :: 0 <= k < |ps| ==> InGrid(o, ps[k]) && At(o, ps[k]) == v
    ensures IsWalk(o, v, ps)
    decreases |ps|
  {
    if |ps| > 1 {
      var pre := ps[..|ps| - 1];
      assert forall k :: 0 <= k < |pre| ==> pre[k] == ps[k];
      WalkTransfers(g, o, v, pre);
    }
  }

  // ---------------------------------------------------------------------------
  // What imfill computes on a binary mask

  /**
   * On a 0/255 mask, `imfill` leaves a pixel at 0 exactly when it is 0 and
   * 4-connected through 0-pixels to (0, 0); every other pixel becomes 255.
   * So no 255 pixel is cleared, every enclosed 0-pixel is filled, and the
   * background reachable from (0, 0) stays background.
   */
  lemma {:induction false} ImFillCharacterization(g: Grid<Byte>)
    requires IsBinary(g)
    ensures IsBinary(ImFilled(g))
    ensures forall y, x :: 0 <= y < |g| && 0 <= x < |g[y]| ==>
      (ImFilled(g)[y][x] == Background <==> g[y][x] == Background && InSeedRegion(g, (y, x)))
  {
    ImFilledAt(g);
    FloodFilledAt(g, Foreground);
  }

  /** If pixel (0, 0) is already foreground, `imfill` returns an all-255 mask. */
  lemma SeedForegroundFillsAll(g: Grid<Byte>)
    requires IsBinary(g) && InGrid(g, Origin) && At(g, Origin) == Foreground
    ensures forall y, x :: 0 <= y < |g| && 0 <= x < |g[y]| ==> ImFilled(g)[y][x] == Foreground
  {
    ImFillCharacterization(g);
    forall y, x | 0 <= y < |g| && 0 <= x < |g[y]| && InSeedRegion(g, (y, x))
      ensures g[y][x] == Foreground
    {
      RegionHoldsSeedValue(g, (y, x));
    }
  }

  /** `imfill` is idempotent on binary masks: filling an already filled mask changes nothing. */
  lemma ImFillIdempotent(g: Grid<Byte>, h: nat, w: nat)
    requires IsRect(g, h, w) && IsBinary(g)
    ensures ImFilled(ImFilled(g)) == ImFilled(g)
  {
    var o := ImFilled(g);
    ImFillCharacterization(g);
    ImFillCharacterization(o);
    assert IsRect(o, h, w);
    forall y, x | 0 <= y < h && 0 <= x < w
      ensures ImFilled(o)[y][x] == o[y][x]
    {
      if o[y][x] == Background {
        // (y, x) is reached from the seed through 0-pixels of g; that walk is a 0-walk of o.
        var v := At(g, Origin);
        var ps :| IsWalk(g, v, ps) && ps[0] == Origin && ps[|ps| - 1] == (y, x);
        assert v == Background;
        WalkPrefixesReach(g, v, ps);
        forall k | 0 <= k < |ps|
          ensures InGrid(o, ps[k]) && At(o, ps[k]) == Background
        {
          assert InSeedRegion(g, ps[k]);
        }
        WalkTransfers(g, o, Background, ps);
        assert At(o, Origin) == Background;
        assert InSeedRegion(o, (y, x));
      }
    }
    GridExtensionality(ImFilled(o), o, h, w);
  }

  // ---------------------------------------------------------------------------
  // The imperative flood fill and imfill

  /** Mask pixel (y + 1, x + 1) is 1 for the image pixels (y, x) in `visited` and 0 for the others. */
  ghost predicate MaskMarks(mask: array2<Byte>, h: nat, w: nat, visited: set<Cell>)
    reads mask
    requires mask.Length0 == h + 2 && mask.Length1 == w + 2
  {
    forall c: Cell :: 0 <= c.0 < h && 0 <= c.1 < w ==> mask[c.0 + 1, c.1 + 1] == if c in visited then 1 else 0
  }

  /** Every visited pixel holds the seed's value and lies in the seed region. */
  ghost predicate InRegion(g: Grid<Byte>, visited: set<Cell>) {
    InGrid(g, Origin) &&
    forall c :: c in visited ==> InGrid(g, c) && At(g, c) == At(g, Origin) && InSeedRegion(g, c)
  }

  /** The pixels of a grid. */
  ghost function Cells(g: Grid<Byte>): (r: set<Cell>)
    ensures forall c :: c in r <==> InGrid(g, c)
  {
    set y, x | 0 <= y < |g| && 0 <= x < |g[y]| :: (y, x)
  }

  /** The pixels on a stack. */
  ghost function Elems(s: seq<Cell>): set<Cell> {
    set c | c in s
  }

  /** The image still holds the samples of `g` outside `marked`. */
  ghost predicate Untouched(img: array2<Byte>, g: Grid<Byte>, marked: set<Cell>)
    reads img
    requires IsRect(g, img.Length0, img.Length1)
  {
    forall c :: InGrid(g, c) && c !in marked ==> img[c.0, c.1] == At(g, c)
  }

  /** Marking one more unmarked pixel leaves one pixel fewer unmarked. */
  lemma MarkOne(all: set<Cell>, marked: set<Cell>, q: Cell)
    requires q in all && q !in marked
    ensures |all - (marked + {q})| == |all - marked| - 1
  {
    assert all - (marked + {q}) == (all - marked) - {q};
  }

  /**
   * One neighbour step of the fill: the pixel `q` is marked in the mask
   * and pushed when it is inside the image, not yet marked and holds the
   * seed's value.
   */
  method Visit(img: array2<Byte>, mask: array2<Byte>, seedVal: Byte, q: Cell, stack: seq<Cell>,
               ghost g: Grid<Byte>, ghost visited: set<Cell>, ghost base: set<Cell>)
    returns (stack': seq<Cell>, ghost visited': set<Cell>)
    requires IsRect(g, img.Length0, img.Length1)
    requires mask.Length0 == img.Length0 + 2 && mask.Length1 == img.Length1 + 2
    requires MaskMarks(mask, img.Length0, img.Length1, visited)
    requires Untouched(img, g, base) && base <= visited
    modifies mask
    ensures MaskMarks(mask, img.Length0, img.Length1, visited')
    ensures InGrid(g, q) && At(g, q) == seedVal ==> q in visited'
    ensures || (stack' == stack && visited' == visited)
            || (&& InGrid(g, q) && At(g, q) == seedVal && q !in visited
                && stack' == stack + [q] && visited' == visited + {q})
  {
    assert img != mask;
    var h, w := img.Length0, img.Length1;
    stack', visited' := stack, visited;
    if 0 <= q.0 < h && 0 <= q.1 < w && mask[q.0 + 1, q.1 + 1] == 0 && img[q.0, q.1] == seedVal {
      mask[q.0 + 1, q.1 + 1] := 1;
      stack' := stack + [q];
      visited' := visited + {q};
      forall c: Cell | 0 <= c.0 < h && 0 <= c.1 < w
        ensures mask[c.0 + 1, c.1 + 1] == if c in visited' then 1 else 0
      {
        if c != q {
          assert c.0 != q.0 || c.1 != q.1;
        }
      }
    }
  }

  /** The pixels of two stacks put one on the other. */
  lemma ElemsConcat(a: seq<Cell>, b: seq<Cell>)
    ensures Elems(a + b) == Elems(a) + Elems(b)
  {
    forall c
      ensures c in a + b <==> c in a || c in b
    {
    }
  }

  /** The first `k + 1` elements of `s` are its first `k` and `s[k]`. */
  lemma TakeOneMore(s: seq<Cell>, k: nat)
    requires k < |s|
    ensures forall q :: q in s[..k + 1] <==> q in s[..k] || q == s[k]
  {
    assert s[..k + 1] == s[..k] + [s[k]];
  }

  /** Pushing onto a stack that is `a` with `b` on top. */
  lemma PushOne(a: seq<Cell>, b: seq<Cell>, q: Cell)
    ensures a + b + [q] == a + (b + [q])
  {
  }

  /**
   * The bookkeeping of a neighbour pass for `p` that started from `stack`
   * and the marked pixels `base`: `pushed` went onto the stack, was marked,
   * holds the seed's value and was unmarked before.
   */
  ghost predicate Pass(g: Grid<Byte>, seedVal: Byte, p: Cell, base: set<Cell>, stack: seq<Cell>,
                       stack': seq<Cell>, pushed: seq<Cell>, visited': set<Cell>) {
    && stack' == stack + pushed && visited' == base + Elems(pushed) && visited' <= Cells(g)
    && (forall c :: c in pushed ==> c in Neighbours(p) && InGrid(g, c) && At(g, c) == seedVal)
    && |Cells(g) - visited'| + |pushed| == |Cells(g) - base|
  }

  /** One call of `Visit` extends the bookkeeping of the pass. */
  lemma PushStep(g: Grid<Byte>, seedVal: Byte, p: Cell, base: set<Cell>, stack: seq<Cell>,
                 s0: seq<Cell>, pushed: seq<Cell>, v0: set<Cell>, q: Cell, s1: seq<Cell>, v1: set<Cell>)
    returns (pushed': seq<Cell>)
    requires Pass(g, seedVal, p, base, stack, s0, pushed, v0) && q in Neighbours(p)
    requires || (s1 == s0 && v1 == v0)
             || (InGrid(g, q) && At(g, q) == seedVal && q !in v0 && s1 == s0 + [q] && v1 == v0 + {q})
    ensures Pass(g, seedVal, p, base, stack, s1, pushed', v1) && v0 <= v1
  {
    if s1 == s0 && v1 == v0 {
      pushed' := pushed;
    } else {
      MarkOne(Cells(g), v0, q);
      ElemsPush(pushed, q);
      PushOne(stack, pushed, q);
      pushed' := pushed + [q];
    }
  }

  /** The pixels of a stack after one push. */
  lemma ElemsPush(a: seq<Cell>, q: Cell)
    ensures Elems(a + [q]) == Elems(a) + {q}
  {
    forall c
      ensures c in a + [q] <==> c in a || c == q
    {
    }
  }

  /**
   * The neighbour pass for the pixel `p`: each of its four neighbours that
   * qualifies is marked and pushed, in the order of `Neighbours`.
   */
  method VisitNeighbours(img: array2<Byte>, mask: array2<Byte>, seedVal: Byte, p: Cell, stack: seq<Cell>,
                         ghost g: Grid<Byte>, ghost visited: set<Cell>)
    returns (stack': seq<Cell>, ghost pushed: seq<Cell>, ghost visited': set<Cell>)
    requires IsRect(g, img.Length0, img.Length1)
    requires mask.Length0 == img.Length0 + 2 && mask.Length1 == img.Length1 + 2
    requires MaskMarks(mask, img.Length0, img.Length1, visited) && visited <= Cells(g)
    requires Untouched(img, g, visited)
    modifies mask
    ensures MaskMarks(mask, img.Length0, img.Length1, visited')
    ensures forall q :: q in Neighbours(p) && InGrid(g, q) && At(g, q) == seedVal ==> q in visited'
    ensures Pass(g, seedVal, p, visited, stack, stack', pushed, visited')
  {
    var ns := Neighbours(p);
    stack', pushed, visited' := stack, [], visited;
    assert Elems([]) == {};
    for k := 0 to 4
      invariant MaskMarks(mask, img.Length0, img.Length1, visited')
      invariant Pass(g, seedVal, p, visited, stack, stack', pushed, visited')
      invariant forall q :: q in ns[..k] && InGrid(g, q) && At(g, q) == seedVal ==> q in visited'
    {
      ghost var s0, v0 := stack', visited';
      stack', visited' := Visit(img, mask, seedVal, ns[k], stack', g, visited', visited);
      pushed := PushStep(g, seedVal, p, visited, stack, s0, pushed, v0, ns[k], stack', visited');
      TakeOneMore(ns, k);
    }
  }

  /** The image holds `newVal` on the pixels in `done` and its original samples elsewhere. */
  ghost predicate Painted(img: array2<Byte>, g: Grid<Byte>, done: set<Cell>, newVal: Byte)
    reads img
    requires IsRect(g, img.Length0, img.Length1)
  {
    forall c :: InGrid(g, c) ==> img[c.0, c.1] == if c in done then newVal else At(g, c)
  }

  /** Paints the pixel `p` with `newVal`. */
  method Paint(img: array2<Byte>, p: Cell, newVal: Byte, ghost g: Grid<Byte>, ghost done: set<Cell>)
    requires IsRect(g, img.Length0, img.Length1) && InGrid(g, p)
    requires Painted(img, g, done, newVal)
    modifies img
    ensures Painted(img, g, done + {p}, newVal)
  {
    img[p.0, p.1] := newVal;
    forall c | InGrid(g, c)
      ensures img[c.0, c.1] == if c in done + {p} then newVal else At(g, c)
    {
      if c != p {
        assert c.0 != p.0 || c.1 != p.1;
      }
    }
  }

  /** Every neighbour of a finished pixel that holds the seed's value is marked. */
  ghost predicate Closed(g: Grid<Byte>, done: set<Cell>, visited: set<Cell>, v: Byte) {
    forall p, q :: p in done && q in Neighbours(p) && InGrid(g, q) && At(g, q) == v ==> q in visited
  }

  /**
   * The bookkeeping of the fill between two pops: the marked pixels
   * `visited` are the finished pixels plus the stack, lie in the seed
   * region, and every qualifying neighbour of a finished pixel is marked.
   */
  ghost predicate FillSets(g: Grid<Byte>, stack: seq<Cell>, visited: set<Cell>, done: set<Cell>) {
    && InRegion(g, visited) && Origin in visited
    && visited == done + Elems(stack)
    && Closed(g, done, visited, At(g, Origin))
  }

  /** The state of the fill between two pops: the mask marks `visited`, the image is painted over `done`. */
  ghost predicate FillInv(img: array2<Byte>, mask: array2<Byte>, g: Grid<Byte>, newVal: Byte, stack: seq<Cell>,
                          visited: set<Cell>, done: set<Cell>)
    reads img, mask
  {
    && IsRect(g, img.Length0, img.Length1) && img.Length0 > 0 && img.Length1 > 0
    && mask.Length0 == img.Length0 + 2 && mask.Length1 == img.Length1 + 2
    && MaskMarks(mask, img.Length0, img.Length1, visited)
    && Painted(img, g, done, newVal)
    && FillSets(g, stack, visited, done)
  }

  /** Outside the marked pixels the image still holds its original samples. */
  lemma PaintedOutside(img: array2<Byte>, g: Grid<Byte>, done: set<Cell>, visited: set<Cell>, newVal: Byte)
    requires IsRect(g, img.Length0, img.Length1)
    requires Painted(img, g, done, newVal) && done <= visited
    ensures Untouched(img, g, visited)
  {
  }

  /** Marked pixels lie in the image. */
  lemma RegionInCells(g: Grid<Byte>, visited: set<Cell>)
    requires InRegion(g, visited)
    ensures visited <= Cells(g)
  {
  }

  /** Popping `p`, pushing its newly marked neighbours `pushed` and finishing `p` keeps the bookkeeping. */
  lemma StepSets(g: Grid<Byte>, rest: seq<Cell>, p: Cell, stack': seq<Cell>, pushed: seq<Cell>,
                 visited: set<Cell>, visited': set<Cell>, done: set<Cell>)
    requires FillSets(g, rest + [p], visited, done)
    requires Pass(g, At(g, Origin), p, visited, rest, stack', pushed, visited')
    requires forall q :: q in Neighbours(p) && InGrid(g, q) && At(g, q) == At(g, Origin) ==> q in visited'
    ensures FillSets(g, stack', visited', done + {p})
  {
    ElemsPush(rest, p);
    ElemsConcat(rest, pushed);
    assert InSeedRegion(g, p);
    forall c | c in pushed
      ensures InSeedRegion(g, c)
    {
      RegionStep(g, p, c);
    }
  }

  /** A non-empty stack is its top on the rest. */
  lemma SplitTop(stack: seq<Cell>)
    requires stack != []
    ensures stack == stack[..|stack| - 1] + [stack[|stack| - 1]]
  {
  }

  /** One round of the fill: pop a pixel, mark and push its qualifying neighbours, paint it. */
  method FillStep(img: array2<Byte>, mask: array2<Byte>, seedVal: Byte, newVal: Byte, stack: seq<Cell>,
                  ghost g: Grid<Byte>, ghost visited: set<Cell>, ghost done: set<Cell>)
    returns (stack': seq<Cell>, ghost visited': set<Cell>, ghost done': set<Cell>)
    requires FillInv(img, mask, g, newVal, stack, visited, done) && stack != []
    requires seedVal == At(g, Origin)
    modifies img, mask
    ensures FillInv(img, mask, g, newVal, stack', visited', done')
    ensures 2 * |Cells(g) - visited'| + |stack'| < 2 * |Cells(g) - visited| + |stack|
  {
    assert img != mask;
    var p := stack[|stack| - 1];
    var rest := stack[..|stack| - 1];
    SplitTop(stack);
    RegionInCells(g, visited);
    PaintedOutside(img, g, done, visited, newVal);
    ghost var pushed;
    stack', pushed, visited' := VisitNeighbours(img, mask, seedVal, p, rest, g, visited);
    StepSets(g, rest, p, stack', pushed, visited, visited', done);
    assert |stack| == |rest| + 1 && |stack'| == |rest| + |pushed|;
    Paint(img, p, newVal, g, done);
    done' := done + {p};
  }

  /**
   * `cv2.floodFill(img, mask, (0, 0), newVal)` with a zero mask: paints the
   * 4-connected region of (0, 0) in `newVal` and marks it with 1 in the
   * mask, whose pixel (y + 1, x + 1) stands for image pixel (y, x). The
   * pending pixels are kept on a stack; the mask keeps a pixel from being
   * pushed twice. OpenCV rejects a seed outside the image, hence the
   * non-empty image.
   */
  method FloodFill(img: array2<Byte>, mask: array2<Byte>, newVal: Byte)
    requires img.Length0 > 0 && img.Length1 > 0
    requires mask.Length0 == img.Length0 + 2 && mask.Length1 == img.Length1 + 2
    requires forall y, x :: 0 <= y < mask.Length0 && 0 <= x < mask.Length1 ==> mask[y, x] == 0
    modifies img, mask
    ensures Snapshot(img) == FloodFilled(old(Snapshot(img)), newVal)
    ensures MaskMarks(mask, img.Length0, img.Length1, SeedRegion(old(Snapshot(img))))
  {
    ghost var g := Snapshot(img);
    var seedVal := img[0, 0];
    var stack: seq<Cell>;
    ghost var visited, done;
    stack, visited, done := FillStart(img, mask, newVal, g);
    while stack != []
      invariant FillInv(img, mask, g, newVal, stack, visited, done)
      decreases 2 * |Cells(g) - visited| + |stack|
    {
      stack, visited, done := FillStep(img, mask, seedVal, newVal, stack, g, visited, done);
    }
    FillEnd(img, mask, g, newVal, visited, done);
    PaintedImage(img, newVal, g, done);
  }

  /** The start of the fill: the seed marked and pushed, nothing painted yet. */
  method FillStart(img: array2<Byte>, mask: array2<Byte>, newVal: Byte, ghost g: Grid<Byte>)
    returns (stack: seq<Cell>, ghost visited: set<Cell>, ghost done: set<Cell>)
    requires img.Length0 > 0 && img.Length1 > 0 && g == Snapshot(img)
    requires mask.Length0 == img.Length0 + 2 && mask.Length1 == img.Length1 + 2
    requires forall y, x :: 0 <= y < mask.Length0 && 0 <= x < mask.Length1 ==> mask[y, x] == 0
    modifies mask
    ensures FillInv(img, mask, g, newVal, stack, visited, done)
  {
    assert img != mask;
    var h, w := img.Length0, img.Length1;
    SeedInRegion(g);
    mask[1, 1] := 1;
    stack := [Origin];
    visited := {Origin};
    done := {};
    assert Elems(stack) == {Origin};
    forall c: Cell | 0 <= c.0 < h && 0 <= c.1 < w
      ensures mask[c.0 + 1, c.1 + 1] == if c in visited then 1 else 0
    {
      if c != Origin {
        assert c.0 != 0 || c.1 != 0;
      }
    }
  }

  /** When the stack is empty, the finished pixels are exactly the seed region. */
  lemma FillEnd(img: array2<Byte>, mask: array2<Byte>, g: Grid<Byte>, newVal: Byte, visited: set<Cell>, done: set<Cell>)
    requires FillInv(img, mask, g, newVal, [], visited, done)
    ensures visited == done == SeedRegion(g)
  {
    assert Elems([]) == {};
    forall c
      ensures c in done <==> c in SeedRegion(g)
    {
      if InGrid(g, c) && InSeedRegion(g, c) {
        ClosedSetHoldsRegion(g, done, c);
      }
    }
  }

  /** An image painted over exactly the seed region is the flood-filled grid. */
  lemma PaintedImage(img: array2<Byte>, newVal: Byte, g: Grid<Byte>, done: set<Cell>)
    requires IsRect(g, img.Length0, img.Length1)
    requires Painted(img, g, done, newVal) && done == SeedRegion(g)
    ensures Snapshot(img) == FloodFilled(g, newVal)
  {
    var h, w := img.Length0, img.Length1;
    var s, r := Snapshot(img), FloodFilled(g, newVal);
    FloodFilledAt(g, newVal);
    forall y, x | 0 <= y < h && 0 <= x < w
      ensures s[y][x] == r[y][x]
    {
      var c := (y, x);
      assert InGrid(g, c);
      assert img[c.0, c.1] == if c in done then newVal else At(g, c);
    }
    GridExtensionality(s, r, h, w);
  }

  /**
   * `imfill`: flood-fills a copy of the mask with 255 from (0, 0) and adds
   * the inverted fill to the input, so that the holes the flood could not
   * reach become 255.
   */
  method ImFill(input: array2<Byte>) returns (output: array2<Byte>)
    requires input.Length0 > 0 && input.Length1 > 0
    ensures fresh(output)
    ensures Snapshot(output) == ImFilled(Snapshot(input))
  {
    var h, w := input.Length0, input.Length1;
    var floodfill := CopyImage(input);
    var mask := new Byte[h + 2, w + 2]((y, x) => 0);
    FloodFill(floodfill, mask, Foreground);
    output := AddInverted(input, floodfill);
    ImFillAssembled(Snapshot(input), Snapshot(floodfill), Snapshot(output), h, w);
  }

  /** `ndarray.copy()`: a fresh array with the same samples. */
  method CopyImage(a: array2<Byte>) returns (b: array2<Byte>)
    ensures fresh(b) && b.Length0 == a.Length0 && b.Length1 == a.Length1
    ensures Snapshot(b) == Snapshot(a)
  {
    b := new Byte[a.Length0, a.Length1]((y, x) reads a => if 0 <= y < a.Length0 && 0 <= x < a.Length1 then a[y, x] else 0);
    GridExtensionality(Snapshot(b), Snapshot(a), a.Length0, a.Length1);
  }

  /** `a + (255 - f)` on two `uint8` images of one shape, into a fresh array. */
  method AddInverted(a: array2<Byte>, f: array2<Byte>) returns (r: array2<Byte>)
    requires f.Length0 == a.Length0 && f.Length1 == a.Length1
    ensures fresh(r) && r.Length0 == a.Length0 && r.Length1 == a.Length1
    ensures forall y, x :: 0 <= y < a.Length0 && 0 <= x < a.Length1 ==> r[y, x] == AddWrap(a[y, x], 255 - f[y, x])
  {
    r := new Byte[a.Length0, a.Length1]((y, x) reads a, f =>
      if 0 <= y < a.Length0 && 0 <= x < a.Length1 then AddWrap(a[y, x], 255 - f[y, x]) else 0);
  }

  /** The parts of `imfill` put together give `ImFilled`. */
  lemma ImFillAssembled(gin: Grid<Byte>, gfill: Grid<Byte>, gout: Grid<Byte>, h: nat, w: nat)
    requires IsRect(gin, h, w) && IsRect(gout, h, w)
    requires gfill == FloodFilled(gin, Foreground)
    requires forall y, x :: 0 <= y < h && 0 <= x < w ==> gout[y][x] == AddWrap(gin[y][x], 255 - gfill[y][x])
    ensures gout == ImFilled(gin)
  {
    ImFilledAt(gin);
    FloodFilledAt(gin, Foreground);
    GridExtensionality(gout, ImFilled(gin), h, w);
  }
}
