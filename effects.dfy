/**
 * The effects (effects.py): a text overlay, a drop shadow displaced by a
 * translation, and a hologram made of a colour map, dark horizontal bands
 * and two shifted ghost copies.  OpenCV's image arithmetic is handed in as
 * functions; the integer parts (the banding rows, the shift with zero
 * fill, the displacement and its matrix) are modelled exactly.
 */
module Effects {
  import opened Grids
  import opened Frames

  /** `cv2.FONT_HERSHEY_SIMPLEX`. */
  const FontHersheySimplex: int := 0

  /** A caption drawn onto the background. */
  class AddTextEffect {
    const font: int
    const text: string
    const color: (int, int, int)

    /** The position argument is accepted and dropped, as in the source. */
    constructor (text: string, position: (int, int), color: (int, int, int))
      ensures this.text == text && this.color == color && font == FontHersheySimplex
    {
      font := FontHersheySimplex;
      this.text := text;
      this.color := color;
    }
  }

  /** A 2x3 affine matrix, row-major. */
  type Affine = seq<seq<real>>

  predicate IsAffine(m: Affine) {
    |m| == 2 && |m[0]| == 3 && |m[1]| == 3
  }

  /** Where an affine matrix sends the point `(px, py)`. */
  function Transform(m: Affine, px: real, py: real): (real, real)
    requires IsAffine(m)
  {
    (m[0][0] * px + m[0][1] * py + m[0][2], m[1][0] * px + m[1][1] * py + m[1][2])
  }

  /** `[[1, 0, x], [0, 1, y]]`: the matrix that moves every point by `(x, y)`. */
  function TranslationMatrix(x: int, y: int): (m: Affine)
    ensures IsAffine(m)
    ensures forall px: real, py: real :: Transform(m, px, py) == (px + x as real, py + y as real)
  {
    [[1.0, 0.0, x as real], [0.0, 1.0, y as real]]
  }

  const DefaultOpacity: real := 0.7
  const DefaultBlur: int := 100
  const DefaultDisplacement: (int, int) := (30, 10)

  /**
   * The shadow computation of `ShadowEffect.apply` after its early exit:
   * dilate the mask, blur `1 - mask * opacity` with a square kernel, warp
   * it by the translation into the frame size and multiply each channel
   * of the background by it.
   */
  type Shade = (Image, Mask, real, int, Affine, Size) -> Image

  class ShadowEffect {
    var opacity: real
    var blur: int
    var displacement: (int, int)
    var translationMatrix: Affine

    ghost predicate Valid()
      reads this
    {
      translationMatrix == TranslationMatrix(displacement.0, displacement.1)
    }

    constructor (opacity: real, blur: int)
      ensures Valid()
      ensures this.opacity == opacity && this.blur == blur
      ensures GetDisplacement() == DefaultDisplacement
    {
      this.opacity := opacity;
      this.blur := blur;
      new;
      SetDisplacement(DefaultDisplacement.0, DefaultDisplacement.1);
    }

    /** `ShadowEffect()`: the default opacity, blur and displacement. */
    static method Default() returns (s: ShadowEffect)
      ensures fresh(s) && s.Valid()
      ensures s.opacity == DefaultOpacity && s.blur == DefaultBlur
      ensures s.GetDisplacement() == DefaultDisplacement
    {
      s := new ShadowEffect(DefaultOpacity, DefaultBlur);
    }

    method SetDisplacement(x: int, y: int)
      modifies this
      ensures Valid()
      ensures GetDisplacement() == (x, y)
      ensures translationMatrix == TranslationMatrix(x, y)
      ensures opacity == old(opacity) && blur == old(blur)
    {
      displacement := (x, y);
      translationMatrix := TranslationMatrix(x, y);
    }

    function GetDisplacement(): (int, int)
      reads this
    {
      displacement
    }

    /** Darkens the background under a displaced, blurred copy of the mask, unless the opacity is zero. */
    method Apply(fd: FrameData, shade: Shade)
      modifies fd
      ensures opacity == 0.0 ==> unchanged(fd)
      ensures opacity != 0.0 ==>
        fd.background == shade(old(fd.background), fd.mask, opacity, blur, translationMatrix, fd.size)
      ensures fd.mask == old(fd.mask) && fd.webcam == old(fd.webcam) && fd.output == old(fd.output)
      ensures fd.size == old(fd.size) && fd.fps == old(fd.fps)
    {
      if opacity == 0.0 {
        return;
      }
      fd.background := shade(fd.background, fd.mask, opacity, blur, translationMatrix, fd.size);
    }
  }

  const BandLength: nat := 2
  const BandGap: nat := 3

  /** Row `y` belongs to a dark band of the halftone. */
  predicate InBand(y: nat) {
    y % (BandLength + BandGap) < BandLength
  }

  /** How many of the rows `0 .. n-1` are band rows. */
  function BandRows(n: nat): nat {
    if n == 0 then 0 else BandRows(n - 1) + (if InBand(n - 1) then 1 else 0)
  }

  /** Two rows in every five are darkened: the first two of each period. */
  lemma {:induction false} BandRowsCount(n: nat)
    ensures BandRows(n) == 2 * (n / 5) + Min(n % 5, 2)
  {
    if n > 0 {
      BandRowsCount(n - 1);
      var q, m := (n - 1) / 5, (n - 1) % 5;
      assert n - 1 == 5 * q + m && 0 <= m < 5;
      if m == 4 {
        assert n / 5 == q + 1 && n % 5 == 0;
      } else {
        assert n / 5 == q && n % 5 == m + 1;
      }
    }
  }

  /** The shift of `_shift_image` as a value: every sample moves by `(dx, dy)` and vacated places hold zero. */
  function ShiftedAt<T>(g: Grid<T>, h: nat, w: nat, dx: int, dy: int, zero: T, y: int, x: int): T
    requires IsRect(g, h, w)
  {
    if 0 <= y - dy < h && 0 <= x - dx < w then g[y - dy][x - dx] else zero
  }

  function Shifted<T>(g: Grid<T>, h: nat, w: nat, dx: int, dy: int, zero: T): (r: Grid<T>)
    requires IsRect(g, h, w)
    ensures IsRect(r, h, w)
  {
    seq(h, y requires 0 <= y < h =>
      seq(w, x requires 0 <= x < w => ShiftedAt(g, h, w, dx, dy, zero, y, x)))
  }

  lemma ShiftedIs<T>(g: Grid<T>, h: nat, w: nat, dx: int, dy: int, zero: T)
    requires IsRect(g, h, w)
    ensures forall y, x :: 0 <= y < h && 0 <= x < w ==>
      Shifted(g, h, w, dx, dy, zero)[y][x] == ShiftedAt(g, h, w, dx, dy, zero, y, x)
  {
  }

  /** A shift by `(0, 0)` changes nothing. */
  lemma ShiftByZero<T>(g: Grid<T>, h: nat, w: nat, zero: T)
    requires IsRect(g, h, w)
    ensures Shifted(g, h, w, 0, 0, zero) == g
  {
    ShiftedIs(g, h, w, 0, 0, zero);
    GridExtensionality(Shifted(g, h, w, 0, 0, zero), g, h, w);
  }

  /** Algebra of `Shifted` alone: shifting by (a, b) and then by (c, d), both the same way, is one shift by (a + c, b + d). */
  lemma ShiftsCompose<T>(g: Grid<T>, h: nat, w: nat, a: nat, b: nat, c: nat, d: nat, zero: T)
    requires IsRect(g, h, w)
    ensures Shifted(Shifted(g, h, w, a, b, zero), h, w, c, d, zero) == Shifted(g, h, w, a + c, b + d, zero)
  {
    var g1 := Shifted(g, h, w, a, b, zero);
    ShiftedIs(g, h, w, a, b, zero);
    ShiftedIs(g1, h, w, c, d, zero);
    ShiftedIs(g, h, w, a + c, b + d, zero);
    GridExtensionality(Shifted(g1, h, w, c, d, zero), Shifted(g, h, w, a + c, b + d, zero), h, w);
  }

  /** A shift by at least the image's extent along an axis leaves only zeros. */
  lemma ShiftOutOfFrame<T>(g: Grid<T>, h: nat, w: nat, dx: int, dy: int, zero: T)
    requires IsRect(g, h, w)
    requires dy >= h || dy + h <= 0 || dx >= w || dx + w <= 0
    ensures forall y, x :: 0 <= y < h && 0 <= x < w ==> Shifted(g, h, w, dx, dy, zero)[y][x] == zero
  {
  }

  class HologramEffect {

    constructor ()
    {
    }

    /** `np.roll(img, s, axis=0)`: row `y` of the result is row `y - s` of the input, counted cyclically. */
    method RollRows<T>(img: array2<T>, s: int) returns (r: array2<T>)
      ensures fresh(r) && r.Length0 == img.Length0 && r.Length1 == img.Length1
      ensures forall y, x :: 0 <= y < r.Length0 && 0 <= x < r.Length1 ==>
        r[y, x] == img[(y - s) % img.Length0, x]
    {
      r := new T[img.Length0, img.Length1]((y, x) reads img
        requires 0 <= y < img.Length0 && 0 <= x < img.Length1 => img[(y - s) % img.Length0, x]);
    }

    /** `np.roll(img, s, axis=1)`: column `x` of the result is column `x - s` of the input, counted cyclically. */
    method RollCols<T>(img: array2<T>, s: int) returns (r: array2<T>)
      ensures fresh(r) && r.Length0 == img.Length0 && r.Length1 == img.Length1
      ensures forall y, x :: 0 <= y < r.Length0 && 0 <= x < r.Length1 ==>
        r[y, x] == img[y, (x - s) % img.Length1]
    {
      r := new T[img.Length0, img.Length1]((y, x) reads img
        requires 0 <= y < img.Length0 && 0 <= x < img.Length1 => img[y, (x - s) % img.Length1]);
    }

    /** `img[lo:hi, :] = 0`. */
    method ZeroRows<T>(img: array2<T>, lo: int, hi: int, zero: T)
      requires 0 <= lo <= hi <= img.Length0
      modifies img
      ensures forall y, x :: 0 <= y < img.Length0 && 0 <= x < img.Length1 ==>
        img[y, x] == if lo <= y < hi then zero else old(img[y, x])
    {
      for y := lo to hi
        invariant forall i, j :: 0 <= i < img.Length0 && 0 <= j < img.Length1 ==>
          img[i, j] == if lo <= i < y then zero else old(img[i, j])
      {
        for x := 0 to img.Length1
          invariant forall i, j :: 0 <= i < img.Length0 && 0 <= j < img.Length1 ==>
            img[i, j] == if lo <= i < y || (i == y && j < x) then zero else old(img[i, j])
        {
          img[y, x] := zero;
        }
      }
    }

    /** `img[:, lo:hi] = 0`. */
    method ZeroCols<T>(img: array2<T>, lo: int, hi: int, zero: T)
      requires 0 <= lo <= hi <= img.Length1
      modifies img
      ensures forall y, x :: 0 <= y < img.Length0 && 0 <= x < img.Length1 ==>
        img[y, x] == if lo <= x < hi then zero else old(img[y, x])
    {
      for y := 0 to img.Length0
        invariant forall i, j :: 0 <= i < img.Length0 && 0 <= j < img.Length1 ==>
          img[i, j] == if i < y && lo <= j < hi then zero else old(img[i, j])
      {
        for x := lo to hi
          invariant forall i, j :: 0 <= i < img.Length0 && 0 <= j < img.Length1 ==>
            img[i, j] == if (i < y || (i == y && j < x)) && lo <= j < hi then zero else old(img[i, j])
        {
          img[y, x] := zero;
        }
      }
    }

    /**
     * `_shift_image`: roll the rows by `dy` and the columns by `dx`, then
     * clear the rows and columns that wrapped around.
     */
    method ShiftImage<T>(img: array2<T>, dx: int, dy: int, zero: T) returns (out: array2<T>)
      ensures fresh(out) && out.Length0 == img.Length0 && out.Length1 == img.Length1
      ensures Snapshot(out) == Shifted(Snapshot(img), img.Length0, img.Length1, dx, dy, zero)
    {
      var h, w := img.Length0, img.Length1;
      var rows := RollRows(img, dy);
      out := RollCols(rows, dx);
      ghost var rolled := Snapshot(out);
      var rlo, rhi := 0, 0;
      if dy > 0 {
        rlo, rhi := 0, Min(dy, h);
      } else if dy < 0 {
        rlo, rhi := Max(h + dy, 0), h;
      }
      ZeroRows(out, rlo, rhi, zero);
      var clo, chi := 0, 0;
      if dx > 0 {
        clo, chi := 0, Min(dx, w);
      } else if dx < 0 {
        clo, chi := Max(w + dx, 0), w;
      }
      ZeroCols(out, clo, chi, zero);
      assert forall y, x :: 0 <= y < h && 0 <= x < w ==>
        out[y, x] == if rlo <= y < rhi || clo <= x < chi then zero else img[(y - dy) % h, (x - dx) % w];
      forall y, x | 0 <= y < h && 0 <= x < w
        ensures out[y, x] == ShiftedAt(Snapshot(img), h, w, dx, dy, zero, y, x)
      {
        ShiftedCell(Snapshot(img), h, w, dx, dy, zero, rlo, rhi, clo, chi, y, x);
      }
      ShiftedIs(Snapshot(img), h, w, dx, dy, zero);
      GridExtensionality(Snapshot(out), Shifted(Snapshot(img), h, w, dx, dy, zero), h, w);
    }

    /**
     * The halftone bands: every row in a band is scaled by that row's
     * intensity factor, every other row is left as it was.
     */
    method ApplyBands<T>(holo: array2<T>, factors: seq<real>, scale: (T, real) -> T)
      requires |factors| == holo.Length0
      modifies holo
      ensures forall y, x :: 0 <= y < holo.Length0 && 0 <= x < holo.Length1 ==>
        holo[y, x] == if InBand(y) then scale(old(holo[y, x]), factors[y]) else old(holo[y, x])
    {
      for y := 0 to holo.Length0
        invariant forall i, j :: 0 <= i < holo.Length0 && 0 <= j < holo.Length1 ==>
          holo[i, j] == if i < y && InBand(i) then scale(old(holo[i, j]), factors[i]) else old(holo[i, j])
      {
        if y % (BandLength + BandGap) < BandLength {
          for x := 0 to holo.Length1
            invariant forall i, j :: 0 <= i < holo.Length0 && 0 <= j < holo.Length1 ==>
              holo[i, j] == if (i < y && InBand(i)) || (i == y && j < x)
                then scale(old(holo[i, j]), factors[i]) else old(holo[i, j])
          {
            holo[y, x] := scale(holo[y, x], factors[y]);
          }
        }
      }
    }
  }

  /** One cell of a shift, written as `_shift_image` computes it: a rolled sample unless its row or column is cleared. */
  lemma ShiftedCell<T>(g: Grid<T>, h: nat, w: nat, dx: int, dy: int, zero: T,
                       rlo: int, rhi: int, clo: int, chi: int, y: int, x: int)
    requires IsRect(g, h, w) && 0 <= y < h && 0 <= x < w
    requires dy > 0 ==> rlo == 0 && rhi == Min(dy, h)
    requires dy < 0 ==> rlo == Max(h + dy, 0) && rhi == h
    requires dy == 0 ==> rlo == 0 && rhi == 0
    requires dx > 0 ==> clo == 0 && chi == Min(dx, w)
    requires dx < 0 ==> clo == Max(w + dx, 0) && chi == w
    requires dx == 0 ==> clo == 0 && chi == 0
    ensures ShiftedAt(g, h, w, dx, dy, zero, y, x) ==
      if rlo <= y < rhi || clo <= x < chi then zero else g[(y - dy) % h][(x - dx) % w]
  {
    Kept(y, dy, h, rlo, rhi);
    Kept(x, dx, w, clo, chi);
  }

  /**
   * Along one axis of length `n`, the index `i` is cleared by the slice
   * chosen for the shift `d` exactly when `i - d` falls outside the axis,
   * and otherwise the cyclic roll reads index `i - d` itself.
   */
  lemma Kept(i: int, d: int, n: nat, lo: int, hi: int)
    requires 0 <= i < n
    requires d > 0 ==> lo == 0 && hi == Min(d, n)
    requires d < 0 ==> lo == Max(n + d, 0) && hi == n
    requires d == 0 ==> lo == 0 && hi == 0
    ensures (lo <= i < hi) <==> !(0 <= i - d < n)
    ensures 0 <= i - d < n ==> (i - d) % n == i - d
  {
  }
}
