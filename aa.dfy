/** ssfunc/aa.py, the size arithmetic of basedAA: the supersampled size it anti-aliases
    at, and the sizes `resize_mclip` takes a mask through. The filters themselves are not
    modelled; a clip is represented by its width and height. */
module Aa {
  import opened Wrappers
  import opened PyNum

  /** `x >> 1 << 1`: x with its lowest bit cleared. */
  function EvenDown(x: int): (r: int)
    ensures r % 2 == 0
    ensures r <= x <= r + 1
  {
    Shl(Shr(x, 1), 1)
  }

  /** An even number is its own `>> 1 << 1`, and any result is one: the step is idempotent. */
  lemma EvenDownOfEven(x: int)
    requires x % 2 == 0
    ensures EvenDown(x) == x
    ensures EvenDown(EvenDown(x)) == EvenDown(x)
  {
    var r := EvenDown(x);
    assert r == x || r == x - 1;
  }

  /** `round(dim * ssfac) >> 1 << 1`: one side of the supersampled size, made even. */
  function ScaledEven(dim: int, ssfac: real): (r: int)
    ensures r % 2 == 0
    ensures r <= RoundHalfEven(dim as real * ssfac) <= r + 1
  {
    EvenDown(RoundHalfEven(dim as real * ssfac))
  }

  /** `(aaw, aah)` for a clip of the given size. */
  function AaSize(width: int, height: int, ssfac: real): (r: (int, int))
    ensures r.0 % 2 == 0 && r.1 % 2 == 0
    ensures r.0 <= RoundHalfEven(width as real * ssfac) <= r.0 + 1
    ensures r.1 <= RoundHalfEven(height as real * ssfac) <= r.1 + 1
  {
    (ScaledEven(width, ssfac), ScaledEven(height, ssfac))
  }

  /** With the default factor 2.0 the supersampled size is exactly twice the clip's. */
  lemma DefaultAaSize(width: int, height: int)
    ensures AaSize(width, height, 2.0) == (2 * width, 2 * height)
  {
    RoundOfInteger(2 * width);
    RoundOfInteger(2 * height);
    EvenDownOfEven(2 * width);
    EvenDownOfEven(2 * height);
  }

  /** vsutil's `fallback(value, default)`. */
  function Fallback(value: Option<int>, default: int): (r: int)
    ensures value.Some? ==> r == value.value
    ensures value.None? ==> r == default
  {
    if value.Some? then value.value else default
  }

  /** One half of the pre-upscale test: `o > i and o / i != o // i`, where the true
      division and the floor division differ exactly when `i` does not divide `o`.
      Nothing is divided unless `o > i`. */
  function Overshoots(o: int, i: nat): (r: Result<bool>)
    ensures r.Err? <==> o > i && i == 0
    ensures r.Err? ==> r.error == ZeroDivisionError
    ensures r.Ok? ==> (r.value <==> o > i && o % i != 0)
  {
    if o > i then
      if i == 0 then Err(ZeroDivisionError) else Ok(o % i != 0)
    else Ok(false)
  }

  /** What `resize_mclip` does to a mask: an optional Point pre-upscale, then a box
      resample to the target size. */
  datatype ResizePlan = ResizePlan(upscale: Option<(int, int)>, output: (int, int))

  /** `resize_mclip(mclip, w, h)` for a mask of `iw` x `ih`: the targets default to the
      mask's own size; a target above the mask's size that is not a multiple of it is
      first reached by a Point upscale to the next multiple; the `or` is evaluated left to
      right, and a zero mask size fails as soon as it is divided by. */
  function ResizeMclip(iw: nat, ih: nat, w: Option<int>, h: Option<int>): (r: Result<ResizePlan>)
    ensures r.Err? ==> r.error == ZeroDivisionError && (iw == 0 || ih == 0)
    ensures iw > 0 && ih > 0 ==> r.Ok?
    ensures r.Ok? ==> r.value.output == (Fallback(w, iw), Fallback(h, ih))
    ensures r.Ok? && iw > 0 && ih > 0 ==>
              var ow, oh := Fallback(w, iw), Fallback(h, ih);
              (r.value.upscale.Some? <==> (ow > iw && ow % iw != 0) || (oh > ih && oh % ih != 0))
  {
    var ow, oh := Fallback(w, iw), Fallback(h, ih);
    match Overshoots(ow, iw)
    case Err(e) => Err(e)
    case Ok(wide) =>
      var tall: Result<bool> := if wide then Ok(true) else Overshoots(oh, ih);
      match tall
      case Err(e) => Err(e)
      case Ok(needed) =>
        if !needed then Ok(ResizePlan(None, (ow, oh)))
        else if iw == 0 || ih == 0 then Err(ZeroDivisionError)
        else Ok(ResizePlan(Some((iw * CeilDiv(ow, iw), ih * CeilDiv(oh, ih))), (ow, oh)))
  }

  /** The smallest multiple of `i` that is at least `o`. */
  predicate LeastMultipleAtLeast(m: int, i: nat, o: int)
    requires i > 0
  {
    m % i == 0 && o <= m < o + i
  }

  lemma CeilMultiple(o: int, i: nat)
    requires i > 0
    ensures LeastMultipleAtLeast(i * CeilDiv(o, i), i, o)
  {
    var c := CeilDiv(o, i);
    assert (c - 1) * i < o <= c * i;
    assert i * c == c * i && (c - 1) * i == c * i - i;
    MultipleMod(i, c);
  }

  /** When the pre-upscale happens, it goes to the smallest multiple of the mask's size that
      reaches the target, in each dimension, so the final box resample never enlarges. */
  lemma UpscaleToLeastMultiple(iw: nat, ih: nat, w: Option<int>, h: Option<int>)
    requires ResizeMclip(iw, ih, w, h).Ok? && ResizeMclip(iw, ih, w, h).value.upscale.Some?
    ensures iw > 0 && ih > 0
    ensures var (uw, uh) := ResizeMclip(iw, ih, w, h).value.upscale.value;
            && LeastMultipleAtLeast(uw, iw, Fallback(w, iw))
            && LeastMultipleAtLeast(uh, ih, Fallback(h, ih))
  {
    CeilMultiple(Fallback(w, iw), iw);
    CeilMultiple(Fallback(h, ih), ih);
  }

  /** basedAA with the default factor: the mask, resized from the clip's size to the
      supersampled one, needs no pre-upscale, and resizing it back needs none either. */
  lemma DefaultFactorNeedsNoUpscale(width: nat, height: nat)
    requires width > 0 && height > 0
    ensures var (aaw, aah) := AaSize(width, height, 2.0);
            && ResizeMclip(width, height, Some(aaw), Some(aah)) == Ok(ResizePlan(None, (aaw, aah)))
            && ResizeMclip(aaw, aah, Some(width), Some(height)) == Ok(ResizePlan(None, (width, height)))
  {
    DefaultAaSize(width, height);
    MultipleMod(width, 2);
    MultipleMod(height, 2);
    assert Overshoots(2 * width, width) == Ok(false);
    assert Overshoots(2 * height, height) == Ok(false);
    assert Overshoots(width, 2 * width) == Ok(false);
    assert Overshoots(height, 2 * height) == Ok(false);
  }
}
