/**
 * The composite at the end of `get_frame`: for each channel `c`,
 * `frame[:, :, c] = frame[:, :, c] * mask + background[:, :, c] * (1 - mask)`,
 * written back into `frame`. Values are reals; the cast of the result to
 * 8 bits when it is stored into the frame is not modelled.
 */
module Compositor {

  /** One blended value: the frame weighted by the mask, the background by the rest. */
  function Blend(f: real, b: real, m: real): real {
    f * m + b * (1.0 - m)
  }

  /** Where the mask is 0 the background shows, where it is 1 the frame shows. */
  lemma BlendAtExtremes(f: real, b: real)
    ensures Blend(f, b, 0.0) == b && Blend(f, b, 1.0) == f
  {
  }

  /** A weight in [0, 1] gives a value between the frame's and the background's. */
  lemma BlendBetween(f: real, b: real, m: real)
    requires 0.0 <= m <= 1.0
    ensures (if f <= b then f else b) <= Blend(f, b, m) <= (if f <= b then b else f)
  {
    assert Blend(f, b, m) == b + m * (f - b);
    if f <= b {
      NonNegativeProduct(m, b - f);
      NonNegativeProduct(1.0 - m, b - f);
    } else {
      NonNegativeProduct(m, f - b);
      NonNegativeProduct(1.0 - m, f - b);
    }
  }

  lemma NonNegativeProduct(x: real, y: real)
    requires 0.0 <= x && 0.0 <= y
    ensures 0.0 <= x * y
  {
  }

  /** Equal frame and background values come out unchanged, whatever the mask. */
  lemma BlendOfEqual(v: real, m: real)
    ensures Blend(v, v, m) == v
  {
  }

  /**
   * The per-channel loop. The mask must have the frame's rows and columns,
   * and the background its rows and columns and at least its channels,
   * since the loop indexes `background[:, :, c]` for each channel `c` of the
   * frame. The frame keeps its shape; every entry becomes the blend of its
   * old value and the background's under its pixel's mask value.
   */
  method Composite(frame: array3<real>, mask: array2<real>, background: array3<real>)
    requires mask.Length0 == frame.Length0 && mask.Length1 == frame.Length1
    requires background.Length0 == frame.Length0 && background.Length1 == frame.Length1
    requires frame.Length2 <= background.Length2
    modifies frame
    ensures forall y, x, c :: 0 <= y < frame.Length0 && 0 <= x < frame.Length1 && 0 <= c < frame.Length2 ==>
      frame[y, x, c] == Blend(old(frame[y, x, c]), old(background[y, x, c]), mask[y, x])
  {
    for c := 0 to frame.Length2
      invariant forall y, x, c' :: 0 <= y < frame.Length0 && 0 <= x < frame.Length1 && 0 <= c' < c ==>
        frame[y, x, c'] == Blend(old(frame[y, x, c']), old(background[y, x, c']), mask[y, x])
      invariant forall y, x, c' :: 0 <= y < frame.Length0 && 0 <= x < frame.Length1 && c <= c' < frame.Length2 ==>
        frame[y, x, c'] == old(frame[y, x, c'])
      invariant forall y, x, c' :: 0 <= y < frame.Length0 && 0 <= x < frame.Length1 && c <= c' < background.Length2 ==>
        background[y, x, c'] == old(background[y, x, c'])
    {
      forall y, x | 0 <= y < frame.Length0 && 0 <= x < frame.Length1 {
        frame[y, x, c] := frame[y, x, c] * mask[y, x] + background[y, x, c] * (1.0 - mask[y, x]);
      }
    }
  }
}
