/**
 * `hologram_effect` and the effect selection in `get_frame`.
 *
 * The colour map (`cv2.applyColorMap`) is outside the model: the effect
 * receives its output, `holo`, a fresh array of the frame's shape. The
 * random factors of the halftone come from a stream of uniform draws in
 * [0, 1), one draw per banded row, taken in row order.
 */
module Hologram {
  import opened Shift

  /** Rows come in bands of `BandLength` scaled rows followed by `BandGap` untouched ones. */
  const BandLength: nat := 2
  const BandGap: nat := 3
  /** The two ghost copies are shifted by (+GhostOffset, +GhostOffset) and (-GhostOffset, -GhostOffset). */
  const GhostOffset: int := 5

  /** Row `y` is darkened by the halftone. */
  predicate Banded(y: nat) {
    y % (BandLength + BandGap) < BandLength
  }

  /** `np.random.uniform(0.1, 0.3)` for the underlying draw `u` in [0, 1). */
  function Factor(u: real): (f: real)
    requires 0.0 <= u < 1.0
    ensures 0.1 <= f < 0.3
  {
    0.1 + (0.3 - 0.1) * u
  }

  /** How many rows before row `y` are banded: the number of draws the halftone has taken when it reaches `y`. */
  function BandedBefore(y: nat): (n: nat)
    ensures n <= y
  {
    if y == 0 then 0 else BandedBefore(y - 1) + (if Banded(y - 1) then 1 else 0)
  }

  /** Every full period of five rows takes two draws, and a partial period takes at most two. */
  lemma {:induction false} BandedBeforeClosedForm(y: nat)
    ensures BandedBefore(y) == 2 * (y / 5) + (if y % 5 < 2 then y % 5 else 2)
  {
    if y > 0 {
      BandedBeforeClosedForm(y - 1);
      if (y - 1) % 5 == 4 {
        assert y % 5 == 0 && y / 5 == (y - 1) / 5 + 1;
      } else {
        assert y % 5 == (y - 1) % 5 + 1 && y / 5 == (y - 1) / 5;
      }
    }
  }

  /** A banded row takes a draw that lies before every later row's count. */
  lemma {:induction false} BandedBeforeMonotone(y: nat, z: nat)
    requires y < z
    ensures BandedBefore(y) + (if Banded(y) then 1 else 0) <= BandedBefore(z)
  {
    if y + 1 < z {
      BandedBeforeMonotone(y, z - 1);
    }
  }

  /**
   * The halftone rule for one entry of `holo`, between its value before and
   * after: a banded row is multiplied by the factor of its own draw, every
   * other row is untouched.
   */
  twostate predicate HalftonedAt(holo: array3<real>, draws: seq<real>, y: nat, x: nat, c: nat)
    reads holo
    requires y < holo.Length0 && x < holo.Length1 && c < holo.Length2
    requires forall i :: 0 <= i < |draws| ==> 0.0 <= draws[i] < 1.0
  {
    if Banded(y) then
      BandedBefore(y) < |draws| && holo[y, x, c] == old(holo[y, x, c]) * Factor(draws[BandedBefore(y)])
    else
      holo[y, x, c] == old(holo[y, x, c])
  }

  /** The halftone rule holds for every entry of `holo`. */
  twostate predicate HalftoneApplied(holo: array3<real>, draws: seq<real>)
    reads holo
    requires forall i :: 0 <= i < |draws| ==> 0.0 <= draws[i] < 1.0
  {
    forall y, x, c :: 0 <= y < holo.Length0 && 0 <= x < holo.Length1 && 0 <= c < holo.Length2 ==>
      HalftonedAt(holo, draws, y, x, c)
  }

  /** `holo[y, :, :] = holo[y, :, :] * f`. */
  method ScaleRow(holo: array3<real>, y: nat, f: real)
    requires y < holo.Length0
    modifies holo
    ensures forall y', x, c :: 0 <= y' < holo.Length0 && 0 <= x < holo.Length1 && 0 <= c < holo.Length2 ==>
      holo[y', x, c] == if y' == y then old(holo[y', x, c]) * f else old(holo[y', x, c])
  {
    forall x, c | 0 <= x < holo.Length1 && 0 <= c < holo.Length2 {
      holo[y, x, c] := holo[y, x, c] * f;
    }
  }

  /** The value `v` of row `y` after the halftone, when the draws suffice. */
  ghost function HalftoneValue(v: real, y: nat, draws: seq<real>): real
    requires forall i :: 0 <= i < |draws| ==> 0.0 <= draws[i] < 1.0
  {
    if Banded(y) && BandedBefore(y) < |draws| then v * Factor(draws[BandedBefore(y)]) else v
  }

  /** The `for y` loop of the halftone; returns how many draws it took. */
  method Halftone(holo: array3<real>, draws: seq<real>) returns (used: nat)
    requires BandedBefore(holo.Length0) <= |draws|
    requires forall i :: 0 <= i < |draws| ==> 0.0 <= draws[i] < 1.0
    modifies holo
    ensures used == BandedBefore(holo.Length0)
    ensures HalftoneApplied(holo, draws)
  {
    used := 0;
    for y := 0 to holo.Length0
      invariant used == BandedBefore(y)
      invariant forall y', x, c :: 0 <= y' < y && 0 <= x < holo.Length1 && 0 <= c < holo.Length2 ==>
        holo[y', x, c] == HalftoneValue(old(holo[y', x, c]), y', draws)
      invariant forall y', x, c :: y <= y' < holo.Length0 && 0 <= x < holo.Length1 && 0 <= c < holo.Length2 ==>
        holo[y', x, c] == old(holo[y', x, c])
    {
      if Banded(y) {
        BandedBeforeMonotone(y, holo.Length0);
        ScaleRow(holo, y, Factor(draws[used]));
        used := used + 1;
      }
    }
    forall y, x, c | 0 <= y < holo.Length0 && 0 <= x < holo.Length1 && 0 <= c < holo.Length2
      ensures HalftonedAt(holo, draws, y, x, c)
    {
      BandedBeforeMonotone(y, holo.Length0);
    }
  }

  /** `cv2.addWeighted(a, alpha, b, beta, gamma)` over reals, without the rounding and saturation to 8 bits. */
  method AddWeighted(a: array3<real>, alpha: real, b: array3<real>, beta: real, gamma: real) returns (r: array3<real>)
    requires b.Length0 == a.Length0 && b.Length1 == a.Length1 && b.Length2 == a.Length2
    ensures fresh(r)
    ensures r.Length0 == a.Length0 && r.Length1 == a.Length1 && r.Length2 == a.Length2
    ensures forall i, j, k :: 0 <= i < r.Length0 && 0 <= j < r.Length1 && 0 <= k < r.Length2 ==>
      r[i, j, k] == a[i, j, k] * alpha + b[i, j, k] * beta + gamma
  {
    r := new real[a.Length0, a.Length1, a.Length2];
    forall i, j, k | 0 <= i < r.Length0 && 0 <= j < r.Length1 && 0 <= k < r.Length2 {
      r[i, j, k] := a[i, j, k] * alpha + b[i, j, k] * beta + gamma;
    }
  }

  /**
   * Pixel (y, x, c) of the hologram of `img` made from the halftoned `holo`:
   * `holo` blended at 0.2 with its ghost shifted by (+5, +5) at 0.8, that
   * blended at 0.4 with the ghost shifted by (-5, -5) at 0.6, and the result
   * added at 0.6 to the original at 0.5.
   */
  ghost function HologramAt(img: array3<real>, holo: array3<real>, y: nat, x: nat, c: nat): real
    reads img, holo
    requires y < img.Length0 && x < img.Length1 && c < img.Length2
    requires holo.Length0 == img.Length0 && holo.Length1 == img.Length1 && holo.Length2 == img.Length2
  {
    img[y, x, c] * 0.5 +
      ((holo[y, x, c] * 0.2 + ShiftedAt(holo, GhostOffset, GhostOffset, y, x, c) * 0.8) * 0.4
       + ShiftedAt(holo, -GhostOffset, -GhostOffset, y, x, c) * 0.6) * 0.6
  }

  /**
   * `hologram_effect(img)` given the colour-mapped `holo`: halftone `holo`
   * in place, blend in a ghost shifted by (+5, +5) and then one shifted by
   * (-5, -5), and add the result to the original at weights 0.5 and 0.6.
   */
  method HologramEffect(img: array3<real>, holo: array3<real>, draws: seq<real>) returns (out: array3<real>)
    requires holo != img
    requires holo.Length0 == img.Length0 && holo.Length1 == img.Length1 && holo.Length2 == img.Length2
    requires BandedBefore(holo.Length0) <= |draws|
    requires forall i :: 0 <= i < |draws| ==> 0.0 <= draws[i] < 1.0
    modifies holo
    ensures HalftoneApplied(holo, draws)
    ensures fresh(out)
    ensures out.Length0 == img.Length0 && out.Length1 == img.Length1 && out.Length2 == img.Length2
    ensures forall y, x, c :: 0 <= y < out.Length0 && 0 <= x < out.Length1 && 0 <= c < out.Length2 ==>
      out[y, x, c] == HologramAt(img, holo, y, x, c)
  {
    var _ := Halftone(holo, draws);
    var ahead := ShiftImage(holo, GhostOffset, GhostOffset);
    var blurred := AddWeighted(holo, 0.2, ahead, 0.8, 0.0);
    var behind := ShiftImage(holo, -GhostOffset, -GhostOffset);
    blurred := AddWeighted(blurred, 0.4, behind, 0.6, 0.0);
    out := AddWeighted(img, 0.5, blurred, 0.6, 0.0);
  }

  /** The effects `get_frame` can apply, named by the `EFFECT` setting. */
  datatype Effect = NoEffect | HologramEffectKind

  /** `get_frame`'s effect step: no effect keeps the frame; the hologram replaces it with the hologram of the frame. */
  method ApplyEffect(effect: Effect, frame: array3<real>, holo: array3<real>, draws: seq<real>) returns (out: array3<real>)
    requires effect.HologramEffectKind? ==>
      holo != frame &&
      holo.Length0 == frame.Length0 && holo.Length1 == frame.Length1 && holo.Length2 == frame.Length2 &&
      BandedBefore(holo.Length0) <= |draws| &&
      forall i :: 0 <= i < |draws| ==> 0.0 <= draws[i] < 1.0
    modifies holo
    ensures out.Length0 == frame.Length0 && out.Length1 == frame.Length1 && out.Length2 == frame.Length2
    ensures effect.NoEffect? ==> out == frame && unchanged(holo)
    ensures effect.HologramEffectKind? ==> fresh(out) && HalftoneApplied(holo, draws)
    ensures effect.HologramEffectKind? ==>
      forall y, x, c :: 0 <= y < out.Length0 && 0 <= x < out.Length1 && 0 <= c < out.Length2 ==>
        out[y, x, c] == HologramAt(frame, holo, y, x, c)
  {
    match effect
    case NoEffect =>
      out := frame;
    case HologramEffectKind =>
      out := HologramEffect(frame, holo, draws);
  }
}
