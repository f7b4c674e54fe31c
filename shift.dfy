/**
 * `shift_image`: roll an image circularly by `dy` rows and `dx` columns
 * (numpy's `roll`, which allocates a new array), then zero-fill in place the
 * rows and columns that wrapped round.
 *
 * Images are `array3<real>` indexed (row, column, channel).
 */
module Shift {
  import opened Wrappers

  /**
   * Where entry `i` of an axis of length `n`, shifted by `d`, takes its value
   * from: `roll` moves entry `(i - d) mod n` to `i`; the entries that wrapped
   * round (the first `d` when `d > 0`, the last `-d` when `d < 0`) are zeroed,
   * which is `None` here.
   */
  function ShiftIndex(n: nat, d: int, i: nat): (r: Option<nat>)
    requires i < n
    ensures r.Some? ==> r.value < n
  {
    if (d > 0 && i < d) || (d < 0 && i >= n + d) then None
    else Some((i - d) % n)
  }

  /** The value `shift_image(img, dx, dy)` holds at (i, j, k). */
  ghost function ShiftedAt(img: array3<real>, dx: int, dy: int, i: nat, j: nat, k: nat): real
    reads img
    requires i < img.Length0 && j < img.Length1 && k < img.Length2
  {
    match (ShiftIndex(img.Length0, dy, i), ShiftIndex(img.Length1, dx, j))
    case (Some(si), Some(sj)) => img[si, sj, k]
    case _ => 0.0
  }

  /**
   * Once the wrapped entries are zeroed, no entry that survives has wrapped:
   * the shift is a plain translation by `d`, and an entry is zeroed exactly
   * when its source `i - d` lies outside the axis.
   */
  lemma ShiftIndexIsTranslation(n: nat, d: int, i: nat)
    requires i < n
    ensures ShiftIndex(n, d, i) == if 0 <= i - d < n then Some(i - d) else None
  {
    if 0 <= i - d < n {
      assert (i - d) % n == i - d;
    }
  }

  /** `shift_image` translates the image by (dy, dx) and fills the uncovered border with zeros. */
  lemma ShiftIsTranslation(img: array3<real>, dx: int, dy: int)
    ensures forall i, j, k :: 0 <= i < img.Length0 && 0 <= j < img.Length1 && 0 <= k < img.Length2 ==>
      ShiftedAt(img, dx, dy, i, j, k) ==
        if 0 <= i - dy < img.Length0 && 0 <= j - dx < img.Length1 then img[i - dy, j - dx, k] else 0.0
  {
    forall i, j, k | 0 <= i < img.Length0 && 0 <= j < img.Length1 && 0 <= k < img.Length2
      ensures ShiftedAt(img, dx, dy, i, j, k) ==
        if 0 <= i - dy < img.Length0 && 0 <= j - dx < img.Length1 then img[i - dy, j - dx, k] else 0.0
    {
      ShiftIndexIsTranslation(img.Length0, dy, i);
      ShiftIndexIsTranslation(img.Length1, dx, j);
    }
  }

  /** Shifting by (0, 0) gives back the image. */
  lemma ShiftByZeroIsIdentity(img: array3<real>)
    ensures forall i, j, k :: 0 <= i < img.Length0 && 0 <= j < img.Length1 && 0 <= k < img.Length2 ==>
      ShiftedAt(img, 0, 0, i, j, k) == img[i, j, k]
  {
    ShiftIsTranslation(img, 0, 0);
  }

  /**
   * The zero-filled border: for `dy > 0` the first `dy` rows, for `dy < 0`
   * the last `-dy` rows, and the same for `dx` and the columns.
   */
  lemma ShiftZeroFillsBorder(img: array3<real>, dx: int, dy: int, i: nat, j: nat, k: nat)
    requires i < img.Length0 && j < img.Length1 && k < img.Length2
    requires (dy > 0 && i < dy) || (dy < 0 && i >= img.Length0 + dy) ||
             (dx > 0 && j < dx) || (dx < 0 && j >= img.Length1 + dx)
    ensures ShiftedAt(img, dx, dy, i, j, k) == 0.0
  {
  }

  /** `np.roll(img, d, axis=0)`: a new array whose row `i` is row `(i - d) mod n` of `img`. */
  method RollRows(img: array3<real>, d: int) returns (r: array3<real>)
    ensures fresh(r)
    ensures r.Length0 == img.Length0 && r.Length1 == img.Length1 && r.Length2 == img.Length2
    ensures forall i, j, k :: 0 <= i < r.Length0 && 0 <= j < r.Length1 && 0 <= k < r.Length2 ==>
      r[i, j, k] == img[(i - d) % img.Length0, j, k]
  {
    r := new real[img.Length0, img.Length1, img.Length2];
    forall i, j, k | 0 <= i < r.Length0 && 0 <= j < r.Length1 && 0 <= k < r.Length2 {
      r[i, j, k] := img[(i - d) % img.Length0, j, k];
    }
  }

  /** `np.roll(img, d, axis=1)`: a new array whose column `j` is column `(j - d) mod n` of `img`. */
  method RollColumns(img: array3<real>, d: int) returns (r: array3<real>)
    ensures fresh(r)
    ensures r.Length0 == img.Length0 && r.Length1 == img.Length1 && r.Length2 == img.Length2
    ensures forall i, j, k :: 0 <= i < r.Length0 && 0 <= j < r.Length1 && 0 <= k < r.Length2 ==>
      r[i, j, k] == img[i, (j - d) % img.Length1, k]
  {
    r := new real[img.Length0, img.Length1, img.Length2];
    forall i, j, k | 0 <= i < r.Length0 && 0 <= j < r.Length1 && 0 <= k < r.Length2 {
      r[i, j, k] := img[i, (j - d) % img.Length1, k];
    }
  }

  /**
   * `img[lo:hi, :] = 0` for absolute row indices: zeroes the existing rows
   * `lo <= i < hi`. A negative Python slice start counts from the end, so
   * callers pass it already normalised (`Length0 + dy`, not `dy`).
   */
  method ZeroRows(img: array3<real>, lo: int, hi: int)
    modifies img
    ensures forall i, j, k :: 0 <= i < img.Length0 && 0 <= j < img.Length1 && 0 <= k < img.Length2 ==>
      img[i, j, k] == if lo <= i < hi then 0.0 else old(img[i, j, k])
  {
    forall i, j, k | 0 <= i < img.Length0 && 0 <= j < img.Length1 && 0 <= k < img.Length2 && lo <= i < hi {
      img[i, j, k] := 0.0;
    }
  }

  /**
   * `img[:, lo:hi] = 0` for absolute column indices: zeroes the existing
   * columns `lo <= j < hi`. A negative Python slice start counts from the
   * end, so callers pass it already normalised (`Length1 + dx`, not `dx`).
   */
  method ZeroColumns(img: array3<real>, lo: int, hi: int)
    modifies img
    ensures forall i, j, k :: 0 <= i < img.Length0 && 0 <= j < img.Length1 && 0 <= k < img.Length2 ==>
      img[i, j, k] == if lo <= j < hi then 0.0 else old(img[i, j, k])
  {
    forall i, j, k | 0 <= i < img.Length0 && 0 <= j < img.Length1 && 0 <= k < img.Length2 && lo <= j < hi {
      img[i, j, k] := 0.0;
    }
  }

  /** `shift_image(img, dx, dy)`: the input is left alone; the result is a new array of the same shape. */
  method ShiftImage(img: array3<real>, dx: int, dy: int) returns (r: array3<real>)
    ensures fresh(r)
    ensures r.Length0 == img.Length0 && r.Length1 == img.Length1 && r.Length2 == img.Length2
    ensures forall i, j, k :: 0 <= i < r.Length0 && 0 <= j < r.Length1 && 0 <= k < r.Length2 ==>
      r[i, j, k] == ShiftedAt(img, dx, dy, i, j, k)
  {
    var rolled := RollRows(img, dy);
    r := RollColumns(rolled, dx);
    if dy > 0 {
      ZeroRows(r, 0, dy);
    } else if dy < 0 {
      ZeroRows(r, r.Length0 + dy, r.Length0);
    }
    if dx > 0 {
      ZeroColumns(r, 0, dx);
    } else if dx < 0 {
      ZeroColumns(r, r.Length1 + dx, r.Length1);
    }
  }
}
