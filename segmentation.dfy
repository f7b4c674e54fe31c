/**
 * `get_mask` and the retry loop of `get_frame`.
 *
 * The segmentation service answers a request with a flat byte buffer that
 * `get_mask` reshapes row-major into a (rows, columns) mask. The HTTP call
 * itself is not modelled: each attempt is given as a `Reply`, either a
 * transport failure (`requests.RequestException`) or a response body.
 */
module Segmentation {
  import opened Wrappers

  newtype byte = x: int | 0 <= x < 256

  /** A single-channel mask, one row per element. */
  type Mask = seq<seq<byte>>

  /** `m` has `h` rows of `w` entries. */
  predicate IsShape(m: Mask, h: nat, w: nat) {
    |m| == h && forall i :: 0 <= i < h ==> |m[i]| == w
  }

  /** numpy's `ValueError` when a buffer of `size` bytes cannot be reshaped into `rows * cols` entries. */
  datatype ReshapeError = CannotReshape(size: nat, rows: nat, cols: nat)

  /** `(h - 1) * w == h * w - w`: the buffer after the first row holds the other rows. */
  lemma RestOfRows(h: nat, w: nat)
    requires h > 0
    ensures w <= h * w && (h - 1) * w == h * w - w
  {
  }

  /** Row `i`, column `j` of `m` holds byte `i * w + j` of `buf`. */
  predicate RowMajorAt(m: Mask, buf: seq<byte>, w: nat, i: nat, j: nat)
    requires i < |m| && j < |m[i]|
  {
    i * w + j < |buf| && m[i][j] == buf[i * w + j]
  }

  /** `m` is `buf` laid out row-major in `h` rows of `w` entries. */
  predicate IsRowMajor(m: Mask, buf: seq<byte>, h: nat, w: nat) {
    IsShape(m, h, w) && forall i, j :: 0 <= i < h && 0 <= j < w ==> RowMajorAt(m, buf, w, i, j)
  }

  /** Cuts a buffer of exactly `h * w` bytes into `h` consecutive rows of `w` bytes. */
  function Rows(buf: seq<byte>, h: nat, w: nat): (m: Mask)
    requires |buf| == h * w
    ensures IsShape(m, h, w)
  {
    if h == 0 then []
    else
      RestOfRows(h, w);
      [buf[..w]] + Rows(buf[w..], h - 1, w)
  }

  /** Row `i`, column `j` of the cut buffer is byte `i * w + j`. */
  lemma {:induction false} RowsAt(buf: seq<byte>, h: nat, w: nat, i: nat, j: nat)
    requires |buf| == h * w && i < h && j < w
    ensures i * w + j < |buf| && Rows(buf, h, w)[i][j] == buf[i * w + j]
  {
    RestOfRows(h, w);
    if i > 0 {
      RowsAt(buf[w..], h - 1, w, i - 1, j);
      RestOfRows(i, w);
    }
  }

  lemma RowsAreRowMajor(buf: seq<byte>, h: nat, w: nat)
    requires |buf| == h * w
    ensures IsRowMajor(Rows(buf, h, w), buf, h, w)
  {
    forall i, j | 0 <= i < h && 0 <= j < w
      ensures RowMajorAt(Rows(buf, h, w), buf, w, i, j)
    {
      RowsAt(buf, h, w, i, j);
    }
  }

  /**
   * `np.frombuffer(content, dtype=np.uint8).reshape((h, w))`: fails unless
   * the buffer holds exactly `h * w` bytes, and otherwise puts byte
   * `r * w + c` at row `r`, column `c`.
   */
  function DecodeMask(buf: seq<byte>, h: nat, w: nat): (r: Result<Mask, ReshapeError>)
    ensures r.Ok? <==> |buf| == h * w
    ensures r.Ok? ==> IsShape(r.value, h, w)
    ensures r.Ok? ==> IsRowMajor(r.value, buf, h, w)
    ensures r.Err? ==> r.error.size == |buf|
  {
    if |buf| != h * w then Err(CannotReshape(|buf|, h, w))
    else
      RowsAreRowMajor(buf, h, w);
      Ok(Rows(buf, h, w))
  }

  /** The service's encoding of a mask: its rows one after the other. */
  function Flatten(m: Mask): (buf: seq<byte>) {
    if m == [] then [] else m[0] + Flatten(m[1..])
  }

  /** Decoding a flattened mask of the requested shape gives the mask back. */
  lemma {:induction false} DecodeFlatten(m: Mask, h: nat, w: nat)
    requires IsShape(m, h, w)
    ensures DecodeMask(Flatten(m), h, w) == Ok(m)
  {
    RowsFlatten(m, h, w);
  }

  lemma {:induction false} RowsFlatten(m: Mask, h: nat, w: nat)
    requires IsShape(m, h, w)
    ensures |Flatten(m)| == h * w && Rows(Flatten(m), h, w) == m
  {
    if h > 0 {
      RowsFlatten(m[1..], h - 1, w);
      assert Flatten(m)[..w] == m[0];
      assert Flatten(m)[w..] == Flatten(m[1..]);
    }
  }

  /** Every buffer that decodes is the flattening of its mask: the service's encoding is recovered exactly. */
  lemma {:induction false} FlattenDecode(buf: seq<byte>, h: nat, w: nat)
    requires DecodeMask(buf, h, w).Ok?
    ensures Flatten(DecodeMask(buf, h, w).value) == buf
  {
    FlattenRows(buf, h, w);
  }

  lemma {:induction false} FlattenRows(buf: seq<byte>, h: nat, w: nat)
    requires |buf| == h * w
    ensures Flatten(Rows(buf, h, w)) == buf
  {
    if h > 0 {
      RestOfRows(h, w);
      var rest := buf[w..];
      FlattenRows(rest, h - 1, w);
      var m := Rows(buf, h, w);
      assert m == [buf[..w]] + Rows(rest, h - 1, w);
      assert m[1..] == Rows(rest, h - 1, w);
      assert Flatten(m) == buf[..w] + Flatten(Rows(rest, h - 1, w));
      assert buf == buf[..w] + rest;
    }
  }

  /** One attempt at `get_mask`: the request raised a `RequestException`, or the service answered with `body`. */
  datatype Reply = RequestFailed | Responded(body: seq<byte>)

  /**
   * How the retry loop ends: with a mask, with the reshape error that
   * escapes it (only `RequestException` is caught), or not yet, when every
   * attempt so far failed and the loop keeps retrying.
   */
  datatype Fetched = Got(mask: Mask) | Raised(error: ReshapeError) | StillRetrying

  /** What a response body of the service turns into in the loop. */
  function Received(body: seq<byte>, h: nat, w: nat): Fetched {
    match DecodeMask(body, h, w)
    case Ok(m) => Got(m)
    case Err(e) => Raised(e)
  }

  /** The index of the first attempt the service answered, if any. */
  function FirstResponse(replies: seq<Reply>): (k: Option<nat>)
    ensures k.Some? ==> k.value < |replies| && replies[k.value].Responded?
    ensures k.Some? ==> forall i :: 0 <= i < k.value ==> replies[i].RequestFailed?
    ensures k.None? ==> forall i :: 0 <= i < |replies| ==> replies[i].RequestFailed?
  {
    if replies == [] then None
    else if replies[0].Responded? then Some(0)
    else match FirstResponse(replies[1..])
      case None => None
      case Some(k) => Some(k + 1)
  }

  /**
   * The `while mask is None` loop of `get_frame` over the attempts
   * `replies`, for a sent frame of `h` rows and `w` columns; `sleeps` counts
   * the calls to `time.sleep(5)`. The loop takes the first attempt the
   * service answers, having slept once after each failed attempt before it
   * and never after it; if no attempt is answered it is still retrying and
   * has slept once per attempt.
   */
  method FetchMask(replies: seq<Reply>, h: nat, w: nat) returns (result: Fetched, sleeps: nat)
    ensures FirstResponse(replies).None? ==> result == StillRetrying && sleeps == |replies|
    ensures FirstResponse(replies).Some? ==>
      sleeps == FirstResponse(replies).value &&
      result == Received(replies[FirstResponse(replies).value].body, h, w)
    ensures result.Got? ==> IsShape(result.mask, h, w)
  {
    result, sleeps := StillRetrying, 0;
    var i := 0;
    while result.StillRetrying? && i < |replies|
      invariant 0 <= i <= |replies|
      invariant result.StillRetrying? ==> sleeps == i && forall j :: 0 <= j < i ==> replies[j].RequestFailed?
      invariant !result.StillRetrying? ==>
        0 < i && sleeps == i - 1 && replies[i - 1].Responded? &&
        (forall j :: 0 <= j < i - 1 ==> replies[j].RequestFailed?) &&
        result == Received(replies[i - 1].body, h, w)
    {
      match replies[i] {
        case RequestFailed =>
          sleeps := sleeps + 1;
        case Responded(body) =>
          result := Received(body, h, w);
      }
      i := i + 1;
    }
  }
}
