# fakecam per-frame processing, modelled in Dafny

This project models the per-frame core of `fakecam/fake.py`, a virtual-background webcam. Each frame is processed in the same steps:

- The mask is fetched from a body-segmentation service. The request is retried while it fails.
- The service's flat byte buffer is reshaped into a mask.
- The optional hologram effect is applied: a halftone over rows, two ghost copies made with `shift_image`, and weighted blends.
- The frame is composited over a background. The background comes from a cache that reloads a static image or loops a video.

Files:

- `wrappers.dfy`: the `Option` and `Result` types.
- `shift.dfy`: `shift_image`. Images are `array3<real>` indexed (row, column, channel).
- `hologram.dfy`: the halftone loop, `hologram_effect` and the effect selection of `get_frame`.
- `segmentation.dfy`: the reshape in `get_mask` and the `while mask is None` retry loop.
- `compositor.dfy`: the per-channel composite loop of `get_frame`.
- `background.dfy`: both `get_background_scaled` variants and the `_background_scaled` cache.

Inputs stand in for I/O and randomness:

- The clock `int(time.time())` is the parameter `now`.
- The file size from `os.stat` is `fileSize`.
- The decoded file is `image` for the static variant and `contents`, a list of frames, for the video variant.
- Each attempt at the segmentation service is a `Reply`: a transport failure or a response body.
- `np.random.uniform(0.1, 0.3)` is `0.1 + 0.2 * u`, where `u` is the next value of a stream `draws` of uniform values in [0, 1).
- `cv2.resize` is the symbolic value `Scaled(source, width, height)`.
- `cv2.VideoCapture` is the class `Capture`: a finite list of frames and a read position.

Behaviour of `fake.py` worth noting:

- The halftone draws a new factor for every banded row, so the two rows of a band are scaled differently (`fakecam/fake.py:42-44`).
- The file is checked when the clock second is a multiple of 10, and on every call while the cache is empty (`fakecam/fake.py:112`, `127`).
- A video that fails to read is set to frame 1, not frame 0, so every loop after the first skips frame 0 (`fakecam/fake.py:123`).
- A stream of at most one frame fails every read once it is set to frame 1. The function then calls itself with no bound until CPython raises `RecursionError`, which nothing catches, and the process ends (`fakecam/fake.py:119-124`, `135-139`). The model's `None` result stands for that failure.

## Model

| member | source | states |
|---|---|---|
| `Shift.ShiftIndex` | fakecam/fake.py:24-35 | Along one axis, a surviving entry takes its value from an index inside the axis. The wrapped entries are zeroed: the first `d` when `d > 0`, the last `-d` when `d < 0`. |
| `Shift.ShiftIndexIsTranslation` | fakecam/fake.py:25-34 | Roll followed by zero-fill is a plain translation along one axis. Entry `i` comes from `i - d` when that index exists, and is zero otherwise. Nothing that survives has wrapped round. |
| `Shift.ShiftIsTranslation` | fakecam/fake.py:24-35 | `shift_image(img, dx, dy)` at (i, j, k) equals `img[i - dy, j - dx, k]` when that pixel exists, and 0 otherwise. |
| `Shift.ShiftByZeroIsIdentity` | fakecam/fake.py:24-35 | Shifting by (0, 0) gives back the image. |
| `Shift.ShiftZeroFillsBorder` | fakecam/fake.py:27-34 | These entries are 0: the first `dy` rows when `dy > 0`, the last `-dy` rows when `dy < 0`, and the same for `dx` and the columns. |
| `Shift.RollRows` | fakecam/fake.py:25 | `np.roll(img, dy, axis=0)` is a new array of the same shape. Its row `i` is input row `(i - dy) mod height`. |
| `Shift.RollColumns` | fakecam/fake.py:26 | `np.roll(img, dx, axis=1)` is a new array of the same shape. Its column `j` is input column `(j - dx) mod width`. |
| `Shift.ZeroRows` | fakecam/fake.py:27-30 | `img[lo:hi, :] = 0` in place, clipped to the existing rows. All other entries are unchanged. |
| `Shift.ZeroColumns` | fakecam/fake.py:31-34 | `img[:, lo:hi] = 0` in place, clipped to the existing columns. All other entries are unchanged. |
| `Shift.ShiftImage` | fakecam/fake.py:24-35 | Returns a fresh array of the input's shape and leaves the input alone. Every entry is the shifted value. |
| `Hologram.Factor` | fakecam/fake.py:44 | A factor drawn with `np.random.uniform(0.1, 0.3)` lies in [0.1, 0.3). |
| `Hologram.BandedBefore` | fakecam/fake.py:42-44 | The number of draws taken before row `y` is at most `y`. |
| `Hologram.BandedBeforeClosedForm` | fakecam/fake.py:41-44 | The rows before `y` take `2 * (y / 5) + min(y % 5, 2)` draws: two per band of 2 + 3 rows. |
| `Hologram.BandedBeforeMonotone` | fakecam/fake.py:42-44 | A banded row's draw comes before the draws of every later row, so its index is below the total draw count of the image. |
| `Hologram.ScaleRow` | fakecam/fake.py:44 | `holo[y, :, :] *= f` scales row `y` and changes no other row. |
| `Hologram.Halftone` | fakecam/fake.py:41-44 | A row with `y % 5 < 2` becomes its old value times the factor of its own draw. Every other row is unchanged. An image of height `h` takes exactly `BandedBefore(h)` draws. |
| `Hologram.AddWeighted` | fakecam/fake.py:46-49 | `cv2.addWeighted(a, alpha, b, beta, gamma)` is a fresh array of the same shape holding `a*alpha + b*beta + gamma` entrywise. |
| `Hologram.HologramEffect` | fakecam/fake.py:37-50 | Halftones `holo` in place. The output pixel is `0.5*img + 0.6*(0.4*(0.2*holo + 0.8*shift(holo, 5, 5)) + 0.6*shift(holo, -5, -5))`. |
| `Hologram.ApplyEffect` | fakecam/fake.py:74-76 | With no effect the frame itself is kept and `holo` is untouched. With the hologram effect, `holo` is halftoned and the result is a new array holding the hologram of the frame, pixel by pixel as in `HologramEffect`. |
| `Segmentation.Rows` | fakecam/fake.py:15-16 | Cutting `h * w` bytes into rows gives `h` rows of `w` entries. |
| `Segmentation.RowsAt` | fakecam/fake.py:16 | Row `i`, column `j` of the reshaped buffer is byte `i * w + j`. |
| `Segmentation.DecodeMask` | fakecam/fake.py:15-16 | The reshape succeeds if and only if the buffer holds exactly `h * w` bytes. Then the mask has shape (h, w) and holds byte `r * w + c` at (r, c). Otherwise it fails and reports the buffer's size. |
| `Segmentation.DecodeFlatten` | fakecam/fake.py:15-16 | Decoding the row-major bytes of an (h, w) mask gives the mask back. |
| `Segmentation.FlattenDecode` | fakecam/fake.py:15-16 | A buffer that decodes is exactly the row-major bytes of its mask. |
| `Segmentation.FirstResponse` | fakecam/fake.py:56-70 | Gives the index of the first attempt the service answered, with every earlier attempt failed. Gives none when every attempt failed. |
| `Segmentation.FetchMask` | fakecam/fake.py:56-70 | The loop ends at the first answered attempt `k`, having slept exactly `k` times: once after each earlier failure and never after the answer. A body of the wrong size raises the reshape error out of the loop, because only `RequestException` is caught. When no attempt is answered the loop is still retrying and has slept once per attempt. |
| `Compositor.BlendAtExtremes` | fakecam/fake.py:79-81 | With mask 0 the background shows. With mask 1 the frame shows. |
| `Compositor.BlendBetween` | fakecam/fake.py:79-81 | With a mask value in [0, 1], the result lies between the frame value and the background value. |
| `Compositor.BlendOfEqual` | fakecam/fake.py:79-81 | Where frame and background agree, the mask makes no difference. |
| `Compositor.Composite` | fakecam/fake.py:78-81 | Every channel of every pixel of `frame` becomes `frame*m + background*(1-m)`, where `m` is the pixel's mask value. The new value is computed from the old frame and background values. |
| `Background.FirstCallLoads` | fakecam/fake.py:112-114 | With nothing cached, the file is checked and reloaded whatever the clock says. |
| `Background.ReloadNeedsTickAndChange` | fakecam/fake.py:127-129 | Once something is cached, a reload happens if and only if `now % 10 == 0` and the file size differs from the cached one. |
| `Background.NoReloadOfSameSize` | fakecam/fake.py:114 | A file whose size equals the cached size is never reloaded. |
| `Background.StaticBackground.constructor` | fakecam/fake.py:109 | The cache starts empty. |
| `Background.StaticBackground.Get` | fakecam/fake.py:126-133 | A reload caches the image resized to (width, height) together with the new size. Without a reload the cache is unchanged. The call returns the cached frame. |
| `Background.Capture.Open` | fakecam/fake.py:117 | A new capture is at frame 0 and open. |
| `Background.Capture.Read` | fakecam/fake.py:120 | A read returns the frame at the position and advances it. Past the end, or once released, the read fails and the position stays. |
| `Background.Capture.SeekTo` | fakecam/fake.py:123 | Sets the position of the next frame. |
| `Background.Capture.Release` | fakecam/fake.py:116 | Releases the capture. |
| `Background.ServeFrom` | fakecam/fake.py:119-124 | The read-and-retry recursion, bounded to `fuel` reads, only returns frames of the stream. |
| `Background.RewoundShortStreamNeverReads` | fakecam/fake.py:120-124 | Once set to frame 1, a stream of at most one frame fails every read and stays at frame 1. |
| `Background.TwoReadsDecide` | fakecam/fake.py:119-124 | Any number of reads, two or more, gives the outcome of two reads. So the recursion, which the code does not bound, returns the two-read result when that is a frame. Otherwise it fails the same way at every depth until CPython's `RecursionError` ends the process. |
| `Background.ServeSucceeds` | fakecam/fake.py:119-124 | The recursion returns a frame if and only if there is one at the position or the video has at least two frames. |
| `Background.VideoBackground.constructor` | fakecam/fake.py:109 | The cache starts empty, with no stream events. |
| `Background.VideoBackground.Refresh` | fakecam/fake.py:112-118 | On a reload the cached capture, if any, is released before the new one is opened. The new capture is cached with the new size. Otherwise nothing changes. Afterwards the same inputs would not reload again. |
| `Background.VideoBackground.Get` | fakecam/fake.py:111-124 | After the refresh, the returned frame is the next frame of the cached stream, resized to (width, height). After a failed read, it is frame 1 read after seeking. The call returns none when that read fails too. The stream position and the ordered event log (release, open, reads, seeks) match. |

## Left out

- `requests.post` and `cv2.imencode` in `get_mask` (network I/O and a foreign codec). Each attempt's outcome is an input.
- In speed mode, the frame is shrunk to half the configured size before the request and the mask is resized back up. Both `cv2.resize` calls are left out. The retry loop is modelled for the shape of the frame actually sent.
- The diagnostics printed on each failed request. The 5-second `time.sleep` is counted, not performed.
- `post_process_mask`: the `cv2.dilate` and `cv2.blur` kernels, whose border and anchor rules are not visible here.
- `cv2.applyColorMap`. `HologramEffect` receives its output `holo`.
- Hologram.AddWeighted: does not model the rounding and saturation of `cv2.addWeighted` to 8 bits, because that is floating-point behaviour of a foreign kernel.
- Hologram.Halftone: does not model the truncation to 8 bits when a scaled row is stored back into the `uint8` array.
- Compositor.Composite: does not model the float-to-`uint8` cast when the blend is written into `frame`. It requires mask and background to match the frame's rows and columns exactly, where numpy would also broadcast dimensions of size 1.
- Background.VideoBackground.Get: the recursive call is assumed to see the same clock second and file size as the outer call. The recursion is represented by two reads plus `TwoReadsDecide`. When both reads fail, the result is `None`, standing for the `RecursionError` that CPython raises at its recursion limit and that ends the process.
- `cv2.resize` of background frames. The result is the symbolic `Scaled(source, width, height)`.
- The `cv2.imread` and `os.stat` failure paths, which are unhandled in the source and end the process.
- The effect lookup `globals()[effect + '_effect']` is the two-case `Effect` datatype. An unknown effect name, which raises `KeyError`, is not modelled.
- Configuration parsing, camera and virtual-device setup, the camera read in `get_frame`, the `cvtColor` hand-off, `schedule_frame` and the endless main loop (`fakecam/fake.py:87-106`, `135-139`).
