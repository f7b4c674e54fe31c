/**
 * The two `get_background_scaled` variants and the `_background_scaled`
 * cache they share.
 *
 * The clock (`int(time.time())`), the file size (`os.stat(...).st_size`)
 * and the file's contents (what `cv2.imread` loads, or the frames a
 * `cv2.VideoCapture` decodes) are inputs. `cv2.resize` is not modelled:
 * a resized frame is the value `Scaled(source, width, height)`, recording
 * what was resized to which size.
 */
module Background {
  import opened Wrappers

  /** The cache is checked when the clock, in whole seconds, is a multiple of this. */
  const RefreshPeriod: int := 10

  /** `cv2.resize(source, (width, height))`. */
  datatype Scaled<P> = Scaled(source: P, width: nat, height: nat)

  /** The file is looked at when nothing is cached yet or on every tenth second. */
  predicate ChecksFile(cachedSize: Option<nat>, now: int) {
    cachedSize.None? || now % RefreshPeriod == 0
  }

  /** The file is reloaded when it is looked at and its size differs from the cached one. */
  predicate Reloads(cachedSize: Option<nat>, now: int, fileSize: nat) {
    ChecksFile(cachedSize, now) && cachedSize != Some(fileSize)
  }

  /** The first call always loads, whatever the clock says. */
  lemma FirstCallLoads(now: int, fileSize: nat)
    ensures Reloads(None, now, fileSize)
  {
  }

  /** Once something is cached, a reload needs both a tenth second and a changed size. */
  lemma ReloadNeedsTickAndChange(cachedSize: nat, now: int, fileSize: nat)
    ensures Reloads(Some(cachedSize), now, fileSize) <==> now % RefreshPeriod == 0 && fileSize != cachedSize
  {
  }

  /** Right after a call has cached `fileSize`, a call with the same size does not reload, whatever the clock says. */
  lemma NoReloadOfSameSize(now: int, fileSize: nat)
    ensures !Reloads(Some(fileSize), now, fileSize)
  {
  }

  /** The static-image variant: the cache holds the keys `size` and `frame`. */
  class StaticBackground<P> {
    var size: Option<nat>
    var frame: Option<Scaled<P>>

    /** Both keys are written together, so the cache holds both or neither. */
    ghost predicate Valid()
      reads this
    {
      size.Some? <==> frame.Some?
    }

    /** `_background_scaled = {}`. */
    constructor ()
      ensures Valid() && size == None && frame == None
    {
      size, frame := None, None;
    }

    /**
     * `get_background_scaled(width, height)` at second `now`, for a file of
     * `fileSize` bytes whose image is `image`. A reload caches the image
     * resized to (width, height) together with the new size; otherwise the
     * cache is untouched. Either way the cached frame is returned, which,
     * without a reload, is the one resized for an earlier call.
     */
    method Get(width: nat, height: nat, now: int, fileSize: nat, image: P) returns (r: Scaled<P>)
      requires Valid()
      modifies this
      ensures Valid()
      ensures Reloads(old(size), now, fileSize) ==>
        size == Some(fileSize) && frame == Some(Scaled(image, width, height))
      ensures !Reloads(old(size), now, fileSize) ==> size == old(size) && frame == old(frame)
      ensures frame == Some(r)
    {
      // `len(_background_scaled) == 0` is `size.None?` for a valid cache
      if now % RefreshPeriod == 0 || size.None? {
        if Some(fileSize) != size {
          frame := Some(Scaled(image, width, height));
          size := Some(fileSize);
        }
      }
      r := frame.value;
    }
  }

  /** What happens to the video stream, in order. */
  datatype StreamEvent = Released | Opened(fileSize: nat) | ReadFrame(success: bool) | Rewound

  /**
   * A `cv2.VideoCapture` on a file: the frames it decodes and the index
   * (`CAP_PROP_POS_FRAMES`) of the next one. A read past the last frame, or
   * on a released capture, fails.
   */
  class Capture<P> {
    const frames: seq<P>
    var pos: nat
    var released: bool

    /** `cv2.VideoCapture(path)` on a file that decodes to `frames`. */
    constructor Open(frames: seq<P>)
      ensures this.frames == frames && pos == 0 && !released
    {
      this.frames := frames;
      pos, released := 0, false;
    }

    /** `cap.read()`: the frame at the position, which then advances, or nothing. */
    method Read() returns (r: Option<P>)
      modifies this
      ensures released == old(released)
      ensures !released && old(pos) < |frames| ==> r == Some(frames[old(pos)]) && pos == old(pos) + 1
      ensures released || |frames| <= old(pos) ==> r == None && pos == old(pos)
    {
      if !released && pos < |frames| {
        r := Some(frames[pos]);
        pos := pos + 1;
      } else {
        r := None;
      }
    }

    /** `cap.set(cv2.CAP_PROP_POS_FRAMES, p)`. */
    method SeekTo(p: nat)
      modifies this
      ensures pos == p && released == old(released)
    {
      pos := p;
    }

    /** `cap.release()`. */
    method Release()
      modifies this
      ensures released && pos == old(pos)
    {
      released := true;
    }
  }

  /**
   * The read-and-retry recursion of the video variant, allowed `fuel`
   * reads: read at `pos`; on failure seek to frame 1 and start over. Gives
   * the frame read, if any, and where the stream is left.
   */
  function ServeFrom<P>(frames: seq<P>, pos: nat, fuel: nat): (r: (Option<P>, nat))
    ensures r.0.Some? ==> r.0.value in frames
    decreases fuel
  {
    if fuel == 0 then (None, pos)
    else if pos < |frames| then (Some(frames[pos]), pos + 1)
    else ServeFrom(frames, 1, fuel - 1)
  }

  /** The events of `ServeFrom`: each read, and the seek after each failed one. */
  function ServeEvents<P>(frames: seq<P>, pos: nat, fuel: nat): seq<StreamEvent>
    decreases fuel
  {
    if fuel == 0 then []
    else if pos < |frames| then [ReadFrame(true)]
    else [ReadFrame(false), Rewound] + ServeEvents(frames, 1, fuel - 1)
  }

  /** A stream of at most one frame, once rewound to frame 1, fails every read and stays at frame 1. */
  lemma {:induction false} RewoundShortStreamNeverReads<P>(frames: seq<P>, fuel: nat)
    requires |frames| <= 1
    ensures ServeFrom(frames, 1, fuel) == (None, 1)
  {
    if fuel > 0 {
      RewoundShortStreamNeverReads(frames, fuel - 1);
    }
  }

  /**
   * Two reads decide the recursion: any larger number of reads gives the
   * same outcome. So the source's recursion, which has no bound of its own,
   * returns what two reads return when that is a frame; otherwise every
   * nested call fails the same way until CPython raises `RecursionError`,
   * which nothing catches, and the process ends.
   */
  lemma {:induction false} TwoReadsDecide<P>(frames: seq<P>, pos: nat, fuel: nat)
    requires fuel >= 2
    ensures ServeFrom(frames, pos, fuel).0 == ServeFrom(frames, pos, 2).0
  {
    if pos >= |frames| && |frames| <= 1 {
      RewoundShortStreamNeverReads(frames, fuel - 1);
      RewoundShortStreamNeverReads(frames, 1);
    }
  }

  /** The recursion returns a frame exactly when there is one at the position or the file has at least two frames. */
  lemma ServeSucceeds<P>(frames: seq<P>, pos: nat)
    ensures ServeFrom(frames, pos, 2).0.Some? <==> pos < |frames| || 1 < |frames|
  {
    if pos >= |frames| {
      assert ServeFrom(frames, pos, 2) == ServeFrom(frames, 1, 1);
    }
  }

  /** The looping-video variant: the cache holds the keys `size` and `cap`. */
  class VideoBackground<P> {
    var size: Option<nat>
    var cap: Option<Capture<P>>
    /** Everything done to the streams so far. */
    ghost var events: seq<StreamEvent>

    /** The capture the cache holds, if any. */
    ghost function Stream(): set<object>
      reads this
    {
      if cap.Some? then {cap.value} else {}
    }

    /** Both keys are written together, and the cached capture is open. */
    ghost predicate Valid()
      reads this, Stream()
    {
      (size.Some? <==> cap.Some?) && (cap.Some? ==> !cap.value.released)
    }

    /** `_background_scaled = {}`. */
    constructor ()
      ensures Valid() && size == None && cap == None && events == []
    {
      size, cap := None, None;
      events := [];
    }

    /**
     * The refresh check at the head of `get_background_scaled`: on a
     * reload, release the cached capture if there is one, then open the
     * file and cache the capture with the new size.
     */
    method Refresh(now: int, fileSize: nat, contents: seq<P>)
      requires Valid()
      modifies this, Stream()
      ensures Valid()
      ensures Reloads(old(size), now, fileSize) ==>
        size == Some(fileSize) && cap.Some? && fresh(cap.value) && cap.value.frames == contents &&
        cap.value.pos == 0 &&
        (old(cap).Some? ==> old(cap).value.released) &&
        events == old(events) + (if old(cap).Some? then [Released] else []) + [Opened(fileSize)]
      ensures !Reloads(old(size), now, fileSize) ==>
        size == old(size) && cap == old(cap) && events == old(events) &&
        (cap.Some? ==> cap.value.pos == old(cap.value.pos))
      ensures !Reloads(size, now, fileSize)
    {
      if now % RefreshPeriod == 0 || size.None? {
        if Some(fileSize) != size {
          if cap.Some? {
            cap.value.Release();
            events := events + [Released];
          }
          var stream := new Capture.Open(contents);
          cap := Some(stream);
          events := events + [Opened(fileSize)];
          size := Some(fileSize);
        }
      }
    }

    /**
     * `get_background_scaled(width, height)` at second `now`, for a file of
     * `fileSize` bytes that decodes to `contents`. After the refresh check,
     * the next frame of the cached stream is read; if the read fails the
     * stream is set to frame 1 and the function calls itself, whose refresh
     * check finds the size it just stored and changes nothing. The result
     * is the frame read, resized to (width, height), or `None` when the
     * second read fails too: from there every further call fails the same
     * way (`TwoReadsDecide`), so the source recurses until CPython raises
     * `RecursionError`, which ends the process; `None` stands for that failure.
     */
    method Get(width: nat, height: nat, now: int, fileSize: nat, contents: seq<P>) returns (r: Option<Scaled<P>>)
      requires Valid()
      modifies this, Stream()
      ensures Valid()
      ensures Reloads(old(size), now, fileSize) ==>
        size == Some(fileSize) && cap.Some? && fresh(cap.value) && cap.value.frames == contents &&
        (old(cap).Some? ==> old(cap).value.released)
      ensures !Reloads(old(size), now, fileSize) ==> size == old(size) && cap == old(cap)
      ensures cap.Some?
      ensures var start := if Reloads(old(size), now, fileSize) then 0 else old(cap.value.pos);
        var served := ServeFrom(cap.value.frames, start, 2);
        cap.value.pos == served.1 &&
        r == (if served.0.Some? then Some(Scaled(served.0.value, width, height)) else None) &&
        events == old(events) +
          (if !Reloads(old(size), now, fileSize) then []
           else if old(cap).Some? then [Released, Opened(fileSize)] else [Opened(fileSize)]) +
          ServeEvents(cap.value.frames, start, 2)
    {
      Refresh(now, fileSize, contents);
      var stream := cap.value;
      ghost var start, frames := stream.pos, stream.frames;
      ghost var refreshed := events;
      var f := stream.Read();
      events := events + [ReadFrame(f.Some?)];
      if f.Some? {
        assert ServeFrom(frames, start, 2) == (f, stream.pos);
        assert ServeEvents(frames, start, 2) == [ReadFrame(true)];
      } else {
        stream.SeekTo(1);
        events := events + [Rewound];
        Refresh(now, fileSize, contents);
        f := stream.Read();
        events := events + [ReadFrame(f.Some?)];
        if f.None? {
          stream.SeekTo(1);
          events := events + [Rewound];
        }
        assert ServeFrom(frames, start, 2) == ServeFrom(frames, 1, 1) == (f, stream.pos);
        assert ServeEvents(frames, 1, 1) == [ReadFrame(f.Some?)] + (if f.Some? then [] else [Rewound]);
        assert ServeEvents(frames, start, 2) == [ReadFrame(false), Rewound] + ServeEvents(frames, 1, 1);
      }
      r := if f.Some? then Some(Scaled(f.value, width, height)) else None;
    }
  }
}
