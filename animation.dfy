// Animated-phrase playback (main.py lines 88-115): `ImageLabel.load` decodes
// every frame of the GIF into a list, shows frame 0, and `next_frame` moves a
// cursor `loc` round the frames, `(loc + 1) % len(frames)`, showing each in turn.
//
// The image library is abstract: an opened image always has a frame 0 and may
// have further frames that `seek` reaches; a seek past the last frame is the
// end-of-file that stops the decoding loop. What the label shows is the list of
// frames it has been configured with, in order. Rescheduling with `after` is
// not part of this model.

module Animation {

  /** One decoded frame. */
  datatype Frame = Frame(pixels: seq<int>)

  /**
   * An opened multi-frame image: frame 0, the frames reached by seeking to
   * 1, 2, ..., and the per-frame display time from its metadata (milliseconds).
   */
  datatype GifImage = GifImage(first: Frame, later: seq<Frame>, duration: nat) {

    function FrameCount(): nat {
      1 + |later|
    }

    /** `im.seek(i)` succeeds exactly when frame `i` exists. */
    predicate CanSeek(i: nat) {
      i < FrameCount()
    }

    function FrameAt(i: nat): Frame
      requires CanSeek(i)
    {
      if i == 0 then first else later[i - 1]
    }

    /** All frames, in order. */
    function Frames(): (r: seq<Frame>)
      ensures |r| == FrameCount()
      ensures forall i :: 0 <= i < |r| ==> r[i] == FrameAt(i)
    {
      [first] + later
    }
  }

  /**
   * One step of the cursor, Python's `(loc + 1) % count`. Python's `%` floors,
   * which for a positive divisor agrees with Dafny's Euclidean `%`.
   */
  function Advance(loc: int, count: nat): (r: int)
    requires count > 0
    ensures 0 <= r < count
    ensures 0 <= loc < count - 1 ==> r == loc + 1
    ensures loc == count - 1 ==> r == 0
  {
    (loc + 1) % count
  }

  /** The cursor after `k` advances. */
  function AdvanceTimes(loc: int, count: nat, k: nat): int
    requires count > 0
  {
    if k == 0 then loc else Advance(AdvanceTimes(loc, count, k - 1), count)
  }

  lemma {:induction false} MultipleAtLeast(d: nat, n: nat)
    requires d >= 1
    ensures d * n >= n
  {
    if d > 1 {
      MultipleAtLeast(d - 1, n);
      assert d * n == (d - 1) * n + n;
    }
  }

  /** A multiple of `n` is 0 or at least `n` away from 0. */
  lemma MultipleIsZeroOrFar(d: int, n: int)
    requires n >= 0
    ensures d == 0 || d * n >= n || d * n <= 0 - n
  {
    if d >= 1 {
      MultipleAtLeast(d, n);
    } else if d <= -1 {
      MultipleAtLeast(-d, n);
      assert d * n == -((-d) * n);
    }
  }

  /** The remainder is the one `r` with `y == q * n + r` and `0 <= r < n`. */
  lemma RemainderUnique(y: int, n: nat, q: int, r: int)
    requires n > 0 && y == q * n + r && 0 <= r < n
    ensures y % n == r
  {
    var q', r' := y / n, y % n;
    assert q' * n + r' == q * n + r;
    assert (q - q') * n == r' - r;
    MultipleIsZeroOrFar(q - q', n);
  }

  lemma StepOfRemainder(x: int, count: nat)
    requires count > 0
    ensures Advance(x % count, count) == (x + 1) % count
  {
    var q, m := x / count, x % count;
    if m < count - 1 {
      RemainderUnique(x + 1, count, q, m + 1);
    } else {
      RemainderUnique(x + 1, count, q + 1, 0);
    }
  }

  /** After `k` steps from an in-range cursor, the cursor is `k` frames further on, wrapping. */
  lemma {:induction false} AdvanceTimesWraps(loc: int, count: nat, k: nat)
    requires count > 0 && 0 <= loc < count
    ensures AdvanceTimes(loc, count, k) == (loc + k) % count
  {
    if k > 0 {
      AdvanceTimesWraps(loc, count, k - 1);
      StepOfRemainder(loc + k - 1, count);
    }
  }

  /** The animation loops: `count` steps bring the cursor back where it was. */
  lemma CursorCycles(loc: int, count: nat)
    requires count > 0 && 0 <= loc < count
    ensures AdvanceTimes(loc, count, count) == loc
  {
    AdvanceTimesWraps(loc, count, count);
    RemainderUnique(loc + count, count, 1, loc);
  }

  /** The label that plays the animation. */
  class ImageLabel {
    /** The decoded frames. */
    var frames: seq<Frame>
    /** Index of the frame on display. */
    var loc: int
    /** Time between frames, in milliseconds. */
    var delay: nat
    /** Every image the label has been configured with, oldest first. */
    var shown: seq<Frame>

    /** With frames decoded, the cursor is in range and the label shows the frame under it. */
    ghost predicate Valid()
      reads this
    {
      frames != [] ==> 0 <= loc < |frames| && shown != [] && shown[|shown| - 1] == frames[loc]
    }

    /** A fresh label: nothing decoded, cursor at frame 0. */
    constructor ()
      ensures frames == [] && loc == 0 && delay == 0 && shown == []
      ensures Valid()
    {
      frames, loc, delay, shown := [], 0, 0, [];
    }

    /**
     * `load`: frame 0 is appended before the first seek, then one frame per
     * successful seek, so every frame of the image is decoded, in order, and
     * there is at least one. Frame 0 is shown, and then `next_frame` runs once.
     */
    method Load(im: GifImage)
      modifies this
      ensures frames == im.Frames() && |frames| >= 1
      ensures loc == Advance(0, |frames|)
      ensures delay == im.duration
      ensures shown == old(shown) + [frames[0], frames[loc]]
      ensures Valid()
    {
      frames := [];
      var i := 1;
      var done := false;
      while !done
        invariant 1 <= i <= im.FrameCount()
        invariant |frames| == if done then i else i - 1
        invariant done ==> i == im.FrameCount()
        invariant frames == im.Frames()[..|frames|]
        invariant shown == old(shown)
        decreases im.FrameCount() - |frames|
      {
        // `im.copy()` of the frame the image is positioned at, then `im.seek(i)`.
        frames := frames + [im.FrameAt(i - 1)];
        if im.CanSeek(i) {
          i := i + 1;
        } else {
          done := true;
        }
      }
      loc := 0;
      delay := im.duration;
      assert frames == im.Frames();
      shown := shown + [frames[0]];
      ghost var before := shown;
      NextFrame();
      assert shown == before + [frames[loc]];
    }

    /**
     * `next_frame`: with frames, the cursor moves one on, wrapping to 0 after
     * the last, and that frame is shown; without frames nothing changes.
     */
    method NextFrame()
      requires Valid()
      modifies this`loc, this`shown
      ensures Valid()
      ensures frames == [] ==> loc == old(loc) && shown == old(shown)
      ensures frames != [] ==> loc == Advance(old(loc), |frames|) && shown == old(shown) + [frames[loc]]
    {
      if frames != [] {
        loc := (loc + 1) % |frames|;
        shown := shown + [frames[loc]];
      }
    }
  }

  // The label as `load` and `next_frame` are written: `loc` and `delay` are
  // never assigned, so reading them is Python's AttributeError.

  datatype Attribute<T> = Unset | Assigned(value: T)

  datatype LabelState = LabelState(frames: seq<Frame>, loc: Attribute<int>, delay: Attribute<nat>)

  datatype Step = Idle(state: LabelState) | Showing(state: LabelState, image: Frame) | AttributeError(name: string)

  /** `next_frame` as written, on a label whose attributes may be missing. */
  function NextFrameAsWritten(s: LabelState): Step {
    if s.frames == [] then Idle(s)
    else match s.loc
      case Unset => AttributeError("loc")
      case Assigned(l) =>
        var next := Advance(l, |s.frames|);
        if s.delay.Unset? then AttributeError("delay")
        else Showing(s.(loc := Assigned(next)), s.frames[next])
  }

  /** `load` as written: decode the frames, then call `next_frame`. */
  function LoadAsWritten(im: GifImage, s: LabelState): Step {
    NextFrameAsWritten(s.(frames := im.Frames()))
  }

  /** On a freshly created label, `load` fails for every image: `loc` was never set. */
  lemma LoadAsWrittenFails(im: GifImage)
    ensures LoadAsWritten(im, LabelState([], Unset, Unset)) == AttributeError("loc")
  {
  }
}
