/** `frames_to_video`: counts the `output_gray_` files the simulator left in the
    working directory, then walks indices 0, 1, ... in numeric order, decoding
    the gray, negative and binary files of each index into three output video
    streams, and stops at the first index whose gray file is absent. */
module FrameAssembler {
  import opened Wrappers
  import opened Grids
  import opened PixelCodec
  import opened FileNames

  /** The working directory: every file name with the uint8 values
      `np.loadtxt` reads from it, in reading order. */
  type WorkingDirectory = map<string, seq<byte>>

  /** The names `os.listdir` lists that start with `output_gray_`. Sorting
      them does not change how many there are, and only the count is used. */
  function GrayNames(dir: WorkingDirectory): set<string> {
    set name | name in dir && StartsWith(name, GrayPrefix)
  }

  /** Why assembly raised: a file `np.loadtxt` could not open, or a value
      count `reshape` refused. */
  datatype AssembleError = LoadFailed(name: string) | ReshapeFailed(name: string, error: ReshapeError)

  /** `np.loadtxt(name, dtype=np.uint8).reshape((height, width))`. */
  function LoadFrame(dir: WorkingDirectory, name: string, height: nat, width: nat): (r: Result<Grid<byte>, AssembleError>)
    ensures r.Success? <==> name in dir && |dir[name]| == height * width
    ensures r.Success? ==> IsGrid(r.value, height, width) && Flatten(r.value) == dir[name]
  {
    if name !in dir then Failure(LoadFailed(name))
    else match Reshape(dir[name], height, width)
      case Success(g) => FlattenReshape(dir[name], height, width); Success(g)
      case Failure(e) => Failure(ReshapeFailed(name, e))
  }

  /** The frames written so far to the gray, negative and binary videos. */
  datatype Streams = Streams(gray: seq<Grid<byte>>, negative: seq<Grid<byte>>, binary: seq<Grid<byte>>)

  /** Whether the loop goes on, left it by `break` at a missing gray index,
      or was ended by an exception. */
  datatype Status = Running | Stopped(missing: nat) | Raised(error: AssembleError)

  datatype Progress = Progress(streams: Streams, status: Status)

  /** One pass of the loop body for `frameIdx`: stop if the gray file is
      absent; otherwise decode and write gray, then negative, then binary
      (scaled by 255), each write happening before the next file is read. */
  function Step(dir: WorkingDirectory, height: nat, width: nat, frameIdx: nat, s: Streams): Progress {
    if GrayName(frameIdx) !in dir then Progress(s, Stopped(frameIdx))
    else match LoadFrame(dir, GrayName(frameIdx), height, width)
      case Failure(e) => Progress(s, Raised(e))
      case Success(g) =>
        var s1 := s.(gray := s.gray + [g]);
        match LoadFrame(dir, NegName(frameIdx), height, width)
        case Failure(e) => Progress(s1, Raised(e))
        case Success(n) =>
          var s2 := s1.(negative := s1.negative + [n]);
          match LoadFrame(dir, BinName(frameIdx), height, width)
          case Failure(e) => Progress(s2, Raised(e))
          case Success(b) => Progress(s2.(binary := s2.binary + [MapGrid(b, ScaleBinary)]), Running)
  }

  /** The state after the loop has been given indices 0 .. k-1. */
  function AssembleUpTo(dir: WorkingDirectory, height: nat, width: nat, k: nat): Progress {
    if k == 0 then Progress(Streams([], [], []), Running)
    else
      var p := AssembleUpTo(dir, height, width, k - 1);
      if p.status.Running? then Step(dir, height, width, k - 1, p.streams) else p
  }

  /** The first index below `k` without a gray file, or `k` if there is none. */
  function FirstMissingGray(dir: WorkingDirectory, k: nat): (m: nat)
    ensures m <= k
    ensures forall i :: 0 <= i < m ==> GrayName(i) in dir
    ensures m < k ==> GrayName(m) !in dir
  {
    if k == 0 then 0
    else
      var m := FirstMissingGray(dir, k - 1);
      if m < k - 1 || GrayName(k - 1) !in dir then m else k
  }

  /** All three files of index i are there and hold height * width values each. */
  predicate FrameReadable(dir: WorkingDirectory, i: nat, height: nat, width: nat) {
    && GrayName(i) in dir && |dir[GrayName(i)]| == height * width
    && NegName(i) in dir && |dir[NegName(i)]| == height * width
    && BinName(i) in dir && |dir[BinName(i)]| == height * width
  }

  /** One pass of the loop body, case by case: an absent gray file stops the
      walk; a readable index appends one decoded frame to each stream; any
      other index raises after writing whatever was decoded before the fault. */
  lemma StepCases(dir: WorkingDirectory, height: nat, width: nat, i: nat, s: Streams)
    ensures var q := Step(dir, height, width, i, s);
      && (GrayName(i) !in dir ==> q == Progress(s, Stopped(i)))
      && (FrameReadable(dir, i, height, width) ==>
            q.status == Running &&
            q.streams.gray == s.gray + [Reshape(dir[GrayName(i)], height, width).value] &&
            q.streams.negative == s.negative + [Reshape(dir[NegName(i)], height, width).value] &&
            q.streams.binary == s.binary + [MapGrid(Reshape(dir[BinName(i)], height, width).value, ScaleBinary)])
      && (GrayName(i) in dir && !FrameReadable(dir, i, height, width) ==>
            q.status.Raised? && q.streams.binary == s.binary &&
            q.streams.gray ==
              (if |dir[GrayName(i)]| == height * width
               then s.gray + [Reshape(dir[GrayName(i)], height, width).value]
               else s.gray) &&
            q.streams.negative ==
              (if |dir[GrayName(i)]| == height * width && NegName(i) in dir && |dir[NegName(i)]| == height * width
               then s.negative + [Reshape(dir[NegName(i)], height, width).value]
               else s.negative))
  {
  }

  /** What the loop has produced after indices 0 .. k-1, with n = the number
      of frames in the binary stream: gray and negative hold n or n + 1
      frames, equal counts unless raised; every index below n was readable;
      running: n == k; stopped: n is the first missing gray index; raised:
      index n is below the first missing gray index and unreadable. */
  predicate Consistent(dir: WorkingDirectory, height: nat, width: nat, k: nat, p: Progress) {
    var s := p.streams; var n := |s.binary|;
    && n <= |s.negative| <= |s.gray| <= n + 1
    && (!p.status.Raised? ==> |s.gray| == |s.negative| == n)
    && (forall i :: 0 <= i < n ==> FrameReadable(dir, i, height, width))
    && (p.status.Running? ==> n == k == FirstMissingGray(dir, k))
    && (p.status.Stopped? ==> n == p.status.missing == FirstMissingGray(dir, k) < k)
    && (p.status.Raised? ==> n < FirstMissingGray(dir, k) && !FrameReadable(dir, n, height, width))
  }

  /** A pass of the loop body from a consistent running state leads to a
      consistent state one index further. */
  lemma StepKeepsConsistent(dir: WorkingDirectory, height: nat, width: nat, k: nat, p: Progress)
    requires p.status.Running? && Consistent(dir, height, width, k, p)
    ensures Consistent(dir, height, width, k + 1, Step(dir, height, width, k, p.streams))
  {
    StepCases(dir, height, width, k, p.streams);
    assert FirstMissingGray(dir, k + 1) == if GrayName(k) in dir then k + 1 else k;
  }

  /** The state after indices 0 .. k-1 is always consistent. */
  lemma {:induction false} AssembleUpToState(dir: WorkingDirectory, height: nat, width: nat, k: nat)
    ensures Consistent(dir, height, width, k, AssembleUpTo(dir, height, width, k))
  {
    if k > 0 {
      AssembleUpToState(dir, height, width, k - 1);
      var prev := AssembleUpTo(dir, height, width, k - 1);
      if prev.status.Running? {
        StepKeepsConsistent(dir, height, width, k - 1, prev);
      } else if prev.status.Stopped? {
        assert FirstMissingGray(dir, k) == FirstMissingGray(dir, k - 1);
      } else {
        assert FirstMissingGray(dir, k - 1) <= FirstMissingGray(dir, k);
      }
    }
  }

  /** Frame j of each stream is the decode of that channel's file for index
      j, in numeric index order; binary values are scaled by 255. */
  lemma AssembledFrames(dir: WorkingDirectory, height: nat, width: nat, k: nat)
    ensures var s := AssembleUpTo(dir, height, width, k).streams;
      && (forall j :: 0 <= j < |s.gray| ==>
            GrayName(j) in dir && Reshape(dir[GrayName(j)], height, width) == Success(s.gray[j]))
      && (forall j :: 0 <= j < |s.negative| ==>
            NegName(j) in dir && Reshape(dir[NegName(j)], height, width) == Success(s.negative[j]))
      && (forall j :: 0 <= j < |s.binary| ==>
            BinName(j) in dir && Reshape(dir[BinName(j)], height, width).Success? &&
            s.binary[j] == MapGrid(Reshape(dir[BinName(j)], height, width).value, ScaleBinary))
  {
    AssembledGrayFrames(dir, height, width, k);
    AssembledNegativeFrames(dir, height, width, k);
    AssembledBinaryFrames(dir, height, width, k);
  }

  lemma {:induction false} AssembledGrayFrames(dir: WorkingDirectory, height: nat, width: nat, k: nat)
    ensures var s := AssembleUpTo(dir, height, width, k).streams;
      forall j :: 0 <= j < |s.gray| ==>
        GrayName(j) in dir && Reshape(dir[GrayName(j)], height, width) == Success(s.gray[j])
  {
    if k > 0 {
      AssembledGrayFrames(dir, height, width, k - 1);
      var prev := AssembleUpTo(dir, height, width, k - 1);
      if prev.status.Running? {
        AssembleUpToState(dir, height, width, k - 1);
        StepCases(dir, height, width, k - 1, prev.streams);
      }
    }
  }

  lemma {:induction false} AssembledNegativeFrames(dir: WorkingDirectory, height: nat, width: nat, k: nat)
    ensures var s := AssembleUpTo(dir, height, width, k).streams;
      forall j :: 0 <= j < |s.negative| ==>
        NegName(j) in dir && Reshape(dir[NegName(j)], height, width) == Success(s.negative[j])
  {
    if k > 0 {
      AssembledNegativeFrames(dir, height, width, k - 1);
      var prev := AssembleUpTo(dir, height, width, k - 1);
      if prev.status.Running? {
        AssembleUpToState(dir, height, width, k - 1);
        StepCases(dir, height, width, k - 1, prev.streams);
      }
    }
  }

  lemma {:induction false} AssembledBinaryFrames(dir: WorkingDirectory, height: nat, width: nat, k: nat)
    ensures var s := AssembleUpTo(dir, height, width, k).streams;
      forall j :: 0 <= j < |s.binary| ==>
        BinName(j) in dir && Reshape(dir[BinName(j)], height, width).Success? &&
        s.binary[j] == MapGrid(Reshape(dir[BinName(j)], height, width).value, ScaleBinary)
  {
    if k > 0 {
      AssembledBinaryFrames(dir, height, width, k - 1);
      var prev := AssembleUpTo(dir, height, width, k - 1);
      if prev.status.Running? {
        AssembleUpToState(dir, height, width, k - 1);
        StepCases(dir, height, width, k - 1, prev.streams);
      }
    }
  }

  /** Assembly raises exactly when some index below the first missing gray
      index lacks a negative or binary file, or holds a file whose value count
      is not width * height. */
  lemma AssemblyRaisesIffUnreadable(dir: WorkingDirectory, height: nat, width: nat, k: nat)
    ensures AssembleUpTo(dir, height, width, k).status.Raised?
        <==> exists i :: 0 <= i < FirstMissingGray(dir, k) && !FrameReadable(dir, i, height, width)
  {
    AssembleUpToState(dir, height, width, k);
  }

  /** When no exception is raised, the three streams have equal length: the
      first missing gray index, capped at k. */
  lemma AssemblyLength(dir: WorkingDirectory, height: nat, width: nat, k: nat)
    requires !AssembleUpTo(dir, height, width, k).status.Raised?
    ensures var s := AssembleUpTo(dir, height, width, k).streams;
      |s.gray| == |s.negative| == |s.binary| == FirstMissingGray(dir, k)
  {
    AssembleUpToState(dir, height, width, k);
  }

  /** Once the loop has stopped or raised, later indices change nothing. */
  lemma {:induction false} AssembleUpToFinal(dir: WorkingDirectory, height: nat, width: nat, k: nat, k': nat)
    requires k <= k'
    requires !AssembleUpTo(dir, height, width, k).status.Running?
    ensures AssembleUpTo(dir, height, width, k') == AssembleUpTo(dir, height, width, k)
  {
    if k < k' {
      AssembleUpToFinal(dir, height, width, k, k' - 1);
    }
  }

  /** Names `output_gray_<i>.txt` for i below k are k distinct names. */
  lemma {:induction false} GrayNameRangeSize(k: nat)
    ensures |set i | 0 <= i < k :: GrayName(i)| == k
  {
    if k > 0 {
      GrayNameRangeSize(k - 1);
      var below := set i | 0 <= i < k - 1 :: GrayName(i);
      assert (set i | 0 <= i < k :: GrayName(i)) == below + {GrayName(k - 1)};
      forall i | 0 <= i < k - 1 ensures GrayName(i) != GrayName(k - 1) {
        IndexedNameInjective(GrayPrefix, i, k - 1);
      }
    }
  }

  /** When the only `output_gray_` files are `output_gray_0.txt` .. `output_gray_<n-1>.txt`,
      the count is n and the walk finds every one of them. */
  lemma ContiguousGrayFiles(dir: WorkingDirectory, n: nat)
    requires GrayNames(dir) == set i | 0 <= i < n :: GrayName(i)
    ensures |GrayNames(dir)| == n
    ensures FirstMissingGray(dir, n) == n
  {
    GrayNameRangeSize(n);
    forall i | 0 <= i < n
      ensures GrayName(i) in dir
    {
      assert GrayName(i) in GrayNames(dir);
    }
  }

  /** The gray files alone bound the run: when they are exactly indices 0 .. n-1
      and every such index is readable, all three streams get exactly n frames,
      whatever further negative or binary files the directory holds. */
  lemma ContiguousFilesAssembleFully(dir: WorkingDirectory, height: nat, width: nat, n: nat)
    requires GrayNames(dir) == set i | 0 <= i < n :: GrayName(i)
    requires forall i :: 0 <= i < n ==> FrameReadable(dir, i, height, width)
    ensures var p := AssembleUpTo(dir, height, width, |GrayNames(dir)|);
      && p.status == Running
      && |p.streams.gray| == |p.streams.negative| == |p.streams.binary| == n
  {
    ContiguousGrayFiles(dir, n);
    AssembleUpToState(dir, height, width, n);
  }

  /** Indices are visited in numeric order and the first gap ends the walk:
      with gray, negative and binary files for indices 0, 2 and 10 only, the
      three names counted give N = 3, index 0 is assembled, and the walk stops
      at the absent `output_gray_1.txt` without reaching 2 or 10. */
  lemma GapEndsWalk(v: seq<byte>, height: nat, width: nat)
    requires |v| == height * width
    ensures var dir := map[GrayName(0) := v, GrayName(2) := v, GrayName(10) := v,
                           NegName(0) := v, NegName(2) := v, NegName(10) := v,
                           BinName(0) := v, BinName(2) := v, BinName(10) := v];
      && |GrayNames(dir)| == 3
      && AssembleUpTo(dir, height, width, |GrayNames(dir)|).status == Stopped(1)
      && |AssembleUpTo(dir, height, width, |GrayNames(dir)|).streams.gray| == 1
  {
    var dir := map[GrayName(0) := v, GrayName(2) := v, GrayName(10) := v,
                   NegName(0) := v, NegName(2) := v, NegName(10) := v,
                   BinName(0) := v, BinName(2) := v, BinName(10) := v];
    PrefixClasses(0, 0);
    PrefixClasses(2, 2);
    PrefixClasses(10, 10);
    assert GrayNames(dir) == {GrayName(0), GrayName(2), GrayName(10)};
    IndexedNameInjective(GrayPrefix, 0, 2);
    IndexedNameInjective(GrayPrefix, 0, 10);
    IndexedNameInjective(GrayPrefix, 2, 10);
    assert |GrayNames(dir)| == 3;
    IndexedNameInjective(GrayPrefix, 1, 0);
    IndexedNameInjective(GrayPrefix, 1, 2);
    IndexedNameInjective(GrayPrefix, 1, 10);
    IndexedNameInjective(NegPrefix, 0, 0);
    assert GrayName(1) !in dir by {
      PrefixClasses(1, 0);
      PrefixClasses(1, 2);
      PrefixClasses(1, 10);
      assert StartsWith(GrayName(1), GrayPrefix);
    }
    assert FrameReadable(dir, 0, height, width);
    StepCases(dir, height, width, 0, Streams([], [], []));
    assert AssembleUpTo(dir, height, width, 1).status == Running;
    assert |AssembleUpTo(dir, height, width, 1).streams.gray| == 1;
    StepCases(dir, height, width, 1, AssembleUpTo(dir, height, width, 1).streams);
    assert AssembleUpTo(dir, height, width, 2).status == Stopped(1);
    AssembleUpToFinal(dir, height, width, 2, 3);
  }

  /** One output video: the frames written to it, and whether it was released. */
  class VideoWriter {
    const width: nat
    const height: nat
    const fps: real
    var frames: seq<Grid<byte>>
    var released: bool

    /** `cv2.VideoWriter(path, fourcc, fps, (width, height), isColor=False)`. */
    constructor (width: nat, height: nat, fps: real)
      ensures this.width == width && this.height == height && this.fps == fps
      ensures frames == [] && !released
    {
      this.width, this.height, this.fps := width, height, fps;
      frames, released := [], false;
    }

    method Write(frame: Grid<byte>)
      modifies this
      ensures frames == old(frames) + [frame] && released == old(released)
    {
      frames := frames + [frame];
    }

    method Release()
      modifies this
      ensures released && frames == old(frames)
    {
      released := true;
    }
  }

  /** How `frames_to_video` ends: with no gray files found (no writer is
      created), or with the three writers, released if it returned normally,
      left open if it raised. */
  datatype Outcome =
    | NoFramesFound
    | Written(gray: VideoWriter, negative: VideoWriter, binary: VideoWriter, raised: Option<AssembleError>)

  /** The body of the loop once the gray file of `frameIdx` is known to exist:
      decode and write gray, then negative, then binary scaled by 255; an
      exception leaves the frames written before it in place. */
  method WriteFrameSet(dir: WorkingDirectory, height: nat, width: nat, frameIdx: nat,
                       grayVideo: VideoWriter, negativeVideo: VideoWriter, binaryVideo: VideoWriter)
    returns (raised: Option<AssembleError>)
    requires GrayName(frameIdx) in dir
    requires grayVideo != negativeVideo && grayVideo != binaryVideo && negativeVideo != binaryVideo
    modifies grayVideo, negativeVideo, binaryVideo
    ensures Progress(Streams(grayVideo.frames, negativeVideo.frames, binaryVideo.frames),
                     if raised.Some? then Raised(raised.value) else Running)
         == Step(dir, height, width, frameIdx, old(Streams(grayVideo.frames, negativeVideo.frames, binaryVideo.frames)))
    ensures grayVideo.released == old(grayVideo.released)
    ensures negativeVideo.released == old(negativeVideo.released)
    ensures binaryVideo.released == old(binaryVideo.released)
  {
    var grayFrame := LoadFrame(dir, GrayName(frameIdx), height, width);
    if grayFrame.Failure? {
      return Some(grayFrame.error);
    }
    grayVideo.Write(grayFrame.value);
    var negFrame := LoadFrame(dir, NegName(frameIdx), height, width);
    if negFrame.Failure? {
      return Some(negFrame.error);
    }
    negativeVideo.Write(negFrame.value);
    var binFrame := LoadFrame(dir, BinName(frameIdx), height, width);
    if binFrame.Failure? {
      return Some(binFrame.error);
    }
    binaryVideo.Write(MapGrid(binFrame.value, ScaleBinary));
    return None;
  }

  /** `frames_to_video`: the three writers hold exactly what the loop over
      indices 0 .. N-1 produces, N being the number of `output_gray_` names. */
  method FramesToVideo(dir: WorkingDirectory, width: nat, height: nat, fps: real) returns (outcome: Outcome)
    ensures |GrayNames(dir)| == 0 <==> outcome.NoFramesFound?
    ensures outcome.Written? ==>
      var p := AssembleUpTo(dir, height, width, |GrayNames(dir)|);
      && fresh(outcome.gray) && fresh(outcome.negative) && fresh(outcome.binary)
      && outcome.gray != outcome.negative && outcome.gray != outcome.binary && outcome.negative != outcome.binary
      && outcome.gray.width == width && outcome.gray.height == height && outcome.gray.fps == fps
      && outcome.negative.width == width && outcome.negative.height == height && outcome.negative.fps == fps
      && outcome.binary.width == width && outcome.binary.height == height && outcome.binary.fps == fps
      && Streams(outcome.gray.frames, outcome.negative.frames, outcome.binary.frames) == p.streams
      && (outcome.raised.Some? <==> p.status.Raised?)
      && (outcome.raised.Some? ==> outcome.raised.value == p.status.error)
      && (outcome.raised.None? <==> outcome.gray.released && outcome.negative.released && outcome.binary.released)
      && (outcome.raised.Some? ==> !outcome.gray.released && !outcome.negative.released && !outcome.binary.released)
  {
    var totalFrames := |GrayNames(dir)|;
    if totalFrames == 0 {
      return NoFramesFound;
    }
    var grayVideo := new VideoWriter(width, height, fps);
    var negativeVideo := new VideoWriter(width, height, fps);
    var binaryVideo := new VideoWriter(width, height, fps);
    var frameIdx := 0;
    while frameIdx < totalFrames
      invariant frameIdx <= totalFrames
      invariant AssembleUpTo(dir, height, width, frameIdx)
             == Progress(Streams(grayVideo.frames, negativeVideo.frames, binaryVideo.frames), Running)
      invariant !grayVideo.released && !negativeVideo.released && !binaryVideo.released
    {
      if GrayName(frameIdx) !in dir {
        AssembleUpToFinal(dir, height, width, frameIdx + 1, totalFrames);
        break;
      }
      var raised := WriteFrameSet(dir, height, width, frameIdx, grayVideo, negativeVideo, binaryVideo);
      if raised.Some? {
        AssembleUpToFinal(dir, height, width, frameIdx + 1, totalFrames);
        return Written(grayVideo, negativeVideo, binaryVideo, raised);
      }
      frameIdx := frameIdx + 1;
    }
    grayVideo.Release();
    negativeVideo.Release();
    binaryVideo.Release();
    return Written(grayVideo, negativeVideo, binaryVideo, None);
  }
}
