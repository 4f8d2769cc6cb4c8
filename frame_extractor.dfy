/** `video_to_frames`: reads every frame of a video, swaps it to RGB order and
    writes it into the staging directory `frames` as `input_frame_<i>.txt`,
    one "R G B" line per pixel, numbering the files 0, 1, 2, ... */
module FrameExtractor {
  import opened Wrappers
  import opened Grids
  import opened PixelCodec
  import opened FileNames

  /** What the video path holds. `Readable` carries the frames in stream order,
      each as `cv2.resize` returns it (channel order B, G, R). */
  datatype VideoFile = Missing | Unopenable | Readable(frames: seq<Grid<Pixel>>)

  /** `FileNotFoundError` for a missing path, `ValueError` for a video that
      `cv2.VideoCapture` cannot open. */
  datatype ExtractError = FileNotFound | CouldNotOpen

  /** An open video stream: `read()` hands out the frames one by one. */
  class VideoCapture {
    const frames: seq<Grid<Pixel>>
    var position: nat

    constructor (frames: seq<Grid<Pixel>>)
      ensures this.frames == frames && position == 0
    {
      this.frames := frames;
      position := 0;
    }

    /** `ret, frame = video.read()`: the next frame, or `ret == False` at the end. */
    method Read() returns (ok: bool, frame: Grid<Pixel>)
      modifies this
      ensures ok <==> old(position) < |frames|
      ensures ok ==> frame == frames[old(position)] && position == old(position) + 1
      ensures !ok ==> position == old(position)
    {
      if position < |frames| {
        ok, frame := true, frames[position];
        position := position + 1;
      } else {
        ok, frame := false, [];
      }
    }
  }

  /** The staging directory: file name to the lines written into it. */
  class StagingDirectory {
    var files: map<string, seq<string>>

    constructor (files: map<string, seq<string>>)
      ensures this.files == files
    {
      this.files := files;
    }

    /** `open(name, "w")`: creates the file, or empties an existing one. */
    method Open(name: string)
      modifies this
      ensures files == old(files)[name := []]
    {
      files := files[name := []];
    }

    /** `f.write(line)` on a file opened for writing. */
    method WriteLine(name: string, line: string)
      requires name in files
      modifies this
      ensures files == old(files)[name := old(files)[name] + [line]]
    {
      files := files[name := files[name] + [line]];
    }
  }

  /** The staging directory after the frames have been written, in order, over `before`. */
  function Staged(before: map<string, seq<string>>, frames: seq<Grid<Pixel>>): map<string, seq<string>> {
    if frames == [] then before
    else
      var last := |frames| - 1;
      Staged(before, frames[..last])[InputFrameName(last) := EncodeFrame(frames[last])]
  }

  /** Frame i of the stream is in `input_frame_<i>.txt`, and nothing written
      later overwrites it. */
  lemma {:induction false} StagedAt(before: map<string, seq<string>>, frames: seq<Grid<Pixel>>, i: nat)
    requires i < |frames|
    ensures InputFrameName(i) in Staged(before, frames)
    ensures Staged(before, frames)[InputFrameName(i)] == EncodeFrame(frames[i])
  {
    var last := |frames| - 1;
    if i < last {
      IndexedNameInjective(InputPrefix, i, last);
      StagedAt(before, frames[..last], i);
      assert frames[..last][i] == frames[i];
    }
  }

  /** The names written are exactly `input_frame_0.txt` up to
      `input_frame_<n-1>.txt`, with no gap; every other file keeps its contents. */
  lemma {:induction false} StagedElsewhere(before: map<string, seq<string>>, frames: seq<Grid<Pixel>>)
    ensures Staged(before, frames).Keys == before.Keys + set i | 0 <= i < |frames| :: InputFrameName(i)
    ensures forall name :: name in before && name !in (set i | 0 <= i < |frames| :: InputFrameName(i)) ==>
              Staged(before, frames)[name] == before[name]
  {
    if frames != [] {
      var last := |frames| - 1;
      StagedElsewhere(before, frames[..last]);
      assert (set i | 0 <= i < |frames| :: InputFrameName(i))
          == (set i | 0 <= i < last :: InputFrameName(i)) + {InputFrameName(last)};
    }
  }

  /** Frame i of a stream of height x width frames lands in `input_frame_<i>.txt`
      as exactly width * height lines, pixel (r, c) on line r * width + c in
      R, G, B order, and the file reads back as the RGB frame. */
  lemma StagedFrameLayout(before: map<string, seq<string>>, frames: seq<Grid<Pixel>>, i: nat,
                          height: nat, width: nat, r: nat, c: nat)
    requires i < |frames| && IsGrid(frames[i], height, width)
    requires r < height && c < width
    ensures InputFrameName(i) in Staged(before, frames)
    ensures |Staged(before, frames)[InputFrameName(i)]| == height * width
    ensures r * width + c < height * width
    ensures Staged(before, frames)[InputFrameName(i)][r * width + c] == PixelLine(Pixel(frames[i][r][c].ch2, frames[i][r][c].ch1, frames[i][r][c].ch0))
    ensures DecodeInputFrame(Staged(before, frames)[InputFrameName(i)], height, width) == Success(MapGrid(frames[i], BgrToRgb))
  {
    StagedAt(before, frames, i);
    EncodedLineAt(frames[i], height, width, r, c);
    DecodeEncodeFrame(frames[i], height, width);
  }

  /** `video_to_frames`: the result is the number of frames written, and the
      staging directory gains `input_frame_<i>.txt` holding the encoding of
      frame i, for every frame of the stream. */
  method VideoToFrames(video: VideoFile, staging: StagingDirectory) returns (r: Result<nat, ExtractError>)
    modifies staging
    ensures video.Missing? ==> r == Failure(FileNotFound) && staging.files == old(staging.files)
    ensures video.Unopenable? ==> r == Failure(CouldNotOpen) && staging.files == old(staging.files)
    ensures video.Readable? ==> r == Success(|video.frames|) && staging.files == Staged(old(staging.files), video.frames)
  {
    if video.Missing? {
      return Failure(FileNotFound);
    }
    if video.Unopenable? {
      return Failure(CouldNotOpen);
    }
    var capture := new VideoCapture(video.frames);
    var frameIndex: nat := 0;
    while true
      invariant capture.frames == video.frames
      invariant capture.position == frameIndex <= |video.frames|
      invariant staging.files == Staged(old(staging.files), video.frames[..frameIndex])
      decreases |capture.frames| - capture.position
    {
      var ok, frame := capture.Read();
      if !ok {
        break;
      }
      var pixels := Flatten(MapGrid(frame, BgrToRgb));
      var name := InputFrameName(frameIndex);
      ghost var lines := EncodeFrame(frame);
      ghost var previous := staging.files;
      staging.Open(name);
      for k := 0 to |pixels|
        modifies staging
        invariant staging.files == previous[name := lines[..k]]
      {
        assert lines[..k + 1] == lines[..k] + [PixelLine(pixels[k])];
        staging.WriteLine(name, PixelLine(pixels[k]));
      }
      assert lines[..|pixels|] == lines;
      assert video.frames[..frameIndex + 1][..frameIndex] == video.frames[..frameIndex];
      frameIndex := frameIndex + 1;
    }
    assert video.frames[..frameIndex] == video.frames;
    return Success(frameIndex);
  }
}
