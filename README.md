# Video frame interchange with a hardware simulator — Dafny model

`video_processor.py` sends video through an external Verilog simulation by way of text files. This project models the two halves of that file interchange and proves properties about them.

* **Extraction** (`video_to_frames`). The function reads the video frame by frame. It swaps each resized frame from OpenCV's B, G, R channel order to R, G, B. It writes the frame into the staging directory `frames` as `input_frame_<i>.txt`, with one `"R G B\n"` line per pixel in row-major order. The index `i` counts up from 0, and the function returns the number of frames written.
* **Assembly** (`frames_to_video`). The function counts the names in the working directory that start with `output_gray_`; call that count N. It then visits indices 0, 1, …, N-1 in numeric order and stops at the first index whose `output_gray_<i>.txt` is absent. For every other index it reads the gray, negative and binary files and reshapes each into `height` rows of `width` values. Binary values are multiplied by 255 as uint8. It appends one frame to each of three output videos.

Modules, one per file:

* `Wrappers` (`wrappers.dfy`): the `Option` and `Result` values that stand in for the exceptions the Python raises.
* `DecimalText` (`decimal_text.dfy`): the decimal text Python writes for an integer, with a parser that reads it back.
* `Grids` (`grids.dfy`): numpy's row-major flattening and its `reshape((height, width))` inverse. A reshape is refused unless the value count is exactly height × width.
* `PixelCodec` (`pixel_codec.dfy`): the pixel type and the BGR-to-RGB swap, the pixel line and the encoded frame, and the binary-channel scaling. It also holds the reading side of the input-frame format, `DecodeInputFrame`. That side is not in `video_processor.py`: the simulator's test bench does the reading. It is here as the inverse that the encoder is proved against.
* `FileNames` (`file_names.dfy`): the artifact names `input_frame_<i>.txt`, `output_gray_<i>.txt`, `output_neg_<i>.txt` and `output_bin_<i>.txt`. Names are injective in the index, and the `output_gray_` prefix test picks out only gray names.
* `FrameExtractor` (`frame_extractor.dfy`): the extraction loop as a method. It works over a `VideoCapture` object and a `StagingDirectory` object whose `files` map gives each file name its lines. It is specified by the function `Staged`.
* `FrameAssembler` (`frame_assembler.dfy`): the assembly loop as a method. The working directory maps each file name to the uint8 values `np.loadtxt` reads from it. The method writes into three `VideoWriter` objects, each holding a sequence of frames. The loop is specified by the function `AssembleUpTo`.

The code behaves as follows in cases a reader might not expect:

* Decoding does no range check on values. Stored binary values other than 0 and 1 wrap modulo 256, for example 2 becomes 254.
* The encoder itself does no dimension check. A zero or negative target size is refused only by `cv2.resize` (video_processor.py:45), which raises on the first frame, and that failure is outside the model.
* Sparse gray indices such as 0, 2 and 10 are not all processed. The walk stops at the first absent index, 1 in that example (`GapEndsWalk`).
* If loading or reshaping a file raises, the writers are left open and are not released. The streams can then differ in length by one frame, because the gray frame of an index is written before its negative file is read.

## Model

| member | source | states |
|---|---|---|
| `DecimalText.Decimal` | video_processor.py:57 | An integer is written as at least one character, all decimal digits, with no leading zero. |
| `DecimalText.ParseDecimalOfDecimal` | video_processor.py:57 | Reading back the decimal text of n gives n. |
| `DecimalText.DecimalInjective` | video_processor.py:54 | Different indices have different decimal texts. |
| `Grids.Reshape` | video_processor.py:110 | `reshape((height, width))` succeeds exactly when the value count is height × width. On success the result is `height` rows of `width` values. Any other count is a `SizeMismatch` error, never a silent reshape. |
| `Grids.FlattenLength` | video_processor.py:51 | Flattening height rows of width cells yields height × width cells. |
| `Grids.FlattenAt` | video_processor.py:51 | The flattening is row-major: cell (r, c) is element r·width + c. |
| `Grids.ReshapeFlatten` | video_processor.py:51 | Reshaping the flattening of a height × width grid gives the grid back. |
| `Grids.FlattenReshape` | video_processor.py:110 | Flattening a successful reshape gives the values back, so reshape is the inverse of the encoder's flatten. |
| `Grids.ReshapeAt` | video_processor.py:110 | After a successful reshape, row r, column c holds value r·width + c. |
| `PixelCodec.EncodedLineAt` | video_processor.py:48-57 | An encoded height × width frame has exactly width × height lines. Line r·width + c is pixel (r, c) as source channels 2, 1, 0 (R, G, B), in decimal, joined by single spaces and ended by a newline. |
| `PixelCodec.ParsePixelLineOfPixelLine` | video_processor.py:57 | Every pixel line reads back as exactly the pixel it was written from, so the line format is unambiguous. |
| `PixelCodec.DecodeEncodeFrame` | video_processor.py:48-57 | Round trip: reading back an encoded height × width frame yields the frame with its channels in R, G, B order. |
| `PixelCodec.ScaleBinaryIsNegation` | video_processor.py:120 | `(v * 255).astype(uint8)` equals (256 − v) mod 256, so 0 maps to 0 and 1 maps to 255. |
| `PixelCodec.ScaleBinaryGrid` | video_processor.py:120 | A binary frame of 0s and 1s scales to a frame of 0s and 255s, where 255 appears exactly where the stored value was 1. |
| `FileNames.IndexedName` | video_processor.py:100-102 | Every `f"{prefix}{i}.txt"` name starts with its prefix. |
| `FileNames.IndexedNameInjective` | video_processor.py:54 | Names with the same prefix and different indices are different files. |
| `FileNames.PrefixClasses` | video_processor.py:78 | The `output_gray_` prefix test accepts every gray name. It rejects every negative, binary and input-frame name. |
| `FrameExtractor.VideoCapture.constructor` | video_processor.py:27 | Opening the video positions the stream at its first frame. |
| `FrameExtractor.VideoCapture.Read` | video_processor.py:40-42 | `read()` returns the next frame and advances the position. At the end of the stream it returns `ret == False` and the position stays. |
| `FrameExtractor.StagingDirectory.Open` | video_processor.py:55 | `open(name, "w")` creates the file empty, or truncates an existing one. Every other file is unchanged. |
| `FrameExtractor.StagingDirectory.WriteLine` | video_processor.py:57 | Writing appends one line to the named file. Every other file is unchanged. |
| `FrameExtractor.StagedAt` | video_processor.py:54-59 | Frame i of the stream ends up in `input_frame_<i>.txt` as its encoding. No later write overwrites it. |
| `FrameExtractor.StagedElsewhere` | video_processor.py:38-61 | The files written are exactly `input_frame_0.txt` through `input_frame_<n-1>.txt`, with no gap. Every other file keeps its contents. |
| `FrameExtractor.StagedFrameLayout` | video_processor.py:45-59 | For frame i of height × width pixels, the staged file has width × height lines. Pixel (r, c) is on line r·width + c in R, G, B order, and the file reads back as the RGB frame. |
| `FrameExtractor.VideoToFrames` | video_processor.py:14-65 | A missing path raises `FileNotFound` and an unopenable video raises `CouldNotOpen`, both leaving the staging directory unchanged. Otherwise the method returns the number of frames in the stream, and the staging directory is the old one with every frame written under its index. |
| `FrameAssembler.LoadFrame` | video_processor.py:109-110 | Loading and reshaping succeeds exactly when the file exists and holds height × width values. The result is a height × width grid whose flattening is the file's values. |
| `FrameAssembler.FirstMissingGray` | video_processor.py:104-106 | The result is the first index below k without a gray file, or k when every index below k has one. |
| `FrameAssembler.StepCases` | video_processor.py:99-121 | One loop pass. An absent gray file stops the walk at that index. A readable index appends one decoded frame to each stream, with binary scaled. Any other index raises, and the binary stream is unchanged. The gray stream has the new gray frame exactly when the gray file has width × height values. The negative stream has the new negative frame exactly when the gray and negative files both have that count. |
| `FrameAssembler.StepKeepsConsistent` | video_processor.py:99-121 | One pass of the loop body from a running state that meets the `Consistent` invariant leads to a state that meets it one index further. |
| `FrameAssembler.AssembleUpToState` | video_processor.py:98-121 | The state after any number of indices meets `Consistent`. Let n be the binary stream's length. Gray and negative hold n or n + 1 frames, and all three lengths are equal unless an exception was raised. Every index below n was readable. Running means n = k. Stopped means n is the first missing gray index. Raised means index n is below that index and unreadable. |
| `FrameAssembler.AssembledFrames` | video_processor.py:98-121 | Frame j of each stream is the reshaped contents of that channel's file for index j, so frames are visited in numeric index order. Binary frames are scaled by 255. |
| `FrameAssembler.AssemblyRaisesIffUnreadable` | video_processor.py:104-120 | Assembly raises if and only if some index below the first missing gray index lacks a negative or binary file, or holds a file whose value count is not width × height. |
| `FrameAssembler.AssemblyLength` | video_processor.py:98-106 | Without an exception, the three streams have equal length: the first missing gray index, capped at the count. |
| `FrameAssembler.AssembleUpToFinal` | video_processor.py:104-106 | After a `break` or an exception, later indices change nothing. |
| `FrameAssembler.GrayNameRangeSize` | video_processor.py:100 | The names `output_gray_0.txt` through `output_gray_<k-1>.txt` are k distinct names. |
| `FrameAssembler.ContiguousGrayFiles` | video_processor.py:78-84 | When the only gray files are indices 0 through n-1, the count is n and none of them is missing. |
| `FrameAssembler.ContiguousFilesAssembleFully` | video_processor.py:78-121 | In that case, with every index readable, all three streams get exactly n frames, whatever extra negative or binary files exist. |
| `FrameAssembler.GapEndsWalk` | video_processor.py:78-106 | With files only for indices 0, 2 and 10, the count is 3, index 0 is assembled, and the walk stops at the absent index 1. |
| `FrameAssembler.VideoWriter.constructor` | video_processor.py:90-95 | A new writer records its frame size and fps, holds no frames and is not released. |
| `FrameAssembler.VideoWriter.Write` | video_processor.py:111 | `write` appends exactly one frame. |
| `FrameAssembler.VideoWriter.Release` | video_processor.py:127-129 | `release` marks the writer released and keeps its frames. |
| `FrameAssembler.WriteFrameSet` | video_processor.py:108-121 | One pass of the loop body, once the gray file is known to exist. It appends to the three writers exactly what `Step` specifies, including the partial writes before an exception. |
| `FrameAssembler.FramesToVideo` | video_processor.py:67-131 | With no `output_gray_` name, it returns `NoFramesFound` and creates no writer. Otherwise it returns three fresh, distinct writers, each opened with the caller's width, height and fps, holding exactly the streams of the walk over indices 0 through N-1. An exception is reported exactly when the walk raises it. The writers are released exactly when nothing was raised; after an exception none of the three is released. |

## Left out

- `create_directory_if_not_exists` (video_processor.py:8-12): an operating-system side effect with no data to model.
- `run_verilog_simulation` (video_processor.py:133-172): it runs the `iverilog` and `vvp` subprocesses. The simulator is an opaque process, so the model starts from the files it leaves behind.
- `main` (video_processor.py:174-210): argument parsing and the skip flags.
- The progress messages (video_processor.py:34-35, 60-61, 64, 81, 86, 105, 123-124, 131): they are informational only. The frame count and fps read at lines 31-32 feed only these messages.
- `cv2.resize` (video_processor.py:45): its interpolation is library-defined, and it raises `cv2.error` for a zero or negative target size; the model captures neither, since `VideoToFrames` takes no target size. A `Readable` video carries the frames as resize returns them. The line-count and layout lemmas assume each frame has height rows of width pixels, which is what resize produces.
- `cv2.cvtColor` (video_processor.py:48): modelled only as the channel permutation it performs.
- `np.loadtxt` (video_processor.py:109, 114, 119): the working directory holds each file's values already parsed to uint8. Text that does not parse, and the conversion of out-of-range text to uint8, are not modelled.
- Directory listing, `os.path.exists` and files vanishing between the listing and the read: these are modelled as membership in one fixed map.
- `cv2.VideoWriter` encoding (mp4v): each writer is the sequence of frames handed to it.
- `video.release()` (video_processor.py:63): the capture's release is not modelled.
- Width and height are natural numbers. numpy's `-1` wildcard for a negative dimension is not modelled.
- Sorting the gray names (video_processor.py:78): only their count is used, and sorting does not change the count, so the model counts a set.
