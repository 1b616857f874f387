# Delimiter framing of the mjpg-streamer fifo input plugin

The fifo input plugin of mjpg-streamer reads a JPEG stream from a named pipe.
The frames in that stream are separated by a fixed delimiter string. The
plugin's worker thread does the framing in four steps:

- It reads into a fixed 64000-byte buffer, never asking for more than the
  free space.
- It searches the filled part for the delimiter, one occurrence after
  another.
- It publishes every non-empty piece between delimiters as the current frame.
  Empty pieces are only reported.
- It moves the unscanned rest to the front of the buffer.

When a read fails, the worker closes and reopens the fifo and drops the
buffered bytes. If that fails too, the worker ends.

The project has three modules.

- `FrameScan` (`FrameScan.dfy`) is the framing as pure definitions. `Scan`
  cuts a byte sequence into pieces and an unscanned tail, always at the first
  delimiter occurrence after the previous cut. `NonEmpty` keeps the pieces
  that become frames. The lemmas prove the following:
  - joining the pieces and the tail gives back the bytes;
  - `Scan` is the only such description (soundness and uniqueness);
  - bytes that arrive later do not change pieces already cut;
  - back-to-back delimiters publish nothing.
- `ReadLoop` (`ReadLoop.dfy`) is the worker's loop as pure definitions. Each
  read result is a chunk of bytes (empty for end of file) or a failed read
  that was or was not recovered by reopening the fifo. `StepSpec` is one pass
  of the loop. `Replay` runs the loop over a sequence of read results. The
  lemmas prove the following:
  - chunk boundaries do not matter;
  - a recovered failure drops the buffer;
  - an unrecovered failure ends the worker;
  - a full buffer without a delimiter stalls.
- `FifoInput` (`FifoInput.dfy`) is the worker itself.
  - The class `Worker` holds the buffer as an `array<byte>`, its fill level
    `used`, the delimiter, and the `Slot` where frames are published.
  - `Append` and `Compact` copy bytes into and within the array in loops,
    as `read` and `memmove` do. Their contracts give the array and `used`
    afterwards in terms of their values before.
  - `ScanFrames` is the scan loop. It is proved to publish exactly the
    non-empty pieces of `FrameScan.Scan`.
  - `Step` is one pass of the worker loop and is proved to match
    `ReadLoop.StepSpec`. `Run` loops over a sequence of read results and is
    proved to match `ReadLoop.Replay`.
  - `FindDelimiter` is the byte-string search (`memmem`) as a loop.

Some facts about the code that the model follows:

- The default delimiter literal at `input_fifo.c:58` has 32 characters.
- There is no error for a buffer that fills up without a delimiter. Every
  later read then asks for zero bytes, and the zero it returns is taken as
  end of file, so the worker stalls. `FullBufferStalls` states this.
- The delimiter given with `--delim` is not checked. An empty one makes the
  scan loop spin forever; see "## Findings".
- A frame is published as a pointer into the working buffer, not as a copy;
  see "## Findings".

## Model

| member | source | states |
|---|---|---|
| ReadLoop.DefaultDelimiterNonEmpty | mjpg-streamer-experimental/plugins/input_fifo/input_fifo.c:71-75 | the default delimiter `c3f97bee765fd86b209951ead9f8a583` has 32 bytes, so it is non-empty as the scan requires |
| FrameScan.FirstMatch | mjpg-streamer-experimental/plugins/input_fifo/input_fifo.c:268 | the search result is an occurrence of the delimiter with none before it; no result means no occurrence at all |
| FifoInput.FindDelimiter | mjpg-streamer-experimental/plugins/input_fifo/input_fifo.c:268 | the search loop from cursor `lo` returns an index whose window equals the delimiter and which is the first occurrence after `lo`, or reports that none remains |
| FrameScan.Scan | mjpg-streamer-experimental/plugins/input_fifo/input_fifo.c:266-296 | the scan loop's outcome as a function: the pieces cut at successive first occurrences and a tail that holds no occurrence of the delimiter |
| FrameScan.ScanReconstructs | mjpg-streamer-experimental/plugins/input_fifo/input_fifo.c:266-299 | the filled bytes are every cut piece followed by the delimiter, then the unscanned tail |
| FrameScan.ScanPiecesEndAtFirstDelimiter | mjpg-streamer-experimental/plugins/input_fifo/input_fifo.c:268-269 | each piece (`frame_size` bytes from `head`) stops exactly at the first delimiter occurrence after the cursor |
| FrameScan.ScanSound | mjpg-streamer-experimental/plugins/input_fifo/input_fifo.c:266-296 | the scan's pieces and tail reconstruct the bytes, each piece ends at the first occurrence, and the tail holds no occurrence (the state when the loop exits) |
| FrameScan.ScanUnique | mjpg-streamer-experimental/plugins/input_fifo/input_fifo.c:266-296 | any pieces and tail with those three properties are the ones the scan produces |
| FrameScan.ScanCharacterized | mjpg-streamer-experimental/plugins/input_fifo/input_fifo.c:266-296 | the scan's result equals a candidate split if and only if that split has those three properties |
| FrameScan.ScanNoMatch | mjpg-streamer-experimental/plugins/input_fifo/input_fifo.c:268 | with no occurrence the loop body never runs: no piece, everything stays as tail |
| FrameScan.ScanTailIsSuffix | mjpg-streamer-experimental/plugins/input_fifo/input_fifo.c:298-299 | the unscanned rest is the last part of the filled bytes, so it is never longer than them |
| FrameScan.FirstMatchExtends | mjpg-streamer-experimental/plugins/input_fifo/input_fifo.c:265-268 | an occurrence that is first in the filled bytes stays first after more bytes are appended |
| FrameScan.ScanAppend | mjpg-streamer-experimental/plugins/input_fifo/input_fifo.c:265-299 | scanning after every read cuts the same pieces as scanning everything at once: the old pieces, then those of the old tail followed by the new bytes |
| FrameScan.NonEmpty | mjpg-streamer-experimental/plugins/input_fifo/input_fifo.c:271-289 | the published frames are exactly the pieces that are not empty, each of positive size, never more than the pieces |
| FrameScan.NonEmptyAppend | mjpg-streamer-experimental/plugins/input_fifo/input_fifo.c:271-289 | keeping the non-empty pieces of two runs of pieces is keeping those of each, in order |
| FrameScan.NonEmptySnoc | mjpg-streamer-experimental/plugins/input_fifo/input_fifo.c:271-289 | one more piece adds one frame exactly when it is not empty |
| FrameScan.BackToBackDelimiters | mjpg-streamer-experimental/plugins/input_fifo/input_fifo.c:287-291 | two adjacent delimiters cut two empty pieces, publish nothing, and the cursor still moves past both |
| FrameScan.ScanExample | mjpg-streamer-experimental/plugins/input_fifo/input_fifo.c:266-296 | with delimiter `\|D\|`, `AB\|D\|\|D\|CD\|D\|` cuts `AB`, an empty piece and `CD`, leaves no tail, and publishes `AB` then `CD` |
| FifoInput.CutAdvance | mjpg-streamer-experimental/plugins/input_fifo/input_fifo.c:268-291 | moving `head` past the first occurrence after it extends the cut prefix by that piece and its delimiter, and the cursor stays within the filled part |
| FifoInput.CutDone | mjpg-streamer-experimental/plugins/input_fifo/input_fifo.c:268 | when the search fails, the pieces cut so far and the bytes from `head` on are exactly the scan's result |
| FifoInput.ScanLoopStep | mjpg-streamer-experimental/plugins/input_fifo/input_fifo.c:268-291 | one loop pass cuts `buffer[head..at]` and adds it to the frames exactly when `frame_size != 0` |
| FifoInput.Slot.constructor | mjpg-streamer-experimental/plugins/input_fifo/input_fifo.c:228 | before the first frame nothing is published |
| FifoInput.Slot.Publish | mjpg-streamer-experimental/plugins/input_fifo/input_fifo.c:273-285 | publishing sets the frame's size to its length and its bytes, and appends it to the frames handed out |
| FifoInput.Worker.constructor | mjpg-streamer-experimental/plugins/input_fifo/input_fifo.c:223-224 | a 64000-byte buffer with nothing filled |
| FifoInput.Worker.Available | mjpg-streamer-experimental/plugins/input_fifo/input_fifo.c:205 | the free space is the buffer's length minus the filled part |
| FifoInput.Worker.Append | mjpg-streamer-experimental/plugins/input_fifo/input_fifo.c:232-265 | a read of at most the free space lands right after the filled part, `used` grows by its length and stays within the capacity, and the rest of the buffer is untouched |
| FifoInput.Worker.ScanFrames | mjpg-streamer-experimental/plugins/input_fifo/input_fifo.c:266-296 | the loop publishes, in order, exactly the non-empty pieces of the filled bytes; the current frame is the last of them, or is unchanged if there is none (`CurrentFrame`); the consumed count leaves exactly the scan's tail |
| FifoInput.Compacted | mjpg-streamer-experimental/plugins/input_fifo/input_fifo.c:298-299 | the buffer after `memmove`: its length unchanged, the unconsumed bytes at the front and the bytes behind them as before |
| FifoInput.Worker.Compact | mjpg-streamer-experimental/plugins/input_fifo/input_fifo.c:298-299 | `used` shrinks by the consumed count, the filled part is the old unconsumed bytes, and the whole buffer is the `memmove` result (nothing changes if nothing was consumed) |
| FifoInput.Worker.Step | mjpg-streamer-experimental/plugins/input_fifo/input_fifo.c:230-299 | one pass of the worker loop does what `StepSpec` says: end of file changes nothing, a recovered failure empties the buffer, an unrecovered one stops; after compaction the current frame is still the last frame published, and a pass that publishes nothing leaves the current frame and its size as they were (`CurrentFrame`) |
| FifoInput.Worker.Run | mjpg-streamer-experimental/plugins/input_fifo/input_fifo.c:229-300 | the worker loop over a sequence of reads, each fitting the free space, ends in the state `Replay` gives; the current frame is then the last frame published, or, if none was, the frame and size there were before (`CurrentFrame`) |
| ReadLoop.StepSpec | mjpg-streamer-experimental/plugins/input_fifo/input_fifo.c:230-299 | one pass of the worker loop: it stops the worker exactly on a failed read whose reopen failed; every frame it publishes is non-empty; a failed read publishes nothing; after a read, a buffer that held no delimiter still holds none |
| ReadLoop.Replay | mjpg-streamer-experimental/plugins/input_fifo/input_fifo.c:229-300 | the worker loop over a sequence of read results: every frame published is non-empty, and without failed reads the worker is still running at the end |
| ReadLoop.ReplaySettled | mjpg-streamer-experimental/plugins/input_fifo/input_fifo.c:229-300 | a buffer that starts without a delimiter holds none after any sequence of passes, which is the premise `StepSpecSettled` needs |
| ReadLoop.StepSpecBounded | mjpg-streamer-experimental/plugins/input_fifo/input_fifo.c:232-299 | a pass never leaves more bytes than the capacity |
| ReadLoop.StepSpecSettled | mjpg-streamer-experimental/plugins/input_fifo/input_fifo.c:265-299 | on a buffer with no delimiter (the state after every pass, by `ReplaySettled`), a read of `b` publishes the non-empty pieces of the buffer followed by `b`, and keeps their tail |
| ReadLoop.ReplayAppend | mjpg-streamer-experimental/plugins/input_fifo/input_fifo.c:229-300 | running the loop over two runs of reads is running it over the first, then over the second from the buffer the first left, unless the worker ended during the first |
| ReadLoop.ReopenDropsBuffer | mjpg-streamer-experimental/plugins/input_fifo/input_fifo.c:249-257 | a failure that is recovered drops the unscanned bytes: what follows is framed as from a fresh start |
| ReadLoop.GiveUpStops | mjpg-streamer-experimental/plugins/input_fifo/input_fifo.c:242-255 | a failure whose close or reopen fails ends the worker: no later read is processed and no frame is added |
| ReadLoop.ReplayStreams | mjpg-streamer-experimental/plugins/input_fifo/input_fifo.c:229-300 | without failures the frames are the non-empty pieces of all bytes received, and the buffer holds their tail, however the bytes were split into reads |
| ReadLoop.FullBufferStalls | mjpg-streamer-experimental/plugins/input_fifo/input_fifo.c:232-236 | a full buffer without a delimiter stays as it is and publishes nothing for as long as reads do not fail |
| ReadLoop.ReplayExample | mjpg-streamer-experimental/plugins/input_fifo/input_fifo.c:229-300 | `AB\|D\|\|D\|CD\|D\|` arriving as two reads split inside a delimiter publishes `AB` and `CD` and empties the buffer |
| FifoInput.EmptyDelimiterStalls | mjpg-streamer-experimental/plugins/input_fifo/input_fifo.c:268-291 | with an empty delimiter the search succeeds at the cursor itself, the piece is empty, and the cursor does not move |
| FifoInput.AliasedFrameOverwritten | mjpg-streamer-experimental/plugins/input_fifo/input_fifo.c:276-299 | in the source, a frame published as a pointer into the buffer is overwritten by the compaction that follows |

## Left out

- File-descriptor I/O (`open`, `read`, `close` on the fifo) is not modelled directly. A read is a `ReadResult`: a chunk of at most the free space (empty for end of file), or a failure with the outcome of close and reopen.
- The initial `open` failure (`:214-218`) is not modelled: the model starts with an open fifo.
- The stop flag `pglobal->stop` is not modelled: the worker runs until the given reads are exhausted.
- Negative return values of `read` are not modelled as numbers; they are the `Failed` case.
- The diagnostics written to stderr are not modelled: the `eof`, `failed`, `close() failed`, `open() failed` and `reopened` messages (`:236-258`) and `perror("empty frame")` for an empty piece (`:288`). They are output only; the model's scan skips an empty piece without a trace.
- `sleep`, `usleep` pacing and the `gettimeofday` timestamp are not modelled: they are clock calls and do not change the framing.
- Mutex lock, condition broadcast and unlock around publishing are not modelled. Publishing is one atomic update of `Slot`.
- Thread creation, cancellation, the cleanup handlers and `worker_cleanup` are not modelled.
- Option parsing (`--delim`, `--name`, `--delay`) and the help text are not modelled; the delimiter is a parameter.
- The `malloc` of the buffers, the leaked global buffer and the final `free` are not modelled.
- FifoInput.Slot.Publish: copies the frame's bytes instead of storing a pointer into the fifo buffer, as the source does; the discrepancy is under "## Findings".
- FifoInput.Worker.ScanFrames: searches a copy of the filled part rather than the array itself. The buffer is not written during the scan, so the result is the same.
- Integer widths (`int frame_size`, `size_t fifo_buffer_used`) are unbounded here: all values are at most 64000, so no overflow is possible.
- FifoInput.Worker.constructor: requires a non-empty delimiter, which the source does not check; the empty delimiter is under "## Findings".
- FrameScan.Ascii: takes character codes modulo 256. It only builds the byte strings of the examples.

## Findings

| source | as written | input that shows it | evidently intended | confidence | as-written member | corrected member |
|---|---|---|---|---|---|---|
| mjpg-streamer-experimental/plugins/input_fifo/input_fifo.c:278 | the frame is published as `buf = head`, a pointer into `fifo_buffer`, which the `memmove` at `:299` and the next `read` overwrite while consumers may still read it | delimiter `\|D\|`, buffer `AB\|D\|XY`: `AB` is published at offset 0 with size 2; compaction puts `XY` there | consumers read the frame's own bytes, as the commented-out `memcpy` at `:277` did | high, not executed | FifoInput.AliasedFrameOverwritten | FifoInput.Worker.Step |
| mjpg-streamer-experimental/plugins/input_fifo/input_fifo.c:146-147 | `--delim` is taken as given, so an empty argument sets `frame_delim_size` to 0; `memmem` then finds the empty needle at `head` every time, `frame_size` is 0 and `head` moves by 0, so the loop at `:268-291` never ends | `--delim=` (an empty `optarg` under getopt's rules; `--delim ""` too, if the argument reaches the plugin), then any read that returns at least one byte | the delimiter is non-empty, as the default at `:58` is; the scan loop then moves `head` forward on every pass and ends | high, not executed | FifoInput.EmptyDelimiterStalls | FifoInput.Worker.constructor |
