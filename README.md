# stitch.c: a verified model of the decode-and-dump driver

`doc/examples/stitch.c` is a libavcodec client. It opens an MPEG-4 video decoder and reads two input files in chunks of 4096 bytes, followed by zeroed padding. It feeds the chunks of the first file to the decoder packet by packet. Every picture the decoder returns is saved as a binary greyscale PGM file: the header `P5\n<width> <height>\n255\n`, then the luma plane row by row. At the end the driver makes one more decode call with a NULL packet, to collect a frame the decoder may still hold.

This project models that driver in Dafny:

- `Bytes` (bytes.dfy) covers the bytes written and the text that `"%d"` produces for a non-negative number. It also defines a parser that reads that text back.
- `Pgm` (pgm.dfy) covers `pgm_save`:
  - `Image` is the file `pgm_save` writes, as a function of the plane, its stride (`wrap`) and its size;
  - `PgmSave` is the header-then-rows loop, proved to write exactly `Image`;
  - lemmas state the layout of the body and that the file parses back to its size and pixels.
- `Decoder` (decoder.dfy) covers libavcodec as the driver sees it:
  - `avcodec_decode_video2` is an oracle, a deterministic function from the packets offered so far and the current packet to a return value and an optional picture;
  - `AVPacket` is the class `Packet`, a data offset and a size that the driver updates in place;
  - the codec context is the class `Codec`, which records every packet it is offered.
- `Stitch` (stitch.dfy) covers `decode_write_frame` and `video_stitch`:
  - the pure functions `Step`, `Exhaust`, `Rounds` and `Run` state what one decode call, the inner `while (avpkt1.size > 0)` loop, the `for (;;)` loop and the whole run compute;
  - the methods `DecodeWriteFrame`, `DecodeChunk`, `ReadRound`, `ReadDecodeLoop` and `VideoStitch` work on the objects, and each is proved to compute the matching function;
  - the class `InputFile` is an input `FILE*` with `fread`.

Two conditions on the decoder are stated as predicates and required where they are needed:

- `Honest`: it never consumes more bytes than it was offered, and every picture it returns has all its rows inside the plane.
- `Progresses`: offered a non-empty packet, it either fails or consumes at least one byte. Without this condition the inner loop of `video_stitch` need not end.

The loop's exit test `avpkt1.size == 0 || avpkt1.size == 0` tests the first stream twice. The model keeps the test as written, so the loop ends when the first file is used up, whatever the second holds. The second file is read chunk by chunk but next to nothing else happens to it:

- its packet gets a data pointer but is never decoded;
- `frame_count2` stays 0 (`VideoStitch` ensures it);
- the scenario lemma `StubRun` holds whatever the second input is.

The same lemma shows a complete run with a stub decoder. The stub consumes each packet whole and returns a fixed 2x2 picture stored with line size 3. The run then writes one file per 4096-byte chunk of the first input, saved under counter values 0, 1, 2 and so on.

## Model

| member | source | states |
|---|---|---|
| `Bytes.Decimal` | doc/examples/stitch.c:70 | the `%d` text of a number is non-empty and all digits; it has a leading `0` only for the number 0, and is one digit exactly when the number is below 10 |
| `Bytes.FoldDecimal` | doc/examples/stitch.c:70 | the digits of the `%d` text, read most significant first, give the number back |
| `Bytes.ParseNatDecimal` | doc/examples/stitch.c:70 | round trip: the `%d` text followed by a non-digit parses to the number and exactly what followed |
| `Pgm.PgmSave` | doc/examples/stitch.c:64-74 | the bytes `pgm_save` writes are the header followed by the ysize rows, row i being the xsize bytes at offset i * wrap (`Image`); rows must lie inside the plane |
| `Pgm.BodyLength` | doc/examples/stitch.c:71-72 | the pixel data is exactly xsize * ysize bytes, whatever the stride |
| `Pgm.BodyAt` | doc/examples/stitch.c:71-72 | byte xsize * i + j of the pixel data is byte i * wrap + j of the plane: the file is row-major with rows of xsize bytes, and the stride bytes past xsize are never written |
| `Pgm.BodyReadsOnlyRows` | doc/examples/stitch.c:71-72 | two planes that agree on every row byte give the same file: nothing outside the rows is read |
| `Pgm.ParseImage` | doc/examples/stitch.c:70-72 | round trip: the file parses as a binary greymap with width xsize, height ysize, maximum value 255 and exactly the pixel data written |
| `Decoder.InputOf` | doc/examples/stitch.c:82 | the decoder is offered a NULL packet exactly when the data pointer is NULL, and otherwise exactly `size` bytes |
| `Decoder.Packet.constructor` | doc/examples/stitch.c:115-116 | the model starts data and size at NULL and 0; `av_init_packet` leaves them unset, and stitch.c assigns both (lines 161, 166 and 185) before any read |
| `Decoder.Codec.constructor` | doc/examples/stitch.c:143 | an opened decoder has been offered nothing |
| `Decoder.Codec.DecodeVideo` | doc/examples/stitch.c:82 | the answer is the oracle's answer for the packet's current bytes given everything offered before, and the packet joins the history |
| `Stitch.Step` | doc/examples/stitch.c:82-101 | a negative decoder result is returned unchanged, with the packet, counter and files untouched. Otherwise the call returns 0. A file is saved exactly when the decoder succeeded with a picture; it holds that picture's PGM and is named after the count before the increment, and the counter goes up by the number of files saved. A packet with data moves past the consumed bytes, keeping its end fixed; a NULL packet stays NULL |
| `Stitch.DecodeWriteFrame` | doc/examples/stitch.c:76-102 | one call makes exactly one decode call and leaves packet, counter, saved file and return value as `Step` states |
| `Stitch.InputFile.constructor` | doc/examples/stitch.c:148-149 | an opened input file is read from its start |
| `Stitch.InputFile.Read` | doc/examples/stitch.c:161-162 | `fread` returns min(count, bytes left), copies exactly those next bytes to the start of the buffer, advances the position by that much and leaves the rest of the buffer (the padding) alone |
| `Stitch.DecodeChunk` | doc/examples/stitch.c:170-173 | the inner loop leaves decoder history, counter and files as `Exhaust` states; when no call failed the packet is used up |
| `Stitch.ExhaustConsumes` | doc/examples/stitch.c:170-173 | the inner loop consumes its chunk to the end exactly when no call fails; it makes at least one call on a non-empty chunk and at most one per byte |
| `Stitch.ExhaustNames` | doc/examples/stitch.c:170-173 | the inner loop only appends files, each named after the counter value it was saved under; those values run on from the counter's start without a gap, and the counter ends past the last |
| `Stitch.ExhaustFeeds` | doc/examples/stitch.c:170-173 | every call in the inner loop is offered a non-empty packet, the tail of the chunk from the current offset on |
| `Stitch.ReadRound` | doc/examples/stitch.c:159-181 | one pass of the `for (;;)` body: if it is the last, decoder history, counter, files and the exit flag are what `Rounds` gives from the position file 1 was at; otherwise it has read further in file 1, and the remaining `Rounds` end as the ones before the pass. The padding of both buffers stays zero |
| `Stitch.ReadDecodeLoop` | doc/examples/stitch.c:158-182 | the `for (;;)` loop ends with decoder history, counter, files and exit flag as `Rounds` gives, and the padding still zero |
| `Stitch.RoundsConsume` | doc/examples/stitch.c:158-182 | the rounds consume every remaining byte of the first file exactly when no decode call fails |
| `Stitch.RoundsNames` | doc/examples/stitch.c:158-182 | across the rounds files are only appended, named by consecutive counter values from the start value, and the counter ends at start plus files written |
| `Stitch.RoundsFeed` | doc/examples/stitch.c:158-182 | during the rounds the decoder is offered only non-empty packets, and the history is only extended |
| `Stitch.VideoStitch` | doc/examples/stitch.c:104-197 | the whole driver ends with the status, files, `frame_count1` and decoder history that `Run` states, and `frame_count2` is 0 |
| `Stitch.RunNamesFrames` | doc/examples/stitch.c:155-187 | file k is saved under counter value k, so no two frames share a counter value, and `frame_count1` ends at the number of files written |
| `Stitch.RunConsumes` | doc/examples/stitch.c:158-187 | the driver finishes normally exactly when the decoder consumed every byte of the first file, and any other end is exit(1) |
| `Stitch.RunDrainsOnce` | doc/examples/stitch.c:185-187 | after a normal end the last decode call, and only that one, is offered a NULL packet; it saves at most one more frame; every earlier call got a non-empty packet |
| `Stitch.StubIsWellBehaved` | doc/examples/stitch.c:82 | the stub decoder (whole packet consumed, a fixed picture per packet) meets both conditions on decoders |
| `Stitch.StubRun` | doc/examples/stitch.c:158-187 | with the stub decoder the driver finishes normally, writing one file per 4096-byte chunk of the first input (its length divided by 4096, rounded up), file k being the stub picture's PGM under counter k, whatever the second input is |

## Left out

- libavcodec itself (`avcodec_find_decoder`, `avcodec_alloc_context3`, the `CODEC_FLAG_TRUNCATED` test, `avcodec_open2`, `avcodec_close`, `av_free`): the decoder is an oracle. The exit paths for a missing codec or a failed allocation or open are not modelled.
- `Honest` and `Progresses` are assumptions on the decoder, not facts proved about libavcodec, whose code is not part of this model.
- `Progresses` is stronger than termination of the inner loop needs. A decoder that answers 0 once and then consumes whole packets ends the loop, but the model excludes it. Without any such condition stitch.c can hang: a decoder that always answers 0 leaves the packet where it is (`Step` keeps the cursor when len is 0), and `while (avpkt1.size > 0)` never ends. The model does not describe such non-terminating runs.
- `alloc_frame` assigns the new frame to its own parameter, so the caller's `frame1` and `frame2` stay uninitialised. Lines 171 and 187 then pass that uninitialised pointer to `avcodec_decode_video2`, and line 194 frees it, so the program as written has undefined behaviour at its first decode call. The model does not represent frames: the oracle returns the picture. The model describes the run that a working `alloc_frame` would give.
- `open_file` and `fopen` failures, `fclose`, and write errors in `pgm_save`: an input file is its contents, and an output file is the bytes written to it.
- The `snprintf` of the output file name: a saved file is identified by the counter value the name is formatted with. Distinct counter values give distinct names only for an output template that formats the count; with a template that has no conversion every frame gets the same name, and `fopen(..., "w")` overwrites the previous file. Truncation of the name to 1023 characters is not modelled.
- `printf`, `fprintf` to stderr, `fflush`: they do not change state the model keeps.
- The `last` argument of `decode_write_frame`: it only changes a printed message.
- The commented-out `toggle` branch and the unused `toggle` variable: dead code.
- `main`: argument handling and `avcodec_register_all`. `VideoStitch` takes the two inputs' contents; the output template is not needed.
- The `AUDIO_INBUF_SIZE` and `AUDIO_REFILL_THRESH` constants: unused.
- `FF_INPUT_BUFFER_PADDING_SIZE` comes from avcodec.h, which is not part of this model. It is taken as 16.
- The part of each input buffer before the padding is uninitialised in C. The model starts it at zero, but nothing depends on it: every byte the decoder is offered has been read first.
- `Stitch.Padded` says only that bytes 4096 to 4111 of each buffer are zero. They follow the data only after a full read. After a short read of n bytes, bytes n to 4095 still hold the previous chunk, or uninitialised memory in the first round, so a decoder reading past `size` does not see zeros there.
- `Pgm.PgmSave`: width, height and line size are C `int`s, but the model takes them as non-negative numbers. A negative value, and the `-` that `%d` would print for it, are not modelled.
- `Decoder.Packet.constructor`: `av_init_packet` does not set data and size. The model starts them at NULL and 0; this changes nothing, because stitch.c assigns both before reading either.
- `Stitch.Step`: `*frame_count` is an `int` that could wrap around; the model counts with unbounded integers.
- `Stitch.DecodeChunk`, `Stitch.ReadRound`: these are inline in `video_stitch`. They are separate methods so that each proof stays small. They use the same objects and the same statements in the same order.
