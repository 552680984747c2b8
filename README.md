# gsttap pulse containers in Dafny

This project models the GStreamer elements of gsttap that turn streams of
tape pulses (32-bit pulse lengths, in machine clock cycles) into container
files and back, and the element that rescales and reshapes pulse streams:

- the current TAP file writer and reader (`tap/gsttapfileenc.c`,
  `tap/gsttapfiledec.c`): the 20-byte "C64-TAPE-RAW"/"C16-TAPE-RAW" header,
  the version chosen from the caps, the one-byte version-0 encoding with its
  `last_was_overflow` toggle, the version 1/2 chains of `00 FF FF FF`
  overflow records, and the reader's byte cursor (`in_offset`) with its
  record-by-record pulse accumulator and the size-bounded pull loop;
- the older TAP writer and reader (`src/gsttapfileenc.c`,
  `src/gsttapfiledec.c`): the "C64-FILE-RAW" header, the repeated-chunk
  overflow rule, 128-byte output buffers, and a reader that consumes bytes
  only once a whole pulse is there;
- the DMP writer and reader (`src/gstdmpenc.c`, `tap/gstdmpdec.c`):
  little-endian fields of `bits_per_sample` bits whose largest value is an
  additive overflow sentinel, and the reader's error on a field above it;
- the converter (`tap/gsttapconvert.c`): the in-place rate change with a
  64-bit intermediate, the full-to-half split, the half-to-full join, the
  mode chosen from the two `halfwaves` flags and the unit sizes;
- the base class of the newer container readers
  (`tap/gstbasetapcontainerdec.c`): the bounded cursor, the commit point
  `to_flush`, the three-valued header status, the duration and timestamp
  bookkeeping and the size-bounded `get_range` loop, with the concrete
  header and pulse readers as parameters.

Every element whose fields the C code updates is a class whose methods
change those fields; each method is proved against a function on values
(the bytes a writer produces, the pulses a reader decodes, the buffers it
pushes). Round-trip lemmas connect the writers with the readers:
`TapRoundTrips.RoundTrip` (a version 1/2 TAP file decodes to each
pulse's decoded value k·0x1FFFFF + r/8, for a pulse of k overflow
records and a remainder r of at least 8 cycles), `OldTapRoundTrips.RoundTrip`
(a first-generation TAP file of any version decodes, with no byte left
over, to p/8 for each pulse p in version 0 and to the same decoded value
k·0x1FFFFF + r/8 in versions 1 and 2, when every pulse leaves a last
record the reader can tell from an overflow) and `DmpRoundTrips.RoundTrip` (a DMP file decodes to its
pulses exactly, with no error). Machine arithmetic is written out:
32-bit wrap-around as `% 2^32`, the 64-bit intermediate and the 32-bit
product of the converter, `(guint8)` truncation, and the 64-bit
`GstClockTime` accumulator.

Files: `bytes.dfy` (bytes, 32-bit values, little-endian fields),
`tap_file_enc.dfy`, `tap_file_dec.dfy`, `tap_round_trips.dfy`,
`old_tap_file_enc.dfy`, `old_tap_file_dec.dfy`, `old_tap_round_trips.dfy`, `dmp_enc.dfy`,
`dmp_dec.dfy`, `dmp_round_trips.dfy`, `tap_convert.dfy`,
`base_tap_container_dec.dfy`.

## Model

| member | source | states |
|---|---|---|
| TapFileEnc.CapsVersion | tap/gsttapfileenc.c:397-416 | caps are accepted exactly when the rate is the clock of the element's machine and video standard and `halfwaves` is present; the version is 2 exactly for half waves, 0 exactly for full waves with `version-0` forced, otherwise 1 |
| TapFileEnc.HeaderLayout | tap/gsttapfileenc.c:285-307 | the header is 20 bytes: "C16-TAPE-RAW" for machine 2 and "C64-TAPE-RAW" otherwise, then version, machine, video, a 0 byte, and the length read back as little-endian 32 bits |
| TapFileEnc.WriteHeader | tap/gsttapfileenc.c:289-304 | filling the header byte by byte gives the header laid out above |
| TapFileEnc.EncodeV12Chunks | tap/gsttapfileenc.c:350-354 | k·0xFFFFFF + r (r < 0xFFFFFF) is written as k overflow records `00 FF FF FF` and then the final record of r |
| TapFileEnc.EncodeV12Shape | tap/gsttapfileenc.c:350-361 | a version 1/2 pulse p is p div 0xFFFFFF overflow records and the final record of p mod 0xFFFFFF; it takes 4k bytes plus 4 when the remainder is at least 0x800, plus 1 otherwise |
| TapFileEnc.SmallRemainderWritesZero | tap/gsttapfileenc.c:358-360 | a remainder below 8 ends the pulse with a lone 0x00, the same byte as the overflow marker |
| TapFileEnc.EncodeV0OneBytePerPulse | tap/gsttapfileenc.c:340-348 | version 0 writes exactly one byte per pulse, and after a pulse `last_was_overflow` holds exactly when the pulse is at least 0x800 and the previous one did not write the overflow byte |
| TapFileEnc.PutPulseV12 | tap/gsttapfileenc.c:350-361 | the overflow loop and the final record append exactly the version 1/2 encoding of the pulse |
| TapFileEnc.EncodeBuffer | tap/gsttapfileenc.c:338-363 | the loop over a buffer's pulses produces the bytes and the final `last_was_overflow` of the pulse-by-pulse encoding |
| TapFileEnc.TapFileEnc.SinkEventCaps | tap/gsttapfileenc.c:397-416 | the caps event succeeds exactly when the caps are accepted, and sets the version only then |
| TapFileEnc.TapFileEnc.SinkEventEos | tap/gsttapfileenc.c:388-396 | at end of stream, when the seek to 0 is accepted, the header is pushed again with the accumulated length; `sent_header` is left as it was, so a chain call after a data-less end of stream still pushes the length-0 header first |
| TapFileEnc.TapFileEnc.SendHeaderOnce | tap/gsttapfileenc.c:325-334 | the header with length 0 is pushed exactly when it was not sent before, and is marked sent |
| TapFileEnc.TapFileEnc.PushData | tap/gsttapfileenc.c:366-372 | non-empty pulse data is pushed as one buffer and the length grows by its size, kept to 32 bits; the header is never counted |
| TapFileEnc.TapFileEnc.Chain | tap/gsttapfileenc.c:313-375 | one chain call pushes the header first if it was never sent, then the encoding of the buffer's pulses, and carries `last_was_overflow` to the next call; machine, video and version are unchanged |
| TapFileDec.ParseHeader | tap/gsttapfiledec.c:234-265 | a header is accepted exactly when it carries one of the two signatures, version ≤ 2, machine ≤ 2 and video ≤ 1; the rate is then the table entry (the clock divided by 8) and half waves mean version 2 |
| TapFileDec.Flush | tap/gsttapfiledec.c:201-209 | flushing keeps exactly the bytes not yet read and the mode; in push mode the bytes read are dropped, so the cursor is back at 0 |
| TapFileDec.ReadRecord | tap/gsttapfiledec.c:284-316 | reading one record never moves the cursor back, and a whole record moves it forward (the values it reads are stated by `TapRoundTrips.ReadZeroByteV0`, `ReadShortRecord` and `ReadLongRecord`) |
| TapFileDec.PulseLoop | tap/gsttapfiledec.c:283-320 | the accumulator loop leaves the header state alone, and a pulse found consumes bytes |
| TapFileDec.HeaderStep | tap/gsttapfiledec.c:220-279 | the header step reports go-ahead exactly when the header has been read and accepted |
| TapFileDec.GetPulse | tap/gsttapfiledec.c:215-321 | `get_pulse_from_tap` keeps its state valid and consumes bytes whenever it returns a pulse |
| TapFileDec.GetPulseNeedsHeader | tap/gsttapfiledec.c:220-279 | no pulse is returned before an accepted header, none after a rejected one, nothing happens with fewer than 20 bytes of header, and a read header and its version stay |
| TapFileDec.PullLoop | tap/gsttapfiledec.c:362-371 | the `get_range` loop adds at most one pulse per 4 bytes of room |
| TapFileDec.PullLoopDrains | tap/gsttapfiledec.c:362-371 | with room for more pulses than the bytes hold, the `get_range` loop pulls exactly the pulses the push-mode drain decodes from the same state, ends in the same state and reports a rejected header exactly when that state has one |
| TapFileDec.TapFileDec.ReadFromAdapter | tap/gsttapfiledec.c:180-189 | fewer than n bytes past the offset: nothing and no move; otherwise the n bytes at the old offset, which advances by n |
| TapFileDec.TapFileDec.ReadFromPeer | tap/gsttapfiledec.c:191-199 | the same on the upstream file in pull mode |
| TapFileDec.TapFileDec.ReadData | tap/gsttapfiledec.c:180-199 | reading in either mode is the cursor read on the bytes of that mode |
| TapFileDec.TapFileDec.FlushData | tap/gsttapfiledec.c:201-209 | flushing drops the bytes read in push mode and does nothing in pull mode |
| TapFileDec.TapFileDec.ReadTapHeader | tap/gsttapfiledec.c:220-279 | the header part of `get_pulse_from_tap` makes the step the header function describes |
| TapFileDec.TapFileDec.ReadOneRecord | tap/gsttapfiledec.c:284-318 | the record read by the C statements is the record function's result, and the cursor ends where it says |
| TapFileDec.TapFileDec.AccumulateOne | tap/gsttapfiledec.c:283-319 | one turn of the `do … while (overflow_occurred)` loop: a short read ends the loop with the sum so far, a final record ends it with the record added, an overflow record continues it |
| TapFileDec.TapFileDec.AccumulatePulse | tap/gsttapfiledec.c:281-320 | the whole loop returns the pulse and the state of the accumulator function |
| TapFileDec.TapFileDec.GetPulseFromTap | tap/gsttapfiledec.c:215-321 | `get_pulse_from_tap` returns the pulse and leaves the state of the pulse function |
| TapFileDec.TapFileDec.AddToOutAdapter | tap/gsttapfiledec.c:334-348 | the pulses pushed and those waiting in the output adapter grow by exactly the pulse |
| TapFileDec.TapFileDec.DecodeOne | tap/gsttapfiledec.c:333-349 | one turn of the chain loop: a pulse is added to the output, or the loop ends with every pulse the input holds |
| TapFileDec.TapFileDec.DecodeAll | tap/gsttapfiledec.c:333-349 | the chain loop outputs exactly the pulses of draining the decoder and leaves its state |
| TapFileDec.TapFileDec.Chain | tap/gsttapfiledec.c:326-351 | the buffer joins the adapter and the pulses of draining the joined bytes are output; the call fails exactly when the header was rejected |
| TapFileDec.TapFileDec.PullOne | tap/gsttapfiledec.c:362-371 | one turn of the `get_range` loop is one step of the pull function |
| TapFileDec.TapFileDec.GetRange | tap/gsttapfiledec.c:353-373 | `get_range` returns at most `length` bytes of pulses, exactly those of the pull function, and fails exactly when the header was rejected |
| TapRoundTrips.Clocks | tap/gsttapfiledec.c:127-131 | each reader rate is the writer's clock (tap/gsttapfileenc.c:121-125) divided by 8 |
| TapRoundTrips.HeaderRoundTrip | tap/gsttapfiledec.c:234-265 | the reader accepts the writer's header exactly for version ≤ 2, machine ≤ 2, video ≤ 1, and recovers the version, the clock / 8 and the wave shape |
| TapRoundTrips.ReadLongRecord | tap/gsttapfiledec.c:294-306 | in version 1/2 a zero byte and a 24-bit x add x / 8 and continue exactly when x is 0xFFFFFF |
| TapRoundTrips.ReadZeroByteV0 | tap/gsttapfiledec.c:294-296 | in version 0 a zero byte adds 0x100 and ends the pulse: the next byte starts a new pulse |
| TapRoundTrips.ReadShortRecord | tap/gsttapfiledec.c:309-310 | a non-zero byte b adds b and ends the pulse |
| TapRoundTrips.ReadAtEnd | tap/gsttapfiledec.c:291-292 | with no byte left the record is short and the cursor stays |
| TapRoundTrips.Decoded | tap/gsttapfiledec.c:302-305 | what the reader makes of a written pulse p lies between p / 8 − p / 0xFFFFFF and p / 8 |
| TapRoundTrips.ChunksSum | tap/gsttapfiledec.c:317 | k overflow records and a final value add k·0x1FFFFF and the value to the accumulator, kept to 32 bits |
| TapRoundTrips.RecordsLayout | tap/gsttapfileenc.c:350-361 | the writer's overflow records and final record have the record-by-record layout the reader walks |
| TapRoundTrips.OverflowRecordStep | tap/gsttapfiledec.c:297-306 | an overflow record adds 0x1FFFFF and the loop continues after it |
| TapRoundTrips.FinalRecordStep | tap/gsttapfiledec.c:294-319 | a final record ends the pulse with its value added and the cursor after it |
| TapRoundTrips.RecordsRead | tap/gsttapfiledec.c:283-319 | reading k overflow records and a final one gives the accumulated pulse and leaves the cursor after them |
| TapRoundTrips.PulseLoopReads | tap/gsttapfiledec.c:283-319 | the accumulator loop reads the writer's encoding of a pulse whose remainder is at least 8 back as that pulse's decoded value |
| TapRoundTrips.EncodePulsesV12 | tap/gsttapfileenc.c:338-363 | in version 1/2 the encoding of a buffer is the encodings of its pulses in order, and `last_was_overflow` is untouched |
| TapRoundTrips.DrainReads | tap/gsttapfiledec.c:333-349 | draining the encodings of readable pulses after the header outputs their decoded values and keeps the version |
| TapRoundTrips.RoundTrip | tap/gsttapfiledec.c:215-321 | a version 1/2 file written by the writer (any length field, push or pull cursor) is read back as each pulse's decoded value, every remainder being at least 8 |
| OldTapFileEnc.HeaderLayout | src/gsttapfileenc.c:343-362 | the header is "C64-FILE-RAW" whatever the machine, then version, machine, video, 0 and the little-endian length: 20 bytes |
| OldTapFileEnc.PulseRecord | src/gsttapfileenc.c:334-340 | the record of a remainder takes 1 to 4 bytes |
| OldTapFileEnc.PutFlat | src/gsttapfileenc.c:285-302 | putting a record in the 128-byte buffers appends exactly its bytes to the output |
| OldTapFileEnc.PutPulseFlat | src/gsttapfileenc.c:397-413 | putting a pulse appends exactly its bytes |
| OldTapFileEnc.PutPulsesFlat | src/gsttapfileenc.c:397-413 | putting a buffer's pulses appends exactly their bytes in order |
| OldTapFileEnc.PulseBytesV0 | src/gsttapfileenc.c:399-408 | in version 0 a pulse p is p div 0x800 zero bytes, then the byte (p mod 0x800) / 8 unless the remainder is 0 |
| OldTapFileEnc.PulseBytesV12 | src/gsttapfileenc.c:399-410 | in version 1/2 a pulse is the same bytes as the newer writer's unless it is a multiple of 0xFFFFFF, which ends with `00 00 00 00` |
| OldTapFileEnc.PutFits | src/gsttapfileenc.c:291-302 | a record of 1 to 4 bytes keeps every buffer within 128 bytes |
| OldTapFileEnc.PutPulseFits | src/gsttapfileenc.c:397-413 | so does a pulse |
| OldTapFileEnc.PutPulsesFits | src/gsttapfileenc.c:397-413 | so does a buffer of pulses |
| OldTapFileEnc.AsWrittenOverruns | src/gsttapfileenc.c:378 | as written, one version-0 pulse 0x2800 in a 4-byte input overruns the first output buffer (see Findings) |
| OldTapFileEnc.ChainPackingFits | src/gsttapfileenc.c:283-302 | with a 128-byte first buffer every buffer stays within 128 bytes and together they hold the pulses' bytes |
| OldTapFileEnc.OldTapFileEnc.SetCaps | src/gsttapfileenc.c:239-266 | caps are accepted exactly as by the newer writer (rate equal to the clock, `semiwaves` present), and only then set the version |
| OldTapFileEnc.OldTapFileEnc.PushHeader | src/gsttapfileenc.c:343-362 | a header buffer with the given length is pushed |
| OldTapFileEnc.OldTapFileEnc.SinkEventEos | src/gsttapfileenc.c:428-438 | at end of stream the header is pushed again with the accumulated length |
| OldTapFileEnc.OldTapFileEnc.PushBuffer | src/gsttapfileenc.c:297-300 | a data buffer is pushed and the length grows by its size, kept to 32 bits |
| OldTapFileEnc.OldTapFileEnc.PushIfNeeded | src/gsttapfileenc.c:285-304 | when n more bytes would pass 128, the open buffer is pushed and a new one opened; otherwise nothing changes |
| OldTapFileEnc.OldTapFileEnc.AddFourBytes | src/gsttapfileenc.c:306-318 | the buffers after adding four bytes are those of putting the 4-byte record |
| OldTapFileEnc.OldTapFileEnc.AddByte | src/gsttapfileenc.c:320-329 | the buffers after adding a byte are those of putting the 1-byte record |
| OldTapFileEnc.OldTapFileEnc.AddPulse | src/gsttapfileenc.c:334-340 | the buffers after adding a remainder are those of putting its record |
| OldTapFileEnc.OldTapFileEnc.AddPulseRecords | src/gsttapfileenc.c:398-412 | the chunk loop and the remainder put exactly the pulse's records |
| OldTapFileEnc.OldTapFileEnc.Chain | src/gsttapfileenc.c:368-420 | a chain call pushes the header first if it was never sent, then the 128-byte buffers of the pulses' bytes |
| OldTapFileDec.ParseHeader | src/gsttapfiledec.c:216-260 | a header is accepted exactly when it carries "C64-FILE-RAW" or "C16-FILE-RAW", version ≤ 2, machine ≤ 2 and video ≤ 1; rate and wave shape as in the newer reader |
| OldTapFileDec.Scan | src/gsttapfiledec.c:276-299 | a pulse found consumes at least one byte and no more than there are (the values it adds up are stated by the `ZeroByte…` lemmas below and `OldTapRoundTrips.ScanPulse`) |
| OldTapFileDec.ZeroByteContinues | src/gsttapfiledec.c:284-288 | in version 0 a zero byte adds 0x100 and the pulse goes on: `00 b` with b ≠ 0 is one pulse of 0x100 + b, two bytes long |
| OldTapFileDec.ZeroByteOverflowV0 | src/gsttapfiledec.c:284-288 | after a version-0 zero byte the scan goes on at the next byte with 0x100 more |
| OldTapFileDec.ZeroByteFinalRecord | src/gsttapfiledec.c:289-299 | in versions 1 and 2 a zero byte and a 24-bit field x below 0xFFFFFF end the pulse with x / 8, four bytes long |
| OldTapFileDec.ZeroByteOverflowRecord | src/gsttapfiledec.c:289-299 | in versions 1 and 2 the record `00 FF FF FF` adds 0x1FFFFF and the pulse goes on past it |
| OldTapFileDec.DecodeFrom | src/gsttapfiledec.c:276-309 | decoding stops within the bytes at hand |
| OldTapFileDec.ScanExtend | src/gsttapfiledec.c:290-292 | a pulse found stays the same pulse when more bytes arrive |
| OldTapFileDec.DecodeShift | src/gsttapfiledec.c:276-309 | decoding after dropping k bytes is decoding from k, the offsets moved back by k |
| OldTapFileDec.DecodeFromExtend | src/gsttapfiledec.c:290-307 | decoding more bytes is decoding the first ones and going on from where they stopped |
| OldTapFileDec.DecodeAllAppend | src/gsttapfiledec.c:290-307 | decoding a stream is decoding what arrived, then the unconsumed rest with what arrives next |
| OldTapFileDec.DecodeFromLeavesPartial | src/gsttapfiledec.c:276-309 | what decoding leaves unconsumed holds no whole pulse |
| OldTapFileDec.AddPulsesFrom | src/gsttapfiledec.c:164-187 | adding pulses after earlier buffers only appends buffers to them |
| OldTapFileDec.CloseBatches | src/gsttapfiledec.c:164-187 | the pushed buffers and the open one are the batches of the pulses |
| OldTapFileDec.AddPulsesBatched | src/gsttapfiledec.c:164-187 | adding pulses one by one fills buffers of at most 32 pulses in order |
| OldTapFileDec.BatchesShape | src/gsttapfiledec.c:164-187 | the batches hold the pulses in order, each 1 to 32 of them (at most 128 bytes), every one but the last full |
| OldTapFileDec.ChainSplit | src/gsttapfiledec.c:276-309 | decoding a stream over two chain calls gives the pulses of decoding it in one |
| OldTapFileDec.OldTapFileDec.AddPulseToOutbuf | src/gsttapfiledec.c:164-187 | adding a pulse to the output is the batching function's step |
| OldTapFileDec.OldTapFileDec.ReadRecord | src/gsttapfiledec.c:281-299 | one byte (and a 24-bit field in version 1/2) read at the peek offset: short input means no pulse there, an overflow continues the same pulse, a final record ends it where the scan does |
| OldTapFileDec.OldTapFileDec.Emit | src/gsttapfiledec.c:300-308 | a whole pulse is emitted and its bytes flushed, keeping the decoding invariant |
| OldTapFileDec.OldTapFileDec.Step | src/gsttapfiledec.c:276-309 | one turn of the peek loop keeps the decoding invariant and consumes input, or stops at a partial pulse |
| OldTapFileDec.OldTapFileDec.DecodeAvailable | src/gsttapfiledec.c:276-314 | the loop flushes exactly the bytes of the whole pulses and pushes them in batches of 32 |
| OldTapFileDec.OldTapFileDec.Chain | src/gsttapfiledec.c:206-317 | with fewer than 20 bytes nothing happens; a rejected header fails and drops its bytes; otherwise the whole pulses after the header are decoded, pushed in batches and flushed |
| DmpEnc.OverflowFits | src/gstdmpenc.c:306-307 | for 1 to 31 bits a sample takes 1 to 4 bytes and the sentinel 2^bits − 1 fits them and 32 bits |
| DmpEnc.HeaderLayout | src/gstdmpenc.c:310-334 | the header is "DC2N-TAP-RAW", 0, machine, video, bits and the little-endian rate: 20 bytes |
| DmpEnc.WriteHeader | src/gstdmpenc.c:311-327 | filling the header byte by byte gives that layout |
| DmpEnc.FieldsChunks | src/gstdmpenc.c:340-346 | k·overflow + r (r < overflow) is k sentinel fields and a field r |
| DmpEnc.FieldsSum | src/gstdmpenc.c:339-347 | a pulse's fields sum to the pulse, and only the last is below the sentinel |
| DmpEnc.FieldsShape | src/gstdmpenc.c:340-346 | a pulse p is p div overflow sentinel fields and a field p mod overflow |
| DmpEnc.PutFieldFlat | src/gstdmpenc.c:267-295 | putting a field appends exactly its little-endian bytes |
| DmpEnc.PutPulseFlat | src/gstdmpenc.c:340-346 | putting a pulse appends exactly its fields' bytes |
| DmpEnc.PutPulsesFlat | src/gstdmpenc.c:338-349 | putting a buffer's pulses appends exactly their bytes in order |
| DmpEnc.PutFieldFits | src/gstdmpenc.c:287-294 | a buffer is handed on once another field would not fit in 128 bytes, so buffers stay within it |
| DmpEnc.PutPulseFits | src/gstdmpenc.c:340-346 | so do they after a pulse |
| DmpEnc.PutPulsesFits | src/gstdmpenc.c:338-349 | and after a buffer of pulses |
| DmpEnc.FinishFits | src/gstdmpenc.c:350-356 | the buffers pushed hold the bytes, each non-empty and within 128 bytes, every one but the last with no room for another field |
| DmpEnc.ChainBuffersShape | src/gstdmpenc.c:337-356 | a chain call's buffers hold exactly its pulses' bytes, in buffers of at most 128 bytes filled as far as a field allows |
| DmpEnc.RateOf | src/gstdmpenc.c:251-254 | the `gint` rate stored in the 32-bit field: itself when not negative, plus 2^32 otherwise |
| DmpEnc.DmpEnc.SetCaps | src/gstdmpenc.c:232-259 | caps succeed exactly when they carry a rate, which is then stored |
| DmpEnc.DmpEnc.PushBuffer | src/gstdmpenc.c:291 | a data buffer is pushed |
| DmpEnc.DmpEnc.AddPulseToOutbuf | src/gstdmpenc.c:266-296 | writing a field into the array is the packing function's step |
| DmpEnc.DmpEnc.PushLast | src/gstdmpenc.c:350-356 | the last, partly filled buffer is pushed when not empty |
| DmpEnc.DmpEnc.SendHeaderOnce | src/gstdmpenc.c:310-335 | the header is pushed exactly when not sent before, with the caps' rate |
| DmpEnc.DmpEnc.AddPulseFields | src/gstdmpenc.c:339-348 | the overflow loop writes exactly the pulse's fields |
| DmpEnc.DmpEnc.Chain | src/gstdmpenc.c:298-359 | a chain call pushes the header first if never sent, then the 128-byte buffers of its pulses' fields |
| DmpDec.Int32 | tap/gstdmpdec.c:216-217 | the 32-bit rate field as a `gint`: a value in the 32-bit signed range equal to the field modulo 2^32 |
| DmpDec.ParseHeader | tap/gstdmpdec.c:195-217 | a header is accepted exactly when it carries "DC2N-TAP-RAW" and version 0; the rate is the field at offset 16 as a `gint` |
| DmpDec.Scan | tap/gstdmpdec.c:235-260 | a pulse found takes at least one field and no more bytes than there are |
| DmpDec.DecodeFrom | tap/gstdmpdec.c:235-268 | decoding stops within the bytes at hand |
| DmpDec.DecodeLeavesPartial | tap/gstdmpdec.c:235-268 | what decoding leaves unconsumed holds no whole pulse |
| DmpDec.DecodeStep | tap/gstdmpdec.c:260-266 | emitting the pulse found at the flush point keeps the emitted pulses a prefix of the whole decoding |
| DmpDec.DmpDec.AddPulseToOutbuf | tap/gstdmpdec.c:158-181 | adding a pulse to the output is the 32-pulse batching step |
| DmpDec.DmpDec.ReadField | tap/gstdmpdec.c:239-259 | one field read at the peek offset: a sentinel continues the pulse, a smaller field ends it where the scan does, and a larger one is recorded as an error |
| DmpDec.DmpDec.Emit | tap/gstdmpdec.c:260-266 | a whole pulse is emitted and its bytes flushed, keeping the decoding invariant |
| DmpDec.DmpDec.Step | tap/gstdmpdec.c:235-268 | one turn of the field loop keeps the decoding invariant, consumes input and tracks the error flag |
| DmpDec.DmpDec.DecodeAvailable | tap/gstdmpdec.c:235-273 | the loop flushes exactly the bytes of the whole pulses, pushes them in batches of 32, and fails exactly when some field is above the sentinel |
| DmpDec.DmpDec.Chain | tap/gstdmpdec.c:185-276 | with fewer than 20 bytes nothing happens and the sample size and sentinel stay as they were; the header sets sample size and sentinel from its bits; a rejected one fails, whatever its bits up to 31, 0 included; otherwise the pulses after it are decoded, pushed and flushed, failing on a field above the sentinel |
| DmpRoundTrips.FieldsAtBytes | tap/gstdmpdec.c:239-256 | the writer's field bytes are read back field by field |
| DmpRoundTrips.FieldsAtMost | src/gstdmpenc.c:340-346 | no field the writer produces is above the sentinel |
| DmpRoundTrips.ScanPulse | tap/gstdmpdec.c:257-266 | the fields of a pulse scan to the accumulator plus the pulse, ending after them |
| DmpRoundTrips.ScanWhole | tap/gstdmpdec.c:257-266 | the fields of a pulse scan to that pulse |
| DmpRoundTrips.NoneOverPulse | tap/gstdmpdec.c:258-259 | the fields of a pulse raise no error |
| DmpRoundTrips.FirstPulse | tap/gstdmpdec.c:235-266 | the first pulse of the writer's bytes is found and the rest are the bytes of the remaining pulses |
| DmpRoundTrips.DecodePulses | tap/gstdmpdec.c:235-268 | the writer's pulse bytes decode to exactly the pulses, consuming all of them, with no error |
| DmpRoundTrips.Rate | tap/gstdmpdec.c:216-217 | the rate read back is the `gint` rate the writer was given |
| DmpRoundTrips.RoundTrip | tap/gstdmpdec.c:185-268 | a DMP file written by the writer with 1 to 31 bits is accepted, carries the writer's bits and rate, and decodes to exactly its pulses with no error |
| OldTapRoundTrips.ValueV0 | src/gsttapfiledec.c:284-288 | in version 0 the reader's sum for a written pulse p is p / 8: every zero byte stands for 0x800 cycles |
| OldTapRoundTrips.ValueV12 | src/gsttapfiledec.c:289-299 | in versions 1 and 2 the reader's sum is what the newer reader makes of the newer writer's records |
| OldTapRoundTrips.ValueIsDecoded | src/gsttapfiledec.c:276-299 | the reader's sum is the pulse's decoded value in either version |
| OldTapRoundTrips.ScanPulse | src/gsttapfiledec.c:276-299 | the writer's bytes for a readable pulse, followed by anything, scan to that pulse and end just past its bytes |
| OldTapRoundTrips.OverflowSplit | src/gsttapfileenc.c:399-403 | a pulse of at least one overflow is written as one overflow record and then the rest, reads as the overflow value plus the rest, and is readable exactly when the rest is |
| OldTapRoundTrips.ScanOverflowRecord | src/gsttapfiledec.c:284-300 | behind an overflow record (a version-0 zero byte, or a zero byte and the field 0xFFFFFF) the scan goes on with the overflow value added to the sum |
| OldTapRoundTrips.ScanFinalRecord | src/gsttapfileenc.c:405-410 | the last record of a readable pulse (a byte p/8, or a zero byte and p as 24 bits) ends the scan with the pulse's remaining value added |
| OldTapRoundTrips.DecodeFromPulses | src/gsttapfiledec.c:276-309 | where the writer's bytes for readable pulses fill the input from an index to its end, decoding from there gives those pulses one for one and consumes every byte |
| OldTapRoundTrips.DecodePulses | src/gsttapfiledec.c:276-309 | the writer's bytes for readable pulses decode to exactly those pulses, with no byte left in the adapter |
| OldTapRoundTrips.RoundTrip | src/gsttapfiledec.c:206-317 | a file of one writer chain call is accepted for any known version, machine and video, carries the version and rate, and decodes to every pulse with nothing left over |
| TapConvert.Wide | tap/gsttapconvert.c:180 | a `gint` rate promoted for the 64-bit division: itself when positive, sign-extended to 64 bits otherwise |
| TapConvert.Narrow | tap/gsttapconvert.c:221 | a `gint` rate converted to `guint`: the rate modulo 2^32 |
| TapConvert.ScaleMeaning | tap/gsttapconvert.c:178-181 | for positive rates a rescaled pulse is ⌊p·out/in⌋ modulo 2^32 |
| TapConvert.ScaleSameRate | tap/gsttapconvert.c:178-181 | the same rate on both sides leaves a pulse unchanged |
| TapConvert.ScaleAll | tap/gsttapconvert.c:178-181 | in-place mode keeps the length and rescales every element |
| TapConvert.Halves | tap/gsttapconvert.c:209-211 | a wave c splits into halves summing to c, the first the smaller by at most 1 |
| TapConvert.FullToHalfAll | tap/gsttapconvert.c:203-214 | the full-to-half output has twice as many elements as the input |
| TapConvert.FullToHalfAt | tap/gsttapconvert.c:207-213 | input i becomes outputs 2i and 2i + 1, the two halves of its rescaled value |
| TapConvert.FullToHalfPointwise | tap/gsttapconvert.c:207-213 | an output holding those halves at every 2i and 2i + 1 is the full-to-half output |
| TapConvert.PairMeaning | tap/gsttapconvert.c:219-223 | with both products in 64 bits, a joined wave is ⌊(a + b)·out/in⌋ modulo 2^32 |
| TapConvert.PairWrapsSecondProduct | tap/gsttapconvert.c:220-222 | as written, half waves 5000 and 5000 at 985248 Hz on both sides join to 5640 instead of 10000 (see Findings) |
| TapConvert.PairAgrees | tap/gsttapconvert.c:220-222 | while the second half wave times a non-negative output rate is below 2^32, the written join equals the 64-bit one |
| TapConvert.HalfToFullAll | tap/gsttapconvert.c:215-223 | the half-to-full output as written: one element per two inputs, element i the written join of inputs 2i and 2i + 1 |
| TapConvert.HalfToFullIntended | tap/gsttapconvert.c:215-223 | the intended half-to-full output: one element per two inputs, element i the 64-bit join of inputs 2i and 2i + 1 |
| TapConvert.HalfToFullAgrees | tap/gsttapconvert.c:215-223 | the written output equals the intended one whenever every second half wave times the output rate fits in 32 bits |
| TapConvert.JoinHalves | tap/gsttapconvert.c:209-222 | joining the two halves of a wave at an unchanged rate gives the wave back |
| TapConvert.SplitThenJoin | tap/gsttapconvert.c:203-223 | splitting while rescaling and then joining with the intended 64-bit join at an unchanged rate is rescaling in place |
| TapConvert.SplitThenJoinAsWritten | tap/gsttapconvert.c:203-223 | the written join undoes the split too, as long as every larger half times the rate is below 2^32 |
| TapConvert.ModeOf | tap/gsttapconvert.c:261-267 | the mode is unchanged exactly when the flags agree, half-to-full exactly when only the input has half waves, full-to-half exactly when only the output does |
| TapConvert.UnitSize | tap/gsttapconvert.c:276-292 | no size without a `halfwaves` field; otherwise 4 bytes, 8 exactly for half waves in a mode that changes the shape |
| TapConvert.UnitsAreFullWaves | tap/gsttapconvert.c:261-289 | in the mode picked from two flags a unit is one full wave on each side: 8 bytes on the half-wave side, 4 on the other |
| TapConvert.Converter.SetCaps | tap/gsttapconvert.c:234-271 | caps succeed exactly when both rates and both flags are present; a missing rate keeps the old one; the mode and in-place flag follow the flags |
| TapConvert.Converter.TransformIp | tap/gsttapconvert.c:162-184 | the buffer is rewritten in place to every pulse rescaled |
| TapConvert.Converter.Transform | tap/gsttapconvert.c:186-231 | full-to-half writes the split output, half-to-full the output as written (second product wrapped at 32 bits), and unchanged mode writes nothing and fails |
| TapConvert.Converter.SplitInto | tap/gsttapconvert.c:203-214 | the full-to-half loop writes exactly the split output and leaves the rest of the output alone |
| TapConvert.Converter.JoinInto | tap/gsttapconvert.c:215-223 | the half-to-full loop, computing each sum as the C statements do, writes exactly the half-to-full output as written |
| BaseTapContainerDec.Read | tap/gstbasetapcontainerdec.c:145-182 | no bytes exactly when fewer than n remain past the offset; otherwise the n bytes there and the offset moved by n |
| BaseTapContainerDec.Pulses | tap/gstbasetapcontainerdec.c:280 | the chain loop's commit point lies between its start and the end, and moves exactly when a pulse is decoded |
| BaseTapContainerDec.PulsesStop | tap/gstbasetapcontainerdec.c:280 | at the commit point where the loop stops no whole pulse starts |
| BaseTapContainerDec.Written | tap/gstbasetapcontainerdec.c:246 | the writer holds 4 bytes per pulse |
| BaseTapContainerDec.WrittenReadsBack | tap/gstbasetapcontainerdec.c:246 | bytes 4i to 4i + 4 of the writer read back, little-endian, as pulse i |
| BaseTapContainerDec.Duration | tap/gstbasetapcontainerdec.c:248-249 | the accumulated duration fits a 64-bit `GstClockTime` |
| BaseTapContainerDec.DurationIsSum | tap/gstbasetapcontainerdec.c:248-249 | the accumulated duration is the sum of the pulses modulo 2^64 |
| BaseTapContainerDec.Nanoseconds | tap/gstbasetapcontainerdec.c:289-291 | the scaled duration fits 64 bits |
| BaseTapContainerDec.Pull | tap/gstbasetapcontainerdec.c:312-315 | the `get_range` loop pulls at most one pulse per 4 bytes of `length` and leaves the cursor within the file |
| BaseTapContainerDec.PullIsPrefix | tap/gstbasetapcontainerdec.c:312-315 | what `get_range` pulls is the chain loop's pulses from the same offset, cut after `length` / 4 |
| BaseTapContainerDec.DecodedSoFarStep | tap/gstbasetapcontainerdec.c:280 | a pulse read at the cursor moves the loop past it |
| BaseTapContainerDec.DecodedSoFarEnd | tap/gstbasetapcontainerdec.c:280 | a failed read ends the loop with the pulses so far, committed up to the cursor |
| BaseTapContainerDec.PulledSoFarStep | tap/gstbasetapcontainerdec.c:312-315 | a pulse read with room for it moves the cursor and the commit point past it |
| BaseTapContainerDec.PulledSoFarFull | tap/gstbasetapcontainerdec.c:312 | with no room for another pulse the loop ends where it is |
| BaseTapContainerDec.PulledSoFarFail | tap/gstbasetapcontainerdec.c:313-314 | a failed read ends the loop, the cursor where the read left it and the commit point before it |
| BaseTapContainerDec.PulsesResume | tap/gstbasetapcontainerdec.c:280-282 | bytes arriving later do not change the pulses already found: decoding all is decoding the first bytes and going on from their commit point |
| BaseTapContainerDec.PulsesShift | tap/gstbasetapcontainerdec.c:282 | decoding after dropping k committed bytes is decoding from k, the offsets moved back by k |
| BaseTapContainerDec.PulsesSplit | tap/gstbasetapcontainerdec.c:271-282 | since only whole pulses are committed, decoding a stream over two chain calls gives the pulses of decoding it in one |
| BaseTapContainerDec.DecodeStart | tap/gstbasetapcontainerdec.c:273-279 | decoding starts nowhere exactly when the header is still to come and is missing or not valid; after the header when it is read in this call; at 0 otherwise |
| BaseTapContainerDec.BaseTapContainerDec.ChangeState | tap/gstbasetapcontainerdec.c:98-118 | going between READY and PAUSED resets the header status, the timestamp and the adapter; other transitions change nothing |
| BaseTapContainerDec.BaseTapContainerDec.ReadData | tap/gstbasetapcontainerdec.c:145-182 | reading from the adapter or the upstream file is the cursor read on those bytes |
| BaseTapContainerDec.BaseTapContainerDec.ReadHeader | tap/gstbasetapcontainerdec.c:196-231 | false when the header's bytes are missing, with the cursor, `to_flush`, the status and the caps unchanged; otherwise the concrete reader sets status and caps, and a valid header moves `to_flush` past it |
| BaseTapContainerDec.BaseTapContainerDec.GetPulseFromTap | tap/gstbasetapcontainerdec.c:233-251 | a pulse read appends its 4 little-endian bytes to the writer, adds it to the duration modulo 2^64 and moves `to_flush` to the cursor; a failed read changes neither and leaves `to_flush` |
| BaseTapContainerDec.BaseTapContainerDec.DecodeNext | tap/gstbasetapcontainerdec.c:280 | one turn of the chain loop keeps its invariant or ends it with the loop function's result |
| BaseTapContainerDec.BaseTapContainerDec.DecodeAll | tap/gstbasetapcontainerdec.c:280 | the chain loop yields the loop function's pulses, commit point, writer bytes and duration |
| BaseTapContainerDec.BaseTapContainerDec.DecodeAndPush | tap/gstbasetapcontainerdec.c:280-296 | the committed bytes are flushed; with a valid header and some pulses one buffer of their bytes is pushed, stamped with the timestamp and their scaled duration, which the timestamp grows by; an invalid header fails with nothing pushed |
| BaseTapContainerDec.BaseTapContainerDec.TakeBuffer | tap/gstbasetapcontainerdec.c:266-279 | the buffer joins the adapter and the cursor and commit point restart at 0; a header still to come is read from the start when all its bytes are there and sets the status and caps, which stay as they were otherwise; decoding goes on exactly when `DecodeStart` gives a start, from there, with the status then valid or as it was |
| BaseTapContainerDec.BaseTapContainerDec.Chain | tap/gstbasetapcontainerdec.c:257-298 | the status and the caps after the call are those the header read in this call sets, or stay as they were when no header is read; a header still to come that is missing or invalid fails with every byte kept and nothing committed; otherwise the status is valid, or stays as it was, and the pulses from where decoding starts are flushed and pushed as by `DecodeAndPush` |
| BaseTapContainerDec.BaseTapContainerDec.PullPulses | tap/gstbasetapcontainerdec.c:312-315 | the `get_range` loop yields the pull function's writer bytes, cursor and commit point |
| BaseTapContainerDec.BaseTapContainerDec.GetRange | tap/gstbasetapcontainerdec.c:300-321 | the header is read at the cursor only while none has been, and then the status and caps are the header reader's, or stay as they were when its bytes are missing; a header read before keeps the status and caps; with a valid header the pulses, the cursor and the commit point are those of pulling from the cursor (just past a header read in this call); otherwise the result is empty and the commit point unchanged; at most `length` bytes, a multiple of 4; the call succeeds exactly with a valid header |
| BaseTapContainerDec.ShortFirstBufferFails | tap/gstbasetapcontainerdec.c:273-279 | a first buffer of 1 byte gives no start, so the chain call fails, though the same byte and 19 more would give a valid 20-byte header |
| BaseTapContainerDec.IntendedStart | tap/gstbasetapcontainerdec.c:273-279 | the corrected header stage of a chain call: waiting, rejected, or a start that lies within the bytes at hand |
| BaseTapContainerDec.IntendedStartFailsForGood | tap/gstbasetapcontainerdec.c:273-279 | the corrected header stage rejects only for good: once rejected, the header stays rejected whatever bytes follow; it waits only while the header's bytes are missing; and it starts exactly where the code as written starts |

## Left out

- GStreamer plumbing is not modelled: pads, pad activation and the push/pull mode switch, the streaming task, caps queries and `transform_caps`, segment and tag events, GObject properties, plugin registration (`tap/plugin.c`, `src/plugin.c`). Events are parameters of the methods that handle them.
- The result of pushing a buffer downstream is taken as success, except in `BaseTapContainerDec.BaseTapContainerDec.Chain`, where it is a parameter. The early return on a failed push in tap/gsttapfiledec.c:346-347 is not modelled.
- Buffer allocation, mapping and reference counting are not modelled. Buffers are sequences, except the fixed 128-byte output arrays of the two writers and the converter's arrays.
- The elements `tapenc` and `tapdec` (`src/gsttapenc.c` and the tapenc/tapdec directories) are not part of this model: their work is done by tapencoder.h and tapdecoder.h, which are not available.
- The concrete `read_header`, `get_header_size` and `read_pulse` hooks of the base class are parameters (`HeaderReader`, `PulseReader`). The subclasses that supply them are not part of this model. The properties that need more than "the reader moves forward" are stated under `Stable` and `Relative`.
- The host is taken to be little-endian: a `guint32` written into a byte buffer is its little-endian bytes.
- `gst_util_uint64_scale` is integer arithmetic rounded down, saturating at 2^64 − 1; a rate of 0 gives 2^64 − 1.
- The debug `sprintf` loop of the DMP writer's caps handler (src/gstdmpenc.c:241-250) is left out; it does not affect any output.
- DmpEnc.DmpEnc.constructor: `bits_per_sample` must lie in 1..31. For 0 the writer's overflow value is 0 and its field loop (src/gstdmpenc.c:340) never ends, and 32 or more shifts by the full width of an `int` (src/gstdmpenc.c:307).
- DmpDec.DmpDec.Chain: the bits byte of a header the reader accepts must lie in 1..31, and that of a header it rejects must be at most 31. For 0 in an accepted header a field takes 0 bytes and the field loop (tap/gstdmpdec.c:235) never advances; 32 or more shifts by the full width of an `int` (tap/gstdmpdec.c:215) before the header is even checked. A rejected header with 0 bits, such as a TAP file's, is modelled: the call fails.
- TapFileDec.TapFileDec.ReadFromPeer: the model fails a pull that returns fewer bytes than asked for, as the base class does (tap/gstbasetapcontainerdec.c:170-171). The C code of this element would take the short buffer and advance by its size.
- TapFileDec.ReadRecord: a failed 3-byte read in push mode leaves `in_offset` past the zero byte, and overflow records are flushed before the pulse is complete. The model keeps both as written, so a pulse cut between two chain calls can decode differently from the whole. No split lemma is stated for this reader.
- BaseTapContainerDec.BaseTapContainerDec.GetRange: the offset argument of `get_range` is ignored as in the C code, which reads from its own cursor. The model requires the cursor to lie within the upstream file.
- TapConvert.Converter.TransformIp, TapConvert.Converter.Transform, TapConvert.Converter.SplitInto, TapConvert.Converter.JoinInto, TapConvert.ScaleAll, TapConvert.FullToHalfAll, TapConvert.HalfToFullAll: the input rate must not be 0. The converter's caps are bare "audio/x-tap" (tap/gsttapconvert.c:88, 94) and `set_caps` stores any integer rate (tap/gsttapconvert.c:241-245), so a rate of 0 reaches the divisions at tap/gsttapconvert.c:180, 209 and 222, a division by zero. That has no value to model, so the model excludes it.
- OldTapFileEnc.OldTapFileEnc.constructor: the video standard must be 0 or 1. The `videotype` property accepts 0 to 100 (src/gsttapfileenc.c:229), but the clock table has two columns (src/gsttapfileenc.c:123-127), so a larger value reads outside the table at src/gsttapfileenc.c:249 and 277. That read has no defined value, so the model excludes it.
- TapRoundTrips.RoundTrip, TapRoundTrips.DrainReads, TapRoundTrips.PulseLoopReads: stated for pulses whose remainder after the overflow records is at least 8 cycles. For a smaller remainder the writer puts a lone 0x00 byte (`TapFileEnc.SmallRemainderWritesZero`), which the reader takes as the start of a long record, so such a pulse does not come back on its own. The decoded value of a pulse is k·0x1FFFFF + r/8 (`TapRoundTrips.Decoded`), which is up to p/0xFFFFFF below p/8, since an overflow record stands for 0xFFFFFF cycles but reads back as 0xFFFFFF/8.
- OldTapRoundTrips.RoundTrip, OldTapRoundTrips.DecodePulses: stated for pulses whose remainder after the overflow records is at least 8 cycles, or exactly 0 in versions 1 and 2. The writer turns any other remainder into a zero byte, or into nothing (src/gsttapfileenc.c:405-410), and the reader adds that zero byte to the next pulse (src/gsttapfiledec.c:284-299), so such a pulse does not come back on its own.
- TapConvert.Converter.SetCaps: a `halfwaves` flag missing from the caps leaves a C variable uninitialised. The model takes its value as a parameter.
- TapConvert.Converter.Transform: the model takes the output array to be the size the base class gives it (`get_unit_size`); it does not model the base class's size computation.
- The converter's `getrange` workaround for a base-class defect is left out.
- Concurrency of the pull task is not modelled; nothing in these elements depends on it.

## Findings

| source | as written | input that shows it | evidently intended | confidence | as-written member | corrected member |
|---|---|---|---|---|---|---|
| tap/gsttapconvert.c:221 | the second half wave is multiplied by the rate as a 32-bit `guint` product, which wraps before it is added to the 64-bit sum | half waves 5000 and 5000 at 985248 Hz in and out: 5000·985248 wraps to 631272704, and the joined wave is 5640 instead of 10000 | both products taken in 64 bits, so a joined wave is ⌊(a + b)·out/in⌋ | high (not executed) | TapConvert.PairWrapsSecondProduct | TapConvert.SplitThenJoin |
| src/gsttapfileenc.c:378 | the first output buffer is allocated with the size of the input buffer, but it is filled until 128 bytes | one version-0 pulse 0x2800 in a 4-byte input buffer writes 5 zero bytes into a 4-byte output buffer | a first buffer of 128 bytes, as every later one (src/gsttapfileenc.c:292) | high (not executed) | OldTapFileEnc.AsWrittenOverruns | OldTapFileEnc.ChainPackingFits |
| tap/gstbasetapcontainerdec.c:273-279 | in push mode, a header still to come whose bytes are not all in the adapter makes the chain call return `GST_FLOW_ERROR`, though the bytes stay in the adapter and the status stays "no header yet" | a first buffer of 1 byte of a stream whose 20-byte header is valid: the call fails, while the same byte and 19 more would start decoding | return success and wait for more bytes, failing only on a header the reader rejects | medium (not executed) | BaseTapContainerDec.ShortFirstBufferFails | BaseTapContainerDec.IntendedStartFailsForGood |

In the last row, `BaseTapContainerDec.BaseTapContainerDec.Chain` keeps the behaviour as written, since that is what the element does; `BaseTapContainerDec.IntendedStart` is the corrected header stage, and `BaseTapContainerDec.IntendedStartFailsForGood` relates the two.
