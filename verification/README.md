# Keyword-spotting front end: feature window and capture sequencer

This project is a Dafny model of the sequential core of a keyword-spotting
firmware for a microcontroller board. It has three parts.

- **The feature window** (`KWS_MFCC` in `source/kws_mfcc.cpp`).
  - The window is a flat float buffer holding `num_frames` feature vectors of `num_mfcc_features` values each.
  - Each call to `extract_features` is meant to move the surviving history to the front, as the comment at line 74 says; the call as written moves too few bytes (see Findings).
  - It then writes `recording_win` new vectors, one per overlapping audio frame, at the tail.
  - Both constructors and `init_mfcc`, which derives the audio sizes, are modelled.
- **The configuration** (`source/kws_mfcc.h`).
  - This is the frame shift and frame length in samples.
  - They are computed from the sampling rate in IEEE 754 double precision and truncated to `int16_t`; the model carries out that double arithmetic.
  - It also covers the buffer sizes.
- **The capture sequencer** (`source/kws.cpp`).
  - The audio arena is 64 slots of 1024 bytes.
  - It has the receive and transmit callbacks the audio driver invokes, and the slot indices they keep (`indexRx`, `indexTx`, `indexStart`, `dataReady`).
  - It also includes the start-up routine `RecordPlayback`.

Modules:

- `Memory` (memory.dfy). Floats are seen as their four-byte storage image, and `memmove` as a move to the front of a sequence.
- `KwsMfccConfig` (kws_mfcc_config.dfy). The preprocessor constants. The two sample-count macros are evaluated as binary64 products (53-bit significand, round to nearest, ties to even) and truncated to `int16_t`.
- `FeatureWindow` (feature_window.dfy). The index arithmetic of `extract_features`:
  - the flat buffer and its vectors;
  - the first-in first-out step;
  - the loop as the C code runs it;
  - several calls in a row;
  - the `memmove` byte-count defect.
- `KwsMfcc` (kws_mfcc.dfy). The object itself. Every out-of-bounds access `extract_features` could make is reported as a `Fault` in place of undefined behaviour. This module also covers the part of `RunInference` that feeds the window.
- `Capture` (capture.dfy). The callbacks as state transitions on 8-bit indices. A run is a sequence of callbacks. There are two versions of `rx_callback`: the code as written, and one with the ready check moved into the accepted branch.

Two things enter the model from outside:

- The per-frame MFCC transform (`MFCC::mfcc_compute`) is an uninterpreted function value. The model knows only its sizes: `frame_len` samples in, `num_mfcc_features` floats out.
- Whether the audio driver accepts a new receive transfer is an input of each receive callback.

## Model

| member | source | states |
|---|---|---|
| KwsMfccConfig.TruncateToInt16 | source/kws_mfcc.h:27 | The `int16_t` cast of a double truncates toward zero: the result is the integer at or just below a non-negative value (at or just above a negative one) and lies in the int16 range. |
| KwsMfccConfig.Round | source/kws_mfcc.h:27 | Rounding an exact product `n * 2^exp` to a double: a product that fits in 53 bits is kept exactly. A wider product loses its low `Bits(n) - 53` bits: the exponent rises by that much, and the result is within half a unit of its last place of the exact value. |
| KwsMfccConfig.MilliNearest | source/kws_mfcc.h:27 | The literal `0.001` is a normal double (53-bit significand times `2^-62`) within half a unit in the last place of 1/1000. |
| KwsMfccConfig.DoubleProductsExact | source/kws_mfcc.h:27-32 | In double, `SAMP_FREQ * 0.001` is 44.1 + 1/703687441776640. Multiplying by `FRAME_SHIFT_MS` gives exactly 441.0 and by `FRAME_LEN_MS` exactly 1102.5, the exact products over the reals. |
| KwsMfccConfig.MacroSamples | source/kws_mfcc.h:27-32 | `(int16_t)(SAMP_FREQ * 0.001 * ms)` evaluated in double and cast for the two millisecond values is the exact product truncated. |
| KwsMfccConfig.MacroValues | source/kws_mfcc.h:27-32 | The two macros evaluate to the frame shift (441) and frame length (1102) the rest of the model uses. |
| KwsMfccConfig.ConfigurationValues | source/kws_mfcc.h:24-32 | `FRAME_SHIFT` is 441 (from 441.0) and `FRAME_LEN` is 1102 (1102.5 truncated); frames overlap (`FRAME_LEN > FRAME_SHIFT > 0`); `MFCC_BUFFER_SIZE` is 3237; `NUM_FRAMES` is below the range of the 16-bit frame counter. |
| KwsMfcc.InitMfcc | source/kws_mfcc.cpp:54-68 | After init_mfcc the object has the configured sizes and a buffer of `num_frames * num_mfcc_features` floats; `audio_block_size == recording_win * frame_shift` and `audio_buffer_size == (recording_win - 1) * frame_shift + frame_len`; `recording_win` is kept and the audio pointer is null. |
| KwsMfcc.FromWindow | source/kws_mfcc.cpp:33-39 | The `int` constructor accepts any `record_win` and yields a valid object with that window and a null audio pointer. |
| KwsMfcc.FromAudio | source/kws_mfcc.cpp:41-46 | The pointer constructor as written yields `recording_win == NUM_FRAMES` and a NULL audio pointer: the pointer stored first is overwritten by init_mfcc. |
| KwsMfcc.FromAudioLosesSamples | source/kws_mfcc.cpp:41-46 | With the pointer constructor as written, the first extraction reads through the null pointer, whatever samples were passed. |
| KwsMfcc.FromAudioCorrected | source/kws_mfcc.cpp:41-46 | The pointer constructor with the pointer kept: a valid object with `recording_win == NUM_FRAMES` reading from the given samples. |
| KwsMfcc.FromAudioCorrectedExtracts | source/kws_mfcc.cpp:41-46 | With the corrected constructor, the first extraction succeeds exactly when the samples cover `audio_buffer_size`, and the buffer is then the new vectors of those samples, laid out in frame order. |
| KwsMfcc.ExtractFeatures | source/kws_mfcc.cpp:70-84 | Defined behaviour iff `0 <= recording_win <= num_frames` and, when there are frames to compute, the audio pointer is non-null and covers `audio_buffer_size` samples. A negative window makes the move read before the buffer, a window above `num_frames` makes the first write land before it, and a null pointer is read through. On success only the feature buffer changes: its vectors are the old ones from index `recording_win` on, followed by the new ones. |
| KwsMfcc.AudioSpan | source/kws_mfcc.cpp:66-67 | The last frame read starts at `(recording_win - 1) * frame_shift` and ends exactly at `audio_buffer_size`; every frame lies in the audio iff `recording_win == 0` or the audio holds `audio_buffer_size` samples. |
| KwsMfcc.RunExtraction | source/kws.cpp:343-344 | Pointing the object at a clip and extracting succeeds iff the window is in range and the clip is long enough, and leaves a valid object pointing at that clip. |
| KwsMfcc.CopyInput | source/kws.cpp:349-356 | The copy into the input tensor reads `input_bytes / 4` floats (C division); it stays in the feature buffer iff `input_bytes < 4 * |buffer| + 4`, and then copies exactly a prefix of the buffer. |
| KwsMfcc.RunClips | source/kws.cpp:338-344 | A series of RunExtraction calls (the pointer update and extraction of RunInference, without the copy into the input tensor) that ends without a fault leaves a valid object with the same `recording_win`. |
| KwsMfcc.RunClipsStream | source/kws.cpp:338-344 | With the window in range and every clip long enough, every call in a series succeeds, and the feature buffer is that of FeatureWindow.Stream: the whole stream processed call by call. |
| KwsMfcc.StaticClipsIndependent | source/kws.cpp:403-404 | In the configuration main uses (`recording_win == NUM_FRAMES`), one call succeeds iff the clip covers `audio_buffer_size`, and the buffer then depends on that clip alone. |
| KwsMfcc.InitFitsInt32Range | source/kws_mfcc.cpp:66-67 | The `int` arithmetic of init_mfcc stays within 32 bits exactly for `record_win` in [-4869577, 4869574]. |
| FeatureWindow.Layout.Head | source/kws_mfcc.cpp:78 | The write head starts where `recording_win` vectors of the buffer remain: `head + recording_win * k == num_frames * k`. |
| FeatureWindow.NewFeaturesRows | source/kws_mfcc.cpp:79-83 | One call computes `recording_win` vectors, each of `num_mfcc_features` floats. |
| FeatureWindow.VectorsOfFlatten | source/kws_mfcc.cpp:78-83 | Writing vectors one after another into a flat buffer and cutting it back into vectors gives the same vectors. |
| FeatureWindow.FlattenOfVectors | source/kws_mfcc.cpp:65 | Cutting a flat buffer into vectors and writing them back one after another gives the same buffer. |
| FeatureWindow.VectorsAppend | source/kws_mfcc.cpp:78-83 | The vectors of two flat buffers laid end to end are the vectors of the first followed by those of the second. |
| FeatureWindow.VectorsSuffix | source/kws_mfcc.cpp:75 | Dropping the first d vectors' floats of a flat buffer drops the first d vectors. |
| FeatureWindow.Frame | source/kws_mfcc.cpp:81 | Frame f is `frame_len` samples; it is the slice starting at `f * frame_shift`, which the `Covers` precondition keeps inside the audio. What it feeds is stated by FeatureWindow.ExtractFillsSlot. |
| FeatureWindow.NewFeatures | source/kws_mfcc.cpp:79-83 | Its contract gives one vector per frame (`recording_win` of them). Its behaviour is stated by FeatureWindow.NewFeaturesRows (`recording_win` vectors of `num_mfcc_features` floats) and FeatureWindow.ExtractFillsSlot (vector f is the transform of frame f). |
| FeatureWindow.ShiftHistory | source/kws_mfcc.cpp:72-76 | The intended move: the floats from `recording_win * num_mfcc_features` on land at the front, and the tail from the head on is untouched. The move is the identity when `recording_win == num_frames`. The divergence from the call as written is stated by FeatureWindow.ShiftAsWrittenDiverges. |
| FeatureWindow.ShiftAsWritten | source/kws_mfcc.cpp:75 | The call as written, on bytes: only `head` bytes move, from byte `4 * recording_win * num_mfcc_features`, and every byte from `head` on keeps its value. |
| FeatureWindow.ExtractBuffer | source/kws_mfcc.cpp:72-83 | Its contract is only the length. Its behaviour is stated by FeatureWindow.ExtractSlides, FeatureWindow.ExtractVectors, FeatureWindow.ExtractKeepsSlot and FeatureWindow.ExtractFillsSlot, and FeatureWindow.ExtractLoop shows the C loop computes it (intended move; see FeatureWindow.ShiftHistory). |
| FeatureWindow.ExtractSlides | source/kws_mfcc.cpp:72-83 | One call leaves the floats from `recording_win * k` on, followed by the new vectors: first in, first out. (intended move; see FeatureWindow.ShiftHistory) |
| FeatureWindow.ExtractVectors | source/kws_mfcc.cpp:72-83 | In vectors: the window after a call is the old window minus its oldest `recording_win` vectors, followed by the new vectors in frame order. (intended move; see FeatureWindow.ShiftHistory) |
| FeatureWindow.ExtractKeepsSlot | source/kws_mfcc.cpp:74-76 | Vector j below `num_frames - recording_win` after a call is old vector `recording_win + j`. (intended move; see FeatureWindow.ShiftHistory) |
| FeatureWindow.ExtractFillsSlot | source/kws_mfcc.cpp:79-83 | Vector `num_frames - recording_win + f` after a call is the transform of frame f of the new audio. |
| FeatureWindow.FreshWindow | source/kws_mfcc.cpp:72-78 | With `recording_win == num_frames` nothing moves, the head starts at 0, and the buffer is recomputed from the new audio alone. |
| FeatureWindow.ExtractLoop | source/kws_mfcc.cpp:70-84 | The loop with its 16-bit counter and its write head produces exactly the first-in first-out step and never writes below the initial head. (intended move; see FeatureWindow.ShiftHistory) |
| FeatureWindow.StreamWindow | source/kws_mfcc.cpp:74-83 | After any number of calls the window is the last `num_frames` vectors of (initial window ++ every computed vector in arrival order). The most recent call's vectors come last, preceded by the call before. (intended move; see FeatureWindow.ShiftHistory) |
| FeatureWindow.WarmWindow | source/kws_mfcc.cpp:74-83 | Once the calls have computed at least `num_frames` vectors, the window is the last `num_frames` of them and no longer depends on the initial buffer contents. (intended move; see FeatureWindow.ShiftHistory) |
| FeatureWindow.ShiftHistoryImage | source/kws_mfcc.cpp:74-75 | The intended move of the history, seen on bytes, moves four times the element count the call passes. |
| FeatureWindow.ShiftAsWrittenDiverges | source/kws_mfcc.cpp:75 | Whenever there is history to move, some buffer comes out of the call as written different from the intended move. |
| FeatureWindow.StreamingShiftCount | source/kws_mfcc.cpp:75 | In the configured window (`NUM_FRAMES` vectors of `NUM_MFCC_COEFFS` floats) with 50 new vectors per call, the call moves 2587 bytes, not a multiple of 4, where 10348 are due. |
| Memory.MoveToFront | source/kws_mfcc.cpp:75 | memmove to the start: the n elements at `src` land at the front and everything from n on is untouched. |
| Memory.MoveImage | source/kws_mfcc.cpp:75 | Moving n floats is moving `4 * n` bytes of their storage image. |
| Capture.ArenaSizes | source/kws.cpp:83-88 | `AUDIO_NUM == 32`, `BUFFER_NUMBER == 64`, `BUFFER_TOTAL_SIZE == 65536`. |
| Capture.SlotTransfer | source/kws.cpp:191-192 | A transfer of slot i is `BUFFER_SIZE` bytes long and, for `i < BUFFER_NUMBER`, lies inside the arena. Its use is stated by Capture.RxCallback, Capture.TxCallback and Capture.StepKeepsInvariant. |
| Capture.Inc8 | source/kws.cpp:196 | The `uint8_t` increment is `(x + 1) mod 256`. |
| Capture.BlockStart | source/kws.cpp:201 | `indexRx - AUDIO_NUM` stored into a `uint8_t` is the difference mod 256. |
| Capture.RxCallback | source/kws.cpp:182-210 | A receive error changes nothing. Otherwise the next receive addresses slot `indexRx` (1024 bytes), the transmit transfer is untouched, and `dataReady` is never cleared. |
| Capture.RxCallbackCorrected | source/kws.cpp:193-203 | The ready check inside the accepted branch: a failed or refused arm changes neither `indexStart` nor `dataReady`, and otherwise only those two fields may differ from the code as written. An accepted arm is exactly the code as written. |
| Capture.TxCallback | source/kws.cpp:220-237 | A transmit error changes nothing; otherwise the transmit transfer becomes slot `indexTx`, whatever the driver answers; with `indexTx` below 64 it stays inside the arena. |
| Capture.RecordPlayback | source/kws.cpp:244-256 | Start-up zeroes all 65536 bytes of the arena and hands slot 0, inside the arena, to both directions. |
| Capture.StepKeepsInvariant | source/kws.cpp:191-208 | Every callback keeps both indices below 64, `indexStart` in {0, 32, 224} and both transfers inside the arena. An accepted arm makes the old `indexRx` the new `indexTx` and advances `indexRx` mod 64; anything else leaves both alone. |
| Capture.RxMovesIndices | source/kws.cpp:193-197 | For rx_callback alone: an accepted arm moves `indexTx` to the old `indexRx` and `indexRx` on by one mod 64; a refused arm or an error leaves both. |
| Capture.RunKeepsInvariant | source/kws.cpp:119 | The invariant holds after any sequence of callbacks. |
| Capture.RunCountsArms | source/kws.cpp:119 | From start-up, `indexRx` is the number of accepted arms mod 64 and `indexTx` the slot of the last accepted arm. |
| Capture.ArmAnnouncesBlock | source/kws.cpp:199-203 | An accepted arm that brings `indexRx` to 32 or 64 sets `indexStart` to 0 or 32, raises `dataReady`, and wraps 64 to 0. The announced block is inside the arena. Its last slot is the slot just armed, which becomes `indexTx` and whose receive is still in flight (`xferRx` addresses it). |
| Capture.CorrectedArm | source/kws.cpp:193-203 | One accepted arm of the corrected callback moves `indexRx` on mod 64; it announces the half [32, 64) or [0, 32) exactly when `indexRx` was 63 or 31, and otherwise leaves `indexStart` and `dataReady` alone. |
| Capture.ReadyStaysRaised | source/kws.cpp:113 | Once raised, `dataReady` stays raised through any sequence of callbacks. |
| Capture.RejectedArmAtZero | source/kws.cpp:199-202 | As written, a refused arm at `indexRx == 0` sets `indexStart` to 224 and raises `dataReady`, announcing a block past the end of the arena; it happens on a first callback from start-up with no arm accepted. |
| Capture.CorrectedReadyBlock | source/kws.cpp:199-203 | With the corrected callback, `dataReady` is raised iff at least 32 arms were accepted. The announced block is then the most recently completed half, lies inside the arena, and does not contain `indexRx`, the next slot to be armed. At the announcing arm itself, the announced half still holds the slot whose receive was just queued (Capture.ArmAnnouncesBlock). |

## Left out

- The internals of `MFCC::mfcc_compute` (windowing, FFT, mel filterbank, logarithm, DCT) are not modelled. They are floating-point code in `mfcc.h`, which is not part of this model. The transform is a function parameter constrained only by its sizes.
- The audio driver calls (`SAI_TransferReceiveNonBlocking`, `SAI_TransferSendNonBlocking`, the software resets, `memset`) are replaced by their outcomes. For a receive that is an accepted/refused input. A send's answer is ignored by the code, and `memset` is the zeroed arena.
- Board, clock and codec bring-up and the `BOARD_*` calls of `main` are left out: hardware registers.
- Interleaving of the interrupt callbacks with the main program on `dataReady` and the arena is left out. Each callback is one atomic step.
- TensorFlow Lite inference is left out: `InferenceInit`, `Invoke`, `GetTopN` and the float score threshold of `RunInference` are foreign code and float scoring. Only the extraction and the copy into the input tensor are modelled.
- Console logging (`LOG(INFO)` at source/kws_mfcc.cpp:36 and source/kws.cpp:186, 233) is left out: it is output only and changes no state.
- The destructor is left out. It frees memory with `delete` where `delete[]` is due, which is an allocator issue outside a value model.
- The double model covers only what the two macros need: positive normal values and multiplication by a small integer. Overflow, subnormals, negative values and other operations are not modelled.
- KwsMfcc.InitMfcc: computes `audio_block_size` and `audio_buffer_size` with unbounded integers; KwsMfcc.InitFitsInt32Range gives the exact range of `record_win` for which this agrees with 32-bit `int`.
- KwsMfcc.ExtractFeatures: uses the intended element-wise move of the history (FeatureWindow.ShiftHistory), not the byte count the code passes to memmove; see Findings.
- The audio block handed from the capture arena to the extractor is not modelled, because the code never connects them: `main` runs the extractor only on static clips and never calls `RecordPlayback`. Any pipeline controller or backpressure between capture and inference is absent from the code and therefore from the model.
- The audio sample format (16-bit slots in the arena vs. floats in the extractor) is not related. No code converts one to the other.

## Findings

| source | as written | input that shows it | evidently intended | confidence | as-written member | corrected member |
|---|---|---|---|---|---|---|
| source/kws_mfcc.cpp:75 | `memmove` is given `(num_frames - recording_win) * num_mfcc_features`, a float count, as its byte count | `recording_win = 50`: 2587 bytes move where the 10348 bytes of 199 vectors are due; the last byte of the history region keeps its old value | move `(num_frames - recording_win) * num_mfcc_features * sizeof(float)` bytes, as the comment at line 74 says | high; not executed | FeatureWindow.ShiftAsWrittenDiverges | FeatureWindow.ShiftHistoryImage |
| source/kws.cpp:199-202 | the ready check runs even when the driver refused the new receive | a first receive callback whose arm is refused, with `indexRx == 0`: `indexStart` becomes `(uint8_t)(0 - 32) == 224` and `dataReady` is raised | announce a half-arena only when an accepted arm completes it | medium; not executed | Capture.RejectedArmAtZero | Capture.CorrectedReadyBlock |
| source/kws_mfcc.cpp:44, 61 | the pointer constructor stores `audio_data_buffer` and then calls `init_mfcc`, which sets `audio_buffer = 0` | any samples passed to `KWS_MFCC(float*)`: the first `extract_features` reads through the null pointer | keep the pointer the caller passed | high; not executed | KwsMfcc.FromAudioLosesSamples | KwsMfcc.FromAudioCorrectedExtracts |
