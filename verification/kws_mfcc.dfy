/** The `KWS_MFCC` object: its fields, the two constructors, `init_mfcc`,
    and `extract_features` with every out-of-bounds access the C code could
    make reported as a fault instead of undefined behaviour. The feature
    buffer arithmetic itself lives in FeatureWindow. */
module KwsMfcc {
  import opened Memory
  import opened FeatureWindow
  import opened KwsMfccConfig

  /** The `float* audio_buffer` field: the null pointer, or the samples it
      points at (as many as may be read from it). */
  datatype AudioPtr = Null | Samples(data: seq<Float32>)

  /** The samples behind a pointer; none behind the null pointer. */
  function Audio(p: AudioPtr): seq<Float32> {
    if p.Samples? then p.data else []
  }

  /** The fields of a `KWS_MFCC` object. The `MFCC* mfcc` member is the
      transform passed to ExtractFeatures. */
  datatype Extractor = Extractor(
    audioBuffer: AudioPtr,
    mfccBuffer: seq<Float32>,
    numFrames: int,
    numMfccFeatures: int,
    frameLen: int,
    frameShift: int,
    audioBlockSize: int,
    audioBufferSize: int,
    mfccBufferSize: int,
    recordingWin: int)

  /** Why a call to extract_features would leave defined behaviour. */
  datatype Fault =
    | ShiftOutOfRange   // memmove source starts before the feature buffer
    | WriteOutOfRange   // the fill loop writes before the feature buffer
    | NullAudio         // mfcc_compute reads through the null audio pointer
    | AudioOverread     // mfcc_compute reads past the end of the audio samples
    | InputOverread     // the copy into the input tensor reads past the feature buffer

  datatype Result<T> = Ok(value: T) | Err(fault: Fault)

  /** What init_mfcc establishes and every later call keeps: the fixed
      configuration, the derived audio sizes, and a feature buffer of
      numFrames * numMfccFeatures floats. recordingWin is unconstrained: the
      int constructor accepts any value. */
  predicate Valid(e: Extractor) {
    && e.numFrames == NumFrames
    && e.numMfccFeatures == NumMfccCoeffs
    && e.frameLen == FrameLen
    && e.frameShift == FrameShift
    && e.audioBlockSize == e.recordingWin * e.frameShift
    && e.audioBufferSize == e.audioBlockSize + e.frameLen - e.frameShift
    && e.mfccBufferSize == 0
    && |e.mfccBuffer| == e.numFrames * e.numMfccFeatures
  }

  /** The sizes of a valid object in the terms of FeatureWindow. */
  function Geometry(e: Extractor): (L: Layout)
    requires Valid(e) && 0 <= e.recordingWin
    ensures L.recordingWin == e.recordingWin && L.numFrames == e.numFrames
    ensures L.numFeatures == e.numMfccFeatures && |e.mfccBuffer| == L.BufferLen()
    ensures L.frameShift == e.frameShift && L.frameLen == e.frameLen
  {
    Layout(NumFrames, e.recordingWin, NumMfccCoeffs, FrameShift, FrameLen)
  }

  /** init_mfcc on an object whose constructor has set recordingWin (and
      possibly audioBuffer); `alloc` is the new[] feature buffer, whose
      contents are indeterminate. Every field is overwritten except
      recordingWin, including the audio pointer, which becomes null. */
  function InitMfcc(before: Extractor, alloc: seq<Float32>): (e: Extractor)
    requires |alloc| == MfccBufferSize
    ensures Valid(e)
    ensures e.recordingWin == before.recordingWin && e.mfccBuffer == alloc
    ensures e.audioBuffer == Null
    ensures e.audioBlockSize == before.recordingWin * FrameShift
    ensures e.audioBufferSize == (before.recordingWin - 1) * FrameShift + FrameLen
  {
    ConfigurationValues();
    var blockSize := before.recordingWin * FrameShift;
    Extractor(
      audioBuffer := Null,
      mfccBuffer := alloc,
      numFrames := NumFrames,
      numMfccFeatures := NumMfccCoeffs,
      frameLen := FrameLen,
      frameShift := FrameShift,
      audioBlockSize := blockSize,
      audioBufferSize := blockSize + FrameLen - FrameShift,
      mfccBufferSize := 0,
      recordingWin := before.recordingWin)
  }

  /** `KWS_MFCC(int record_win)`; `before` is the object's memory before
      the constructor runs. */
  function FromWindow(recordWin: int, before: Extractor, alloc: seq<Float32>): (e: Extractor)
    requires |alloc| == MfccBufferSize
    ensures Valid(e) && e.recordingWin == recordWin && e.audioBuffer == Null
  {
    InitMfcc(before.(recordingWin := recordWin), alloc)
  }

  /** `KWS_MFCC(float* audio_data_buffer)` as written: the pointer stored
      before init_mfcc is overwritten by it, so the object ends up with a
      null audio pointer and `data` is lost. */
  function FromAudio(data: seq<Float32>, before: Extractor, alloc: seq<Float32>): (e: Extractor)
    requires |alloc| == MfccBufferSize
    ensures Valid(e) && e.recordingWin == NumFrames && e.audioBuffer == Null
  {
    InitMfcc(before.(recordingWin := NumFrames, audioBuffer := Samples(data)), alloc)
  }

  /** The batch constructor as evidently intended: the object reads its
      audio from `data`. */
  function FromAudioCorrected(data: seq<Float32>, before: Extractor, alloc: seq<Float32>): (e: Extractor)
    requires |alloc| == MfccBufferSize
    ensures Valid(e) && e.recordingWin == NumFrames && e.audioBuffer == Samples(data)
  {
    InitMfcc(before.(recordingWin := NumFrames), alloc).(audioBuffer := Samples(data))
  }

  /** With the constructor as written, the first extract_features call
      reads through the null pointer, whatever samples were passed in. */
  lemma FromAudioLosesSamples(data: seq<Float32>, before: Extractor, alloc: seq<Float32>, compute: Transform)
    requires |alloc| == MfccBufferSize && FrameTransform(compute, FrameLen, NumMfccCoeffs)
    ensures ExtractFeatures(FromAudio(data, before, alloc), compute) == Err(NullAudio)
  {
  }

  /** With the corrected constructor, the first call succeeds exactly when
      `data` holds audioBufferSize samples and computes the window from it. */
  lemma FromAudioCorrectedExtracts(data: seq<Float32>, before: Extractor, alloc: seq<Float32>, compute: Transform)
    requires |alloc| == MfccBufferSize && FrameTransform(compute, FrameLen, NumMfccCoeffs)
    ensures var e := FromAudioCorrected(data, before, alloc);
            && (ExtractFeatures(e, compute).Ok? <==> |data| >= e.audioBufferSize)
            && (ExtractFeatures(e, compute).Ok? ==>
                  ExtractFeatures(e, compute).value.mfccBuffer == Flatten(NewFeatures(data, compute, Geometry(e))))
  {
    var e := FromAudioCorrected(data, before, alloc);
    if |data| >= e.audioBufferSize {
      AudioSpan(e, data);
      FreshWindow(e.mfccBuffer, data, compute, Geometry(e));
    }
  }

  /** extract_features. Faults, in the order the code would reach them:
      a negative recordingWin makes the memmove read before the buffer; one
      above numFrames makes the first write land before it; otherwise each
      of the recordingWin frames reads frameLen samples at f * frameShift
      through the audio pointer. The move is the element-wise move of
      FeatureWindow.ShiftHistory, not the byte count the code passes. */
  function ExtractFeatures(e: Extractor, compute: Transform): (r: Result<Extractor>)
    requires Valid(e) && FrameTransform(compute, FrameLen, NumMfccCoeffs)
    ensures r.Ok? <==>
              && 0 <= e.recordingWin <= e.numFrames
              && (e.recordingWin == 0
                  || (e.audioBuffer.Samples? && |e.audioBuffer.data| >= e.audioBufferSize))
    ensures e.recordingWin < 0 ==> r == Err(ShiftOutOfRange)
    ensures e.recordingWin > e.numFrames ==> r == Err(WriteOutOfRange)
    ensures 0 < e.recordingWin <= e.numFrames && e.audioBuffer.Null? ==> r == Err(NullAudio)
    ensures r.Ok? ==> Valid(r.value) && r.value.(mfccBuffer := e.mfccBuffer) == e
    ensures r.Ok? ==>
              Window(r.value.mfccBuffer, Geometry(e))
              == Window(e.mfccBuffer, Geometry(e))[e.recordingWin..]
                 + NewFeatures(Audio(e.audioBuffer), compute, Geometry(e))
  {
    if e.recordingWin < 0 then Err(ShiftOutOfRange)
    else if e.recordingWin > e.numFrames then Err(WriteOutOfRange)
    else if e.recordingWin > 0 && e.audioBuffer.Null? then Err(NullAudio)
    else
      var L := Geometry(e);
      var audio := Audio(e.audioBuffer);
      AudioSpan(e, audio);
      if !Covers(audio, L) then Err(AudioOverread)
      else
        ExtractVectors(e.mfccBuffer, audio, compute, L);
        Ok(e.(mfccBuffer := ExtractBuffer(e.mfccBuffer, audio, compute, L)))
  }

  /** The audio one call reads ends exactly at audioBufferSize: frame
      recordingWin - 1 starts at (recordingWin - 1) * frameShift and is
      frameLen samples long. */
  lemma AudioSpan(e: Extractor, audio: seq<Float32>)
    requires Valid(e) && 0 <= e.recordingWin
    ensures 0 < e.recordingWin ==> (e.recordingWin - 1) * e.frameShift + e.frameLen == e.audioBufferSize
    ensures Covers(audio, Geometry(e)) <==> e.recordingWin == 0 || |audio| >= e.audioBufferSize
  {
    ConfigurationValues();
  }

  /** `RunInference` up to the copy into the input tensor: point the object
      at `buf` and extract. */
  function RunExtraction(e: Extractor, buf: seq<Float32>, compute: Transform): (r: Result<Extractor>)
    requires Valid(e) && FrameTransform(compute, FrameLen, NumMfccCoeffs)
    ensures r.Ok? <==>
              0 <= e.recordingWin <= e.numFrames && (e.recordingWin == 0 || |buf| >= e.audioBufferSize)
    ensures r.Ok? ==> r.value.audioBuffer == Samples(buf) && r.value.recordingWin == e.recordingWin
    ensures r.Ok? ==> Valid(r.value)
  {
    ExtractFeatures(e.(audioBuffer := Samples(buf)), compute)
  }

  /** The copy loop of RunInference: `input_bytes / 4` floats (C division,
      truncating toward zero) are read from the feature buffer, none when
      that count is not positive. */
  function CopyInput(features: seq<Float32>, inputBytes: int): (r: Result<seq<Float32>>)
    ensures r.Ok? <==> inputBytes < 4 * |features| + 4
    ensures r.Ok? ==> 4 * |r.value| <= if inputBytes < 0 then 0 else inputBytes
    ensures r.Ok? ==> 4 * |r.value| + 4 > inputBytes
    ensures r.Ok? ==> forall i :: 0 <= i < |r.value| ==> r.value[i] == features[i]
  {
    var count := if inputBytes >= 0 then inputBytes / 4 else -((-inputBytes) / 4);
    if count <= 0 then Ok([])
    else if count > |features| then Err(InputOverread)
    else Ok(features[..count])
  }

  /** A sequence of RunExtraction calls, one clip each; the first fault ends it. */
  function RunClips(e: Extractor, clips: seq<seq<Float32>>, compute: Transform): (r: Result<Extractor>)
    requires Valid(e) && FrameTransform(compute, FrameLen, NumMfccCoeffs)
    ensures r.Ok? ==> Valid(r.value) && r.value.recordingWin == e.recordingWin
    decreases |clips|
  {
    if |clips| == 0 then Ok(e)
    else
      var prev := RunClips(e, clips[..|clips| - 1], compute);
      if prev.Err? then prev
      else RunExtraction(prev.value, clips[|clips| - 1], compute)
  }

  /** With a recordingWin inside the window and clips long enough, every
      call succeeds and the feature buffer follows FeatureWindow.Stream:
      the object computes the sliding window of the whole audio stream. */
  lemma {:induction false} RunClipsStream(e: Extractor, clips: seq<seq<Float32>>, compute: Transform)
    requires Valid(e) && FrameTransform(compute, FrameLen, NumMfccCoeffs)
    requires 0 <= e.recordingWin <= e.numFrames
    requires forall i :: 0 <= i < |clips| ==> |clips[i]| >= e.audioBufferSize
    ensures forall i :: 0 <= i < |clips| ==> Covers(clips[i], Geometry(e))
    ensures RunClips(e, clips, compute).Ok?
    ensures RunClips(e, clips, compute).value.mfccBuffer
         == Stream(e.mfccBuffer, clips, compute, Geometry(e))
    decreases |clips|
  {
    forall i | 0 <= i < |clips|
      ensures Covers(clips[i], Geometry(e))
    {
      AudioSpan(e, clips[i]);
    }
    if |clips| > 0 {
      var prev := clips[..|clips| - 1];
      RunClipsStream(e, prev, compute);
      var e1 := RunClips(e, prev, compute).value;
      assert Geometry(e1) == Geometry(e);
      AudioSpan(e1, clips[|clips| - 1]);
    }
  }

  /** The configuration main uses (recordingWin == NUM_FRAMES): each static
      clip is analysed on its own. The call succeeds exactly when the clip
      holds audioBufferSize samples, and the feature buffer then depends on
      that clip only, not on what an earlier call left behind. */
  lemma StaticClipsIndependent(e: Extractor, buf: seq<Float32>, compute: Transform)
    requires Valid(e) && FrameTransform(compute, FrameLen, NumMfccCoeffs)
    requires e.recordingWin == NumFrames
    ensures RunExtraction(e, buf, compute).Ok? <==> |buf| >= e.audioBufferSize
    ensures RunExtraction(e, buf, compute).Ok? ==>
              RunExtraction(e, buf, compute).value.mfccBuffer
              == Flatten(NewFeatures(buf, compute, Geometry(e)))
  {
    if |buf| >= e.audioBufferSize {
      AudioSpan(e, buf);
      FreshWindow(e.mfccBuffer, buf, compute, Geometry(e));
    }
  }

  /** The fields init_mfcc computes in `int` arithmetic stay within 32 bits
      exactly for record_win in [-4869577, 4869574]: recordingWin *
      frameShift and then + frameLen and - frameShift, left to right. */
  predicate InitFitsInt32(recordWin: int) {
    var block := recordWin * FrameShift;
    InInt32(block) && InInt32(block + FrameLen) && InInt32(block + FrameLen - FrameShift)
  }

  predicate InInt32(x: int) {
    -0x8000_0000 <= x < 0x8000_0000
  }

  lemma InitFitsInt32Range(recordWin: int)
    ensures InitFitsInt32(recordWin) <==> -4869577 <= recordWin <= 4869574
  {
    ConfigurationValues();
  }
}
