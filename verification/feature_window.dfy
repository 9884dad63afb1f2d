/** Index arithmetic of `KWS_MFCC::extract_features`: the rolling feature
    buffer of numFrames vectors of numFeatures floats each, stored flat, the
    move of the surviving history to the front, and the fill of the tail with
    one new vector per frame of the new audio.

    The per-frame transform `MFCC::mfcc_compute` is floating-point code that
    is not part of this model; it enters as an uninterpreted function value. */
module FeatureWindow {
  import opened Memory
  import KwsMfccConfig

  /** `MFCC::mfcc_compute`: from one frame of samples to one feature vector. */
  type Transform = seq<Float32> -> seq<Float32>

  /** mfcc_compute reads frameLen samples and writes numFeatures floats. */
  ghost predicate FrameTransform(compute: Transform, frameLen: nat, numFeatures: nat)
  {
    forall frame: seq<Float32> :: |frame| == frameLen ==> |compute(frame)| == numFeatures
  }

  /** The sizes extract_features works with. */
  datatype Layout = Layout(
    numFrames: nat,     // vectors in the rolling window
    recordingWin: nat,  // vectors newly computed per call
    numFeatures: nat,   // floats per vector
    frameShift: nat,    // samples between frame starts
    frameLen: nat)      // samples per frame
  {
    /** The new vectors fit in the window: nothing is written outside it. */
    predicate Valid() {
      recordingWin <= numFrames
    }

    /** Floats in the feature buffer. */
    function BufferLen(): nat {
      numFrames * numFeatures
    }

    /** First float written by the fill loop (`mfcc_buffer_head` before it). */
    function Head(): (h: nat)
      requires Valid()
      ensures h + recordingWin * numFeatures == BufferLen()
    {
      MulAdd(numFrames - recordingWin, recordingWin, numFeatures);
      (numFrames - recordingWin) * numFeatures
    }
  }

  /** a <= b scales to a * k <= b * k. */
  lemma MulLe(a: nat, b: nat, k: nat)
    requires a <= b
    ensures a * k <= b * k
  {
  }

  /** Multiplication distributes over a sum. */
  lemma MulAdd(a: nat, b: nat, k: nat)
    ensures (a + b) * k == a * k + b * k
  {
  }

  /** Vector j of n vectors of k elements ends inside the buffer. */
  lemma SlotBounds(j: nat, n: nat, k: nat)
    requires j < n
    ensures j * k + k <= n * k
  {
    MulAdd(j, 1, k);
    MulLe(j + 1, n, k);
  }

  /** The audio holds every frame one call reads: frame f is the samples
      [f * frameShift, f * frameShift + frameLen) for f < recordingWin. */
  predicate Covers(audio: seq<Float32>, L: Layout) {
    L.recordingWin == 0 || (L.recordingWin - 1) * L.frameShift + L.frameLen <= |audio|
  }

  /** Frame f of the new audio: the samples [f * frameShift, f * frameShift
      + frameLen). */
  function Frame(audio: seq<Float32>, L: Layout, f: nat): (r: seq<Float32>)
    requires Covers(audio, L) && f < L.recordingWin
    ensures |r| == L.frameLen
  {
    MulLe(f, L.recordingWin - 1, L.frameShift);
    audio[f * L.frameShift .. f * L.frameShift + L.frameLen]
  }

  /** The recordingWin vectors one call computes, in frame order. */
  function NewFeatures(audio: seq<Float32>, compute: Transform, L: Layout): (r: seq<seq<Float32>>)
    requires Covers(audio, L)
    ensures |r| == L.recordingWin
  {
    seq(L.recordingWin, f requires 0 <= f < L.recordingWin => compute(Frame(audio, L, f)))
  }

  /** Every row of `vs` has k elements. */
  predicate Rows<T>(vs: seq<seq<T>>, k: nat) {
    forall i :: 0 <= i < |vs| ==> |vs[i]| == k
  }

  lemma NewFeaturesRows(audio: seq<Float32>, compute: Transform, L: Layout)
    requires Covers(audio, L) && FrameTransform(compute, L.frameLen, L.numFeatures)
    ensures |NewFeatures(audio, compute, L)| == L.recordingWin
    ensures Rows(NewFeatures(audio, compute, L), L.numFeatures)
  {
    var vs := NewFeatures(audio, compute, L);
    forall i | 0 <= i < |vs|
      ensures |vs[i]| == L.numFeatures
    {
      assert vs[i] == compute(Frame(audio, L, i));
    }
  }

  /** Rows laid out one after another, as in the flat C buffer. */
  function Flatten<T>(vs: seq<seq<T>>): seq<T>
    decreases |vs|
  {
    if |vs| == 0 then [] else Flatten(vs[..|vs| - 1]) + vs[|vs| - 1]
  }

  lemma {:induction false} FlattenLength<T>(vs: seq<seq<T>>, k: nat)
    requires Rows(vs, k)
    ensures |Flatten(vs)| == |vs| * k
    decreases |vs|
  {
    if |vs| > 0 {
      FlattenLength(vs[..|vs| - 1], k);
    }
  }

  lemma {:induction false} FlattenAppend<T>(a: seq<seq<T>>, b: seq<seq<T>>)
    ensures Flatten(a + b) == Flatten(a) + Flatten(b)
    decreases |b|
  {
    if |b| > 0 {
      var last := |b| - 1;
      assert (a + b)[..|a + b| - 1] == a + b[..last];
      FlattenAppend(a, b[..last]);
    } else {
      assert a + b == a;
    }
  }

  /** Vector j of a flat buffer of n vectors of k floats. */
  function Slot<T>(buf: seq<T>, k: nat, n: nat, j: nat): (r: seq<T>)
    requires |buf| == n * k && j < n
    ensures |r| == k
  {
    SlotBounds(j, n, k);
    buf[j * k .. j * k + k]
  }

  /** A flat buffer of n vectors of k floats, seen as its vectors. */
  function Vectors<T>(buf: seq<T>, k: nat, n: nat): (r: seq<seq<T>>)
    requires |buf| == n * k
    ensures |r| == n
  {
    seq(n, j requires 0 <= j < n => Slot(buf, k, n, j))
  }

  /** The rolling window: the feature buffer seen as its numFrames vectors. */
  function Window(buf: seq<Float32>, L: Layout): (r: seq<seq<Float32>>)
    requires |buf| == L.BufferLen()
    ensures |r| == L.numFrames
  {
    Vectors(buf, L.numFeatures, L.numFrames)
  }

  /** Splitting a flattened buffer gives back its rows. */
  lemma {:induction false} VectorsOfFlatten<T>(vs: seq<seq<T>>, k: nat)
    requires Rows(vs, k)
    ensures |Flatten(vs)| == |vs| * k
    ensures Vectors(Flatten(vs), k, |vs|) == vs
    decreases |vs|
  {
    FlattenLength(vs, k);
    if |vs| > 0 {
      var n := |vs| - 1;
      var init, last := vs[..n], vs[n];
      VectorsOfFlatten(init, k);
      assert Flatten(vs) == Flatten(init) + last;
      VectorsAppend(Flatten(init), last, k, n, 1);
      assert Vectors(last, k, 1) == [last] by {
        assert Slot(last, k, 1, 0) == last;
      }
      assert vs == init + [last];
    }
  }

  /** Joining the vectors of a buffer gives back the buffer. */
  lemma {:induction false} FlattenOfVectors<T>(buf: seq<T>, k: nat, n: nat)
    requires |buf| == n * k
    ensures Flatten(Vectors(buf, k, n)) == buf
    decreases n
  {
    if n > 0 {
      var m := (n - 1) * k;
      MulAdd(n - 1, 1, k);
      VectorsPrefix(buf, k, n, n - 1);
      FlattenOfVectors(buf[..m], k, n - 1);
      var vs := Vectors(buf, k, n);
      assert vs[n - 1] == buf[m..m + k];
      assert Flatten(vs) == Flatten(vs[..n - 1]) + vs[n - 1];
      assert buf == buf[..m] + buf[m..m + k];
    }
  }

  /** The first c vectors of a buffer are the vectors of its first c * k elements. */
  lemma VectorsPrefix<T>(buf: seq<T>, k: nat, n: nat, c: nat)
    requires |buf| == n * k && c <= n
    ensures c * k <= |buf|
    ensures Vectors(buf, k, n)[..c] == Vectors(buf[..c * k], k, c)
  {
    MulLe(c, n, k);
    var init := buf[..c * k];
    forall j | 0 <= j < c
      ensures Vectors(buf, k, n)[j] == Vectors(init, k, c)[j]
    {
      SlotBounds(j, c, k);
      var off := j * k;
      assert buf[off..off + k] == init[off..off + k];
    }
  }

  /** Vector j of a buffer past its first d vectors is vector d + j of the buffer. */
  lemma SlotOfSuffix<T>(buf: seq<T>, k: nat, n: nat, d: nat, j: nat)
    requires |buf| == n * k && d + j < n
    ensures d * k <= |buf| && |buf[d * k..]| == (n - d) * k
    ensures Slot(buf[d * k..], k, n - d, j) == Slot(buf, k, n, d + j)
  {
    MulLe(d, n, k);
    MulAdd(d, n - d, k);
    SlotBounds(j, n - d, k);
    SlotBounds(d + j, n, k);
    MulAdd(d, j, k);
    SubSlice(buf, d * k, j * k, k);
  }

  /** A slice of a suffix is a slice of the whole. */
  lemma SubSlice<T>(s: seq<T>, base: nat, off: nat, len: nat)
    requires base + off + len <= |s|
    ensures s[base..][off..off + len] == s[base + off..base + off + len]
  {
  }

  /** Vectors of a concatenation are the vectors of the parts. */
  lemma VectorsAppend<T>(a: seq<T>, b: seq<T>, k: nat, na: nat, nb: nat)
    requires |a| == na * k && |b| == nb * k
    ensures |a + b| == (na + nb) * k
    ensures Vectors(a + b, k, na + nb) == Vectors(a, k, na) + Vectors(b, k, nb)
  {
    MulAdd(na, nb, k);
    var lhs := Vectors(a + b, k, na + nb);
    var rhs := Vectors(a, k, na) + Vectors(b, k, nb);
    forall j | 0 <= j < na + nb
      ensures lhs[j] == rhs[j]
    {
      if j < na {
        SlotAppendLeft(a, b, k, na, nb, j);
      } else {
        SlotAppendRight(a, b, k, na, nb, j - na);
      }
    }
  }

  /** A vector of the first part is a vector of the concatenation. */
  lemma SlotAppendLeft<T>(a: seq<T>, b: seq<T>, k: nat, na: nat, nb: nat, j: nat)
    requires |a| == na * k && |b| == nb * k && j < na
    requires |a + b| == (na + nb) * k
    ensures Slot(a + b, k, na + nb, j) == Slot(a, k, na, j)
  {
    SlotBounds(j, na, k);
    assert (a + b)[j * k..j * k + k] == a[j * k..j * k + k];
  }

  /** A vector of the second part is a vector of the concatenation, na slots on. */
  lemma SlotAppendRight<T>(a: seq<T>, b: seq<T>, k: nat, na: nat, nb: nat, j: nat)
    requires |a| == na * k && |b| == nb * k && j < nb
    requires |a + b| == (na + nb) * k
    ensures Slot(a + b, k, na + nb, na + j) == Slot(b, k, nb, j)
  {
    SlotOfSuffix(a + b, k, na + nb, na, j);
    assert (a + b)[na * k..] == b;
  }

  /** Dropping the first d vectors of the flat buffer drops them from its vectors. */
  lemma VectorsSuffix<T>(buf: seq<T>, k: nat, n: nat, d: nat)
    requires |buf| == n * k && d <= n
    ensures d * k <= |buf| && |buf[d * k..]| == (n - d) * k
    ensures Vectors(buf[d * k..], k, n - d) == Vectors(buf, k, n)[d..]
  {
    MulLe(d, n, k);
    MulAdd(d, n - d, k);
    var lhs := Vectors(buf[d * k..], k, n - d);
    forall j | 0 <= j < n - d
      ensures lhs[j] == Vectors(buf, k, n)[d + j]
    {
      SlotOfSuffix(buf, k, n, d, j);
    }
  }

  /** The move of the surviving history, as the comment at the memmove call
      describes it: when numFrames > recordingWin, the vectors recordingWin..
      numFrames-1 move to the front, element by element.

      This is NOT what the C call does: it passes the float count
      (numFrames - recordingWin) * numFeatures to memmove, which counts bytes,
      so only a quarter of the history moves. ShiftAsWritten models the call
      as written and ShiftAsWrittenDiverges exhibits the difference; the rest
      of the model uses this intended move. */
  function ShiftHistory(buf: seq<Float32>, L: Layout): (r: seq<Float32>)
    requires L.Valid() && |buf| == L.BufferLen()
    ensures |r| == |buf|
    ensures r[..L.Head()] == buf[L.recordingWin * L.numFeatures..]
    ensures r[L.Head()..] == buf[L.Head()..]
  {
    if L.numFrames > L.recordingWin then
      MoveToFront(buf, L.recordingWin * L.numFeatures, L.Head())
    else
      buf
  }

  /** extract_features on the feature buffer: move the history, then write
      the new vectors from Head() to the end of the buffer. */
  function ExtractBuffer(buf: seq<Float32>, audio: seq<Float32>, compute: Transform, L: Layout): (r: seq<Float32>)
    requires L.Valid() && |buf| == L.BufferLen()
    requires Covers(audio, L) && FrameTransform(compute, L.frameLen, L.numFeatures)
    ensures |r| == |buf|
  {
    NewFeaturesRows(audio, compute, L);
    FlattenLength(NewFeatures(audio, compute, L), L.numFeatures);
    ShiftHistory(buf, L)[..L.Head()] + Flatten(NewFeatures(audio, compute, L))
  }

  /** One call is a first-in first-out step: append the new vectors and drop
      the oldest recordingWin ones. */
  lemma ExtractSlides(buf: seq<Float32>, audio: seq<Float32>, compute: Transform, L: Layout)
    requires L.Valid() && |buf| == L.BufferLen()
    requires Covers(audio, L) && FrameTransform(compute, L.frameLen, L.numFeatures)
    ensures L.recordingWin * L.numFeatures <= |buf|
    ensures ExtractBuffer(buf, audio, compute, L)
         == buf[L.recordingWin * L.numFeatures..] + Flatten(NewFeatures(audio, compute, L))
  {
    MulLe(L.recordingWin, L.numFrames, L.numFeatures);
    var shifted := ShiftHistory(buf, L);
    assert shifted[..L.Head()] == buf[L.recordingWin * L.numFeatures..];
  }

  /** The same step on the vectors: survivors first, in their old order, then
      the new vectors in frame order. */
  lemma ExtractVectors(buf: seq<Float32>, audio: seq<Float32>, compute: Transform, L: Layout)
    requires L.Valid() && |buf| == L.BufferLen()
    requires Covers(audio, L) && FrameTransform(compute, L.frameLen, L.numFeatures)
    ensures Window(ExtractBuffer(buf, audio, compute, L), L)
         == Window(buf, L)[L.recordingWin..] + NewFeatures(audio, compute, L)
  {
    var k, nf, rw := L.numFeatures, L.numFrames, L.recordingWin;
    var newVecs := NewFeatures(audio, compute, L);
    NewFeaturesRows(audio, compute, L);
    ExtractSlides(buf, audio, compute, L);
    VectorsSuffix(buf, k, nf, rw);
    VectorsOfFlatten(newVecs, k);
    VectorsAppend(buf[rw * k..], Flatten(newVecs), k, nf - rw, rw);
  }

  /** Vector j < numFrames - recordingWin after the call is the old vector
      recordingWin + j. */
  lemma ExtractKeepsSlot(buf: seq<Float32>, audio: seq<Float32>, compute: Transform, L: Layout, j: nat)
    requires L.Valid() && |buf| == L.BufferLen() && j < L.numFrames - L.recordingWin
    requires Covers(audio, L) && FrameTransform(compute, L.frameLen, L.numFeatures)
    ensures Window(ExtractBuffer(buf, audio, compute, L), L)[j] == Window(buf, L)[L.recordingWin + j]
  {
    ExtractVectors(buf, audio, compute, L);
  }

  /** Vector numFrames - recordingWin + f after the call is the transform of
      frame f of the new audio. */
  lemma ExtractFillsSlot(buf: seq<Float32>, audio: seq<Float32>, compute: Transform, L: Layout, f: nat)
    requires L.Valid() && |buf| == L.BufferLen() && f < L.recordingWin
    requires Covers(audio, L) && FrameTransform(compute, L.frameLen, L.numFeatures)
    ensures Window(ExtractBuffer(buf, audio, compute, L), L)[L.numFrames - L.recordingWin + f]
         == NewFeatures(audio, compute, L)[f]
    ensures NewFeatures(audio, compute, L)[f] == compute(Frame(audio, L, f))
  {
    var after := Window(ExtractBuffer(buf, audio, compute, L), L);
    var kept := Window(buf, L)[L.recordingWin..];
    var newVecs := NewFeatures(audio, compute, L);
    assert after == kept + newVecs && |kept| == L.numFrames - L.recordingWin by {
      ExtractVectors(buf, audio, compute, L);
    }
    IndexAppend(kept, newVecs, f);
  }

  /** Element |a| + f of a + b is element f of b. */
  lemma IndexAppend<V>(a: seq<V>, b: seq<V>, f: nat)
    requires f < |b|
    ensures (a + b)[|a| + f] == b[f]
  {
  }

  /** With recordingWin == numFrames nothing moves, the fill starts at the
      first float, and the buffer is recomputed from the new audio alone. */
  lemma FreshWindow(buf: seq<Float32>, audio: seq<Float32>, compute: Transform, L: Layout)
    requires L.recordingWin == L.numFrames && |buf| == L.BufferLen()
    requires Covers(audio, L) && FrameTransform(compute, L.frameLen, L.numFeatures)
    ensures L.Head() == 0 && ShiftHistory(buf, L) == buf
    ensures ExtractBuffer(buf, audio, compute, L) == Flatten(NewFeatures(audio, compute, L))
  {
    ExtractSlides(buf, audio, compute, L);
  }

  /** The extraction as the C code runs it: the move, then a loop with a
      16-bit frame counter f and a 32-bit write head that writes vector f
      at [head, head + numFeatures) and advances head. Nothing below the
      initial head is written by the loop. */
  method ExtractLoop(buf: seq<Float32>, audio: seq<Float32>, compute: Transform, L: Layout)
    returns (out: seq<Float32>)
    requires L.Valid() && |buf| == L.BufferLen()
    requires Covers(audio, L) && FrameTransform(compute, L.frameLen, L.numFeatures)
    requires L.numFrames < KwsMfccConfig.Uint16Limit && L.BufferLen() < 0x8000_0000
    ensures |out| == |buf|
    ensures out[..L.Head()] == ShiftHistory(buf, L)[..L.Head()]
    ensures out == ExtractBuffer(buf, audio, compute, L)
  {
    var k := L.numFeatures;
    out := ShiftHistory(buf, L);
    ghost var shifted := out;
    ghost var newVecs := NewFeatures(audio, compute, L);
    NewFeaturesRows(audio, compute, L);
    FlattenLength(newVecs, k);
    var head: int := L.Head();
    var f: int := 0;
    while f < L.recordingWin
      invariant 0 <= f <= L.recordingWin
      invariant head == L.Head() + |Flatten(newVecs[..f])| <= L.BufferLen()
      invariant out == shifted[..L.Head()] + Flatten(newVecs[..f]) + shifted[head..]
    {
      var v := compute(Frame(audio, L, f));
      assert v == newVecs[f] && |v| == k;
      FillStep(shifted, newVecs, L.Head(), f, head, out, v);
      out := out[..head] + v + out[head + k..];
      head := head + k;
      f := if f + 1 == KwsMfccConfig.Uint16Limit then 0 else f + 1;
    }
    LoopDone(shifted, newVecs, L.Head(), head, out);
  }

  /** One iteration of the fill loop: vector f lands right after the f
      vectors already written, and nothing else changes. */
  lemma FillStep<T>(shifted: seq<T>, newVecs: seq<seq<T>>, h: nat, f: nat, head: nat, out: seq<T>, v: seq<T>)
    requires f < |newVecs| && v == newVecs[f]
    requires h + |Flatten(newVecs)| == |shifted|
    requires head == h + |Flatten(newVecs[..f])|
    requires head <= |shifted|
    requires out == shifted[..h] + Flatten(newVecs[..f]) + shifted[head..]
    ensures |Flatten(newVecs[..f + 1])| == |Flatten(newVecs[..f])| + |v|
    ensures head + |v| <= |shifted|
    ensures out[..head] + v + out[head + |v|..] == shifted[..h] + Flatten(newVecs[..f + 1]) + shifted[head + |v|..]
  {
    assert newVecs[..f + 1][..f] == newVecs[..f];
    assert Flatten(newVecs[..f + 1]) == Flatten(newVecs[..f]) + v;
    assert |Flatten(newVecs[..f + 1])| <= |Flatten(newVecs)| by {
      FlattenAppend(newVecs[..f + 1], newVecs[f + 1..]);
      assert newVecs[..f + 1] + newVecs[f + 1..] == newVecs;
    }
    WriteStep(shifted[..h], Flatten(newVecs[..f]), shifted[head..], v);
    assert shifted[head..][|v|..] == shifted[head + |v|..];
  }

  /** When the loop ends, the write head is at the end of the buffer. */
  lemma LoopDone<T>(shifted: seq<T>, newVecs: seq<seq<T>>, h: nat, head: nat, out: seq<T>)
    requires h + |Flatten(newVecs)| == |shifted| && head == h + |Flatten(newVecs[..|newVecs|])|
    requires head <= |shifted|
    requires out == shifted[..h] + Flatten(newVecs[..|newVecs|]) + shifted[head..]
    ensures out == shifted[..h] + Flatten(newVecs)
    ensures out[..h] == shifted[..h]
  {
    assert newVecs[..|newVecs|] == newVecs;
  }

  /** Writing v over the first |v| elements of `rest` in pre + done + rest. */
  lemma WriteStep<T>(pre: seq<T>, done: seq<T>, rest: seq<T>, v: seq<T>)
    requires |v| <= |rest|
    ensures (pre + done + rest)[..|pre| + |done|] + v + (pre + done + rest)[|pre| + |done| + |v|..]
         == pre + (done + v) + rest[|v|..]
  {
    var out := pre + done + rest;
    assert out[..|pre| + |done|] == pre + done;
    assert out[|pre| + |done| + |v|..] == rest[|v|..];
  }

  /** The buffer after a sequence of calls, one clip of audio per call. */
  function Stream(buf: seq<Float32>, clips: seq<seq<Float32>>, compute: Transform, L: Layout): (r: seq<Float32>)
    requires L.Valid() && |buf| == L.BufferLen() && FrameTransform(compute, L.frameLen, L.numFeatures)
    requires forall i :: 0 <= i < |clips| ==> Covers(clips[i], L)
    ensures |r| == |buf|
    decreases |clips|
  {
    if |clips| == 0 then buf
    else ExtractBuffer(Stream(buf, clips[..|clips| - 1], compute, L), clips[|clips| - 1], compute, L)
  }

  /** Every vector the calls computed, oldest first. */
  function Arrived(clips: seq<seq<Float32>>, compute: Transform, L: Layout): (r: seq<seq<Float32>>)
    requires forall i :: 0 <= i < |clips| ==> Covers(clips[i], L)
    ensures |r| == |clips| * L.recordingWin
    decreases |clips|
  {
    if |clips| == 0 then []
    else Arrived(clips[..|clips| - 1], compute, L) + NewFeatures(clips[|clips| - 1], compute, L)
  }

  /** After any number of calls the window is the last numFrames vectors of
      (initial window ++ every computed vector in arrival order): the
      incremental extraction equals recomputing the window from the whole
      stream. */
  lemma {:induction false} StreamWindow(buf: seq<Float32>, clips: seq<seq<Float32>>, compute: Transform, L: Layout)
    requires L.Valid() && |buf| == L.BufferLen() && FrameTransform(compute, L.frameLen, L.numFeatures)
    requires forall i :: 0 <= i < |clips| ==> Covers(clips[i], L)
    ensures Window(Stream(buf, clips, compute, L), L)
         == (Window(buf, L) + Arrived(clips, compute, L))[|Arrived(clips, compute, L)|..]
    decreases |clips|
  {
    if |clips| > 0 {
      var prev := clips[..|clips| - 1];
      StreamWindow(buf, prev, compute, L);
      StreamStep(buf, clips, compute, L);
      NewFeaturesRows(clips[|clips| - 1], compute, L);
      SlideStep(Window(buf, L), Arrived(prev, compute, L), NewFeatures(clips[|clips| - 1], compute, L));
    }
  }

  /** The last call of a stream slides the window once. */
  lemma StreamStep(buf: seq<Float32>, clips: seq<seq<Float32>>, compute: Transform, L: Layout)
    requires L.Valid() && |buf| == L.BufferLen() && FrameTransform(compute, L.frameLen, L.numFeatures)
    requires forall i :: 0 <= i < |clips| ==> Covers(clips[i], L)
    requires |clips| > 0
    ensures Window(Stream(buf, clips, compute, L), L)
         == Window(Stream(buf, clips[..|clips| - 1], compute, L), L)[L.recordingWin..]
            + NewFeatures(clips[|clips| - 1], compute, L)
    ensures Arrived(clips, compute, L)
         == Arrived(clips[..|clips| - 1], compute, L) + NewFeatures(clips[|clips| - 1], compute, L)
  {
    ExtractVectors(Stream(buf, clips[..|clips| - 1], compute, L), clips[|clips| - 1], compute, L);
  }

  /** Sliding a window that starts |arrived| elements into old0 + arrived
      by |newVecs| more, and appending newVecs, starts it |arrived| +
      |newVecs| elements into old0 + arrived + newVecs. */
  lemma SlideStep<V>(old0: seq<V>, arrived: seq<V>, newVecs: seq<V>)
    requires |newVecs| <= |old0|
    ensures (old0 + arrived)[|arrived|..][|newVecs|..] + newVecs
         == (old0 + (arrived + newVecs))[|arrived + newVecs|..]
  {
    DropAppend(old0 + arrived, newVecs, |arrived|, |newVecs|);
    assert old0 + arrived + newVecs == old0 + (arrived + newVecs);
  }

  /** Dropping a then b elements, then appending, is appending then dropping a + b. */
  lemma DropAppend<T>(s: seq<T>, t: seq<T>, a: nat, b: nat)
    requires a + b <= |s|
    ensures s[a..][b..] + t == (s + t)[a + b..]
  {
  }

  /** Once the calls have computed at least numFrames vectors, the window no
      longer depends on what the buffer held at the start: it is the last
      numFrames computed vectors. */
  lemma WarmWindow(buf0: seq<Float32>, buf1: seq<Float32>, clips: seq<seq<Float32>>, compute: Transform, L: Layout)
    requires L.Valid() && |buf0| == L.BufferLen() && |buf1| == L.BufferLen()
    requires FrameTransform(compute, L.frameLen, L.numFeatures)
    requires forall i :: 0 <= i < |clips| ==> Covers(clips[i], L)
    requires |clips| * L.recordingWin >= L.numFrames
    ensures Window(Stream(buf0, clips, compute, L), L)
         == Arrived(clips, compute, L)[|Arrived(clips, compute, L)| - L.numFrames..]
    ensures Stream(buf0, clips, compute, L) == Stream(buf1, clips, compute, L)
  {
    var k, nf := L.numFeatures, L.numFrames;
    var all := Arrived(clips, compute, L);
    var d := |all|;
    var s0, s1 := Stream(buf0, clips, compute, L), Stream(buf1, clips, compute, L);
    assert Window(s0, L) == all[d - nf..] by {
      StreamWindow(buf0, clips, compute, L);
      DropPast(Window(buf0, L), all, d);
    }
    assert Window(s1, L) == all[d - nf..] by {
      StreamWindow(buf1, clips, compute, L);
      DropPast(Window(buf1, L), all, d);
    }
    FlattenOfVectors(s0, k, nf);
    FlattenOfVectors(s1, k, nf);
  }

  /** Dropping at least all of s from s + t drops the rest from t. */
  lemma DropPast<T>(s: seq<T>, t: seq<T>, d: nat)
    requires |s| <= d <= |s| + |t|
    ensures (s + t)[d..] == t[d - |s|..]
  {
  }

  /** The move as the C call performs it, on the byte image of the buffer:
      source offset recordingWin * numFeatures floats, but a count of
      (numFrames - recordingWin) * numFeatures BYTES. */
  function ShiftAsWritten(image: seq<Byte>, L: Layout): (r: seq<Byte>)
    requires L.Valid() && |image| == 4 * L.BufferLen()
    ensures |r| == |image|
    ensures L.numFrames > L.recordingWin ==>
              var src := 4 * (L.recordingWin * L.numFeatures);
              && src + L.Head() <= |image|
              && r[..L.Head()] == image[src..src + L.Head()]
              && r[L.Head()..] == image[L.Head()..]
  {
    if L.numFrames > L.recordingWin then
      MoveToFront(image, 4 * (L.recordingWin * L.numFeatures), L.Head())
    else
      image
  }

  /** The intended move, seen on the byte image, moves four times as many
      bytes as the call passes. */
  lemma ShiftHistoryImage(buf: seq<Float32>, L: Layout)
    requires L.Valid() && |buf| == L.BufferLen() && L.numFrames > L.recordingWin
    ensures ByteImage(ShiftHistory(buf, L))
         == MoveToFront(ByteImage(buf), 4 * (L.recordingWin * L.numFeatures), 4 * L.Head())
  {
    MoveImage(buf, L.recordingWin * L.numFeatures, L.Head());
  }

  /** Whenever there is history to move (0 < recordingWin < numFrames), some
      buffer comes out of the call as written differently from the intended
      move: the last byte of the history region is never copied. */
  lemma ShiftAsWrittenDiverges(L: Layout)
    requires 0 < L.recordingWin < L.numFrames && L.numFeatures > 0
    ensures exists buf: seq<Float32> :: |buf| == L.BufferLen()
              && ShiftAsWritten(ByteImage(buf), L) != ByteImage(ShiftHistory(buf, L))
  {
    MulLe(1, L.numFrames - L.recordingWin, L.numFeatures);
    var buf := Marker(L.BufferLen(), L.Head() - 1);
    DivergesOn(L, buf);
    assert |buf| == L.BufferLen() && ShiftAsWritten(ByteImage(buf), L) != ByteImage(ShiftHistory(buf, L));
  }

  /** n zero floats, except float `at`, whose four bytes are 1. */
  function Marker(n: nat, at: nat): (r: seq<Float32>)
    ensures |r| == n
    ensures forall i :: 0 <= i < n ==> r[i] == (if i == at then Float32(1, 1, 1, 1) else Float32(0, 0, 0, 0))
  {
    seq(n, i => if i == at then Float32(1, 1, 1, 1) else Float32(0, 0, 0, 0))
  }

  /** The witness of ShiftAsWrittenDiverges: a buffer whose only non-zero
      float is the last one of the history region. Its last byte is past the
      h bytes the call moves, so the call leaves it at 1, while the intended
      move fills that float from the (zero) float recordingWin vectors later. */
  lemma DivergesOn(L: Layout, buf: seq<Float32>)
    requires 0 < L.recordingWin < L.numFrames && L.numFeatures > 0 && |buf| == L.BufferLen()
    requires L.Head() > 0
    requires buf == Marker(L.BufferLen(), L.Head() - 1)
    ensures ShiftAsWritten(ByteImage(buf), L) != ByteImage(ShiftHistory(buf, L))
  {
    var h := L.Head();
    var src := L.recordingWin * L.numFeatures;
    MulLe(1, L.recordingWin, L.numFeatures);
    var image := ByteImage(buf);
    var asWritten := ShiftAsWritten(image, L);
    var shifted := ShiftHistory(buf, L);
    var p := 4 * (h - 1) + 3;
    assert asWritten[p] == 1 by {
      assert asWritten[h..] == image[h..];
      assert asWritten[p] == image[h..][p - h] == image[p];
      ByteAt(buf, h - 1, 3);
    }
    assert ByteImage(shifted)[p] == 0 by {
      assert shifted[h - 1] == shifted[..h][h - 1] == buf[src + h - 1];
      ByteAt(shifted, h - 1, 3);
    }
  }

  /** The configured window (249 vectors of 13 features) with 50 new
      vectors per call. The call moves 2587 bytes, not a whole number of
      floats, where the 10348 bytes of the 199 surviving vectors are due. */
  lemma StreamingShiftCount()
    ensures var L := Layout(KwsMfccConfig.NumFrames, 50, KwsMfccConfig.NumMfccCoeffs,
                            KwsMfccConfig.FrameShift, KwsMfccConfig.FrameLen);
            && L.Head() == 2587
            && L.Head() % 4 != 0
            && 4 * L.Head() == 10348
  {
  }
}
