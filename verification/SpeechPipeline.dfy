/** The speech recogniser's stages: acoustic features, then the recurrent network. */
module SpeechPipeline {
  import opened Wrappers
  import opened BlockedPipeline
  import opened BlockedStage
  import Arithmetic
  import Sequences

  const RNN_BLOCK := 16

  /** The network stage: blocks of 16 frames, half the context padded on each side,
      alignment cropped from the last block. */
  function RnnConfig<T, U, S>(numContextFrames: nat, zero: T, start: S, step: (S, seq<T>) -> (S, seq<U>))
      : (c: Config<T, U, S>)
    requires numContextFrames % 2 == 1
    ensures c.Valid()
  {
    Config(RNN_BLOCK, numContextFrames - 1, numContextFrames / 2, numContextFrames / 2, zero, true, start, step)
  }

  /** The network emits one frame for each position of a block. */
  ghost predicate KeepsLength<T(!new), U, S(!new)>(c: Config<T, U, S>) {
    forall s: S, w: seq<T> :: |w| == c.Window() ==> |c.step(s, w).1| == c.blockLen
  }

  lemma {:induction false} BlocksLength<T(!new), U, S(!new)>(c: Config<T, U, S>, carried: S, buffer: seq<T>, k: nat)
    requires c.Valid() && KeepsLength(c)
    requires |buffer| == c.contextLen + k * c.blockLen
    ensures var blocks := Blocks(c, carried, buffer).1;
            |blocks| == k && (forall i :: 0 <= i < k ==> |blocks[i]| == c.blockLen)
            && |Concat(blocks)| == k * c.blockLen
  {
    if k == 0 {
    } else {
      Arithmetic.Grows(k, c.blockLen);
      assert k * c.blockLen == (k - 1) * c.blockLen + c.blockLen;
      var (next, block) := c.step(carried, buffer[..c.Window()]);
      BlocksLength(c, next, buffer[c.blockLen..], k - 1);
      var rest := Blocks(c, next, buffer[c.blockLen..]).1;
      ConcatOfConcat([block], rest);
      assert [block][..0] == [];
    }
  }

  lemma CropLength<U>(blocks: seq<seq<U>>, n: nat)
    requires blocks != [] && n <= |blocks[|blocks| - 1]|
    ensures |Concat(CropLast(blocks, n))| == |Concat(blocks)| - n
  {
    assert CropLast(blocks, n)[..|blocks| - 1] == blocks[..|blocks| - 1];
  }

  /** Aligning n frames of payload gives whole blocks, fewer than one block longer. */
  lemma AlignedPayload<T, U, S>(c: Config<T, U, S>, len: nat, n: nat) returns (k: nat)
    requires c.Valid() && len + c.rightPaddingLen - c.contextLen == n
    ensures n + Alignment(c, len) == k * c.blockLen
    ensures k == 0 <==> n == 0
  {
    var a := Alignment(c, len);
    var x := n + a;
    assert x % c.blockLen == 0;
    k := x / c.blockLen;
    assert x == k * c.blockLen + x % c.blockLen;
    if n == 0 {
      Arithmetic.DivModUnique(a, 0, a, c.blockLen);
    }
    assert k == 0 ==> k * c.blockLen == 0;
  }

  /** For every odd context and every stream, however it is cut, the network stage
      emits exactly one frame for each input frame. */
  lemma RnnKeepsFrameCount<T(!new), U, S(!new)>(numContextFrames: nat, zero: T, start: S,
                                                step: (S, seq<T>) -> (S, seq<U>),
                                                chunks: seq<Option<seq<T>>>, last: Option<seq<T>>)
    requires numContextFrames % 2 == 1
    requires KeepsLength(RnnConfig(numContextFrames, zero, start, step))
    ensures var c := RnnConfig(numContextFrames, zero, start, step);
            var output, input := Joined(Stream(c, chunks, last).1), Joined(chunks + [last]);
            |OrEmpty(output)| == |OrEmpty(input)| && (output.Some? <==> |OrEmpty(input)| > 0)
  {
    var c := RnnConfig(numContextFrames, zero, start, step);
    ChunkInvariance(c, chunks, last);
    var input := Joined(chunks + [last]);
    if input.Some? {
      BatchFrameCount(c, input.value);
    }
  }

  function OrEmpty<T>(s: Option<seq<T>>): seq<T> {
    if s.Some? then s.value else []
  }

  lemma BatchFrameCount<T(!new), U, S(!new)>(c: Config<T, U, S>, data: seq<T>)
    requires c.Valid() && KeepsLength(c) && c.cutAlignment
    requires c.leftPaddingLen + c.rightPaddingLen == c.contextLen
    ensures |OrEmpty(Batch(c, Some(data)))| == |data| && (Batch(c, Some(data)).Some? <==> data != [])
  {
    var p := Padded(c, data);
    var k := AlignedPayload(c, |p|, |data|);
    AlignedCount(c, p, Alignment(c, |p|), k, |data|);
    assert Batch(c, Some(data)) == Flush(c, c.start, p);
  }

  /** Whole blocks less the alignment. */
  lemma AlignedCount<T(!new), U, S(!new)>(c: Config<T, U, S>, p: seq<T>, align: nat, k: nat, n: nat)
    requires c.Valid() && KeepsLength(c) && c.cutAlignment && align < c.blockLen
    requires |p| + c.rightPaddingLen - c.contextLen == n && n + align == k * c.blockLen && (k == 0 <==> n == 0)
    ensures var output := FlushAligned(c, c.start, p, align);
            |OrEmpty(output)| == n && (output.Some? <==> n != 0)
  {
    var full := p + Padding(c.padding, c.rightPaddingLen + align);
    BlocksLength(c, c.start, full, k);
    if k > 0 {
      Arithmetic.Grows(k, c.blockLen);
      CropLength(Blocks(c, c.start, full).1, align);
    }
  }

  // ---------------------------------------------------------------------------
  // Acoustic features
  // ---------------------------------------------------------------------------

  /** The feature stage: one frame per stride, computed from one window of samples. */
  function AudioConfig<T, U>(windowLen: nat, strideLen: nat, zero: T, frame: seq<T> -> U): (c: Config<T, U, ()>)
    requires 0 < strideLen <= windowLen
    ensures c.Valid() && c.Window() == windowLen
  {
    Config(strideLen, windowLen - strideLen, 0, 0, zero, false, (), (s: (), w: seq<T>) => ((), [frame(w)]))
  }

  /** One frame for every window position of the processable samples. */
  function Frames<T, U>(samples: seq<T>, windowLen: nat, strideLen: nat, frame: seq<T> -> U, count: nat): (f: seq<U>)
    requires count > 0 ==> (count - 1) * strideLen + windowLen <= |samples|
    ensures |f| == count
  {
    if count == 0 then []
    else
      Arithmetic.NonNegative(count - 1, strideLen);
      EarlierFits(count, strideLen, windowLen, |samples|);
      Frames(samples, windowLen, strideLen, frame, count - 1)
      + [frame(samples[(count - 1) * strideLen..(count - 1) * strideLen + windowLen])]
  }

  lemma EarlierFits(count: nat, strideLen: nat, windowLen: nat, len: nat)
    requires count > 0 && (count - 1) * strideLen + windowLen <= len
    ensures count - 1 > 0 ==> (count - 2) * strideLen + windowLen <= len
  {
    assert (count - 1) * strideLen == (count - 2) * strideLen + strideLen;
  }

  /** The slicing arithmetic of the feature stage: cuts the buffer to the end of the
      last frame and returns all frames of the cut at once. */
  method AudioProcessBlocks<T, U>(audio: seq<T>, windowLen: nat, strideLen: nat, ghost zero: T, frame: seq<T> -> U)
    returns (processed: seq<U>, bufferSkipLen: nat)
    requires 0 < strideLen <= windowLen <= |audio|
    ensures bufferSkipLen == |processed| * strideLen
    ensures bufferSkipLen + windowLen - strideLen <= |audio| < bufferSkipLen + windowLen
    ensures |processed| > 0 && (|processed| - 1) * strideLen + windowLen <= |audio|
    ensures processed == Frames(audio, windowLen, strideLen, frame, |processed|)
    ensures var c := AudioConfig(windowLen, strideLen, zero, frame);
            processed == Concat(Blocks(c, (), audio).1) && audio[bufferSkipLen..] == Rest(c, audio)
  {
    var contextLen := windowLen - strideLen;
    var processableLen := |audio| - (|audio| - contextLen) % strideLen;
    bufferSkipLen := processableLen - contextLen;
    var count := bufferSkipLen / strideLen;
    CountsStrides(|audio| - contextLen, strideLen);
    processed := [];
    for t := 0 to count
      invariant |processed| == t
      invariant t > 0 ==> (t - 1) * strideLen + windowLen <= |audio|
      invariant processed == Frames(audio, windowLen, strideLen, frame, t)
    {
      StrideFits(t, count, strideLen);
      Arithmetic.NonNegative(t, strideLen);
      processed := processed + [frame(audio[t * strideLen..t * strideLen + windowLen])];
    }
    AudioBlocksAreFrames(audio, windowLen, strideLen, zero, frame, count);
  }

  lemma StrideFits(t: nat, count: nat, strideLen: nat)
    requires t < count
    ensures (t + 1) * strideLen <= count * strideLen && (t + 1) * strideLen == t * strideLen + strideLen
  {
    Arithmetic.NonNegative(count - t - 1, strideLen);
    assert (count - t - 1) * strideLen == count * strideLen - (t + 1) * strideLen;
  }

  lemma CountsStrides(x: int, b: nat)
    requires b > 0 && x >= b
    ensures x - x % b == (x - x % b) / b * b && (x - x % b) / b >= 1
  {
    assert x == x / b * b + x % b;
    Arithmetic.DivModUnique(x - x % b, x / b, 0, b);
    Arithmetic.DivModUnique(x, x / b, x % b, b);
    Arithmetic.NonPositive(x / b, b);
  }

  /** Taking all frames of a cut at once is taking them window by window, and leaves the same rest. */
  lemma AudioBlocksAreFrames<T, U>(audio: seq<T>, windowLen: nat, strideLen: nat, zero: T, frame: seq<T> -> U,
                                   count: nat)
    requires 0 < strideLen <= windowLen
    requires count * strideLen + windowLen - strideLen <= |audio| < count * strideLen + windowLen
    requires count > 0 ==> (count - 1) * strideLen + windowLen <= |audio|
    ensures var c := AudioConfig(windowLen, strideLen, zero, frame);
            && Concat(Blocks(c, (), audio).1) == Frames(audio, windowLen, strideLen, frame, count)
            && 0 <= count * strideLen <= |audio| && Rest(c, audio) == audio[count * strideLen..]
  {
    CountedBlocksAreFrames(audio, windowLen, strideLen, zero, frame, count);
    RestIsSuffix(AudioConfig(windowLen, strideLen, zero, frame), audio);
    Arithmetic.NonNegative(count, strideLen);
  }

  lemma {:induction false} CountedBlocksAreFrames<T, U>(audio: seq<T>, windowLen: nat, strideLen: nat,
                                                        zero: T, frame: seq<T> -> U, count: nat)
    requires 0 < strideLen <= windowLen
    requires count * strideLen + windowLen - strideLen <= |audio| < count * strideLen + windowLen
    requires count > 0 ==> (count - 1) * strideLen + windowLen <= |audio|
    ensures var c := AudioConfig(windowLen, strideLen, zero, frame);
            Concat(Blocks(c, (), audio).1) == Frames(audio, windowLen, strideLen, frame, count)
            && |Rest(c, audio)| == |audio| - count * strideLen
  {
    var c := AudioConfig(windowLen, strideLen, zero, frame);
    if count > 0 {
      assert count * strideLen == (count - 1) * strideLen + strideLen;
      Arithmetic.NonNegative(count - 1, strideLen);
      var tail := audio[strideLen..];
      if count > 1 { assert (count - 1) * strideLen == (count - 2) * strideLen + strideLen; }
      CountedBlocksAreFrames(tail, windowLen, strideLen, zero, frame, count - 1);
      var first := frame(audio[..windowLen]);
      var rest := Blocks(c, (), tail).1;
      ConcatOfConcat([[first]], rest);
      assert [[first]][..0] == [];
      assert Concat([[first]]) == [first];
      FramesFromFront(audio, windowLen, strideLen, frame, count);
    }
  }

  lemma {:induction false} FramesFromFront<T, U>(audio: seq<T>, windowLen: nat, strideLen: nat, frame: seq<T> -> U,
                                                 count: nat)
    requires 0 < strideLen <= windowLen && count > 0 && (count - 1) * strideLen + windowLen <= |audio|
    requires strideLen <= |audio|
    requires count - 1 > 0 ==> (count - 2) * strideLen + windowLen <= |audio[strideLen..]|
    ensures Frames(audio, windowLen, strideLen, frame, count)
         == [frame(audio[..windowLen])] + Frames(audio[strideLen..], windowLen, strideLen, frame, count - 1)
  {
    if count == 1 {
      assert 0 * strideLen == 0;
    } else {
      EarlierFits(count, strideLen, windowLen, |audio|);
      EarlierFits(count - 1, strideLen, windowLen, |audio[strideLen..]|);
      FramesFromFront(audio, windowLen, strideLen, frame, count - 1);
      var start := (count - 2) * strideLen;
      assert (count - 1) * strideLen == start + strideLen;
      Arithmetic.NonNegative(count - 2, strideLen);
      Sequences.SliceOfSuffix(audio, strideLen, start, start + windowLen);
    }
  }

  /** How many frames a stream of `n` samples gives: one for each stride begun past the context. */
  function FrameCount(n: nat, windowLen: nat, strideLen: nat): nat
    requires 0 < strideLen <= windowLen
  {
    var contextLen := windowLen - strideLen;
    if n <= contextLen then 0 else (n - contextLen + strideLen - 1) / strideLen
  }

  lemma AlignedFrameCount(n: nat, align: nat, windowLen: nat, strideLen: nat) returns (count: nat)
    requires 0 < strideLen <= windowLen && align < strideLen
    requires (n + align - (windowLen - strideLen)) % strideLen == 0
    ensures count == FrameCount(n, windowLen, strideLen)
    ensures n + align < windowLen <==> count == 0
    ensures count > 0 ==> count * strideLen + windowLen - strideLen == n + align
    ensures count > 0 ==> (count - 1) * strideLen + windowLen == n + align
  {
    var x := n + align - (windowLen - strideLen);
    assert x == x / strideLen * strideLen;
    if x > 0 {
      count := x / strideLen;
      Arithmetic.NonPositive(count, strideLen);
      assert count * strideLen == (count - 1) * strideLen + strideLen;
      Arithmetic.Grows(count, strideLen);
      if n <= windowLen - strideLen {
        assert false;
      }
      Arithmetic.DivModUnique(x - align + strideLen - 1, count, strideLen - 1 - align, strideLen);
    } else {
      count := 0;
    }
  }

  /** The feature stage, finished: a stream of that many frames. */
  lemma AudioBatchCount<T, U>(windowLen: nat, strideLen: nat, zero: T, frame: seq<T> -> U, data: seq<T>)
    requires 0 < strideLen <= windowLen
    ensures |OrEmpty(Batch(AudioConfig(windowLen, strideLen, zero, frame), Some(data)))|
         == FrameCount(|data|, windowLen, strideLen)
  {
    var c := AudioConfig(windowLen, strideLen, zero, frame);
    assert Padded(c, data) == data;
    var align := Alignment(c, |data|);
    var full := data + Padding(zero, align);
    var count := AlignedFrameCount(|data|, align, windowLen, strideLen);
    if count > 0 {
      AudioBlocksAreFrames(full, windowLen, strideLen, zero, frame, count);
    }
  }

  // ---------------------------------------------------------------------------
  // Two stages in a row
  // ---------------------------------------------------------------------------

  /** Feeds every chunk through both stages; the network sees what the features emit. */
  function Chain<A, B, C, S1, S2>(c1: Config<A, B, S1>, c2: Config<B, C, S2>, s1: State<A, S1>, s2: State<B, S2>,
                                  chunks: seq<Option<seq<A>>>)
    : (State<A, S1>, State<B, S2>, seq<Option<seq<C>>>)
    requires c1.Valid() && c2.Valid()
  {
    if chunks == [] then (s1, s2, [])
    else
      var (mid1, mid2, outs) := Chain(c1, c2, s1, s2, chunks[..|chunks| - 1]);
      var (next1, features) := Process(c1, mid1, chunks[|chunks| - 1], false);
      var (next2, out) := Process(c2, mid2, features, false);
      (next1, next2, outs + [out])
  }

  lemma {:induction false} ChainIsFeedTwice<A, B, C, S1, S2>(c1: Config<A, B, S1>, c2: Config<B, C, S2>,
                                                             chunks: seq<Option<seq<A>>>)
    requires c1.Valid() && c2.Valid()
    ensures var (mid1, features) := Feed(c1, Fresh(c1), chunks);
            var (mid2, outs) := Feed(c2, Fresh(c2), features);
            Chain(c1, c2, Fresh(c1), Fresh(c2), chunks) == (mid1, mid2, outs)
  {
    if chunks != [] {
      ChainIsFeedTwice(c1, c2, chunks[..|chunks| - 1]);
      var (mid1, features) := Feed(c1, Fresh(c1), chunks[..|chunks| - 1]);
      var (next1, more) := Process(c1, mid1, chunks[|chunks| - 1], false);
      assert (features + [more])[..|features|] == features;
    }
  }

  /** Chunk invariance of the chain: however the audio is cut, the joined output of
      both stages is that of one finishing call on all of it, and both end fresh. */
  lemma ChainInvariance<A, B, C, S1, S2>(c1: Config<A, B, S1>, c2: Config<B, C, S2>, chunks: seq<Option<seq<A>>>,
                                         last: Option<seq<A>>)
    requires c1.Valid() && c2.Valid()
    ensures var (mid1, mid2, outs) := Chain(c1, c2, Fresh(c1), Fresh(c2), chunks);
            var (end1, features) := Process(c1, mid1, last, true);
            var (end2, out) := Process(c2, mid2, features, true);
            && end1 == Fresh(c1) && end2 == Fresh(c2)
            && Joined(outs + [out]) == Batch(c2, Batch(c1, Joined(chunks + [last])))
  {
    ChainIsFeedTwice(c1, c2, chunks);
    var (mid1, firsts) := Feed(c1, Fresh(c1), chunks);
    var (end1, features) := Process(c1, mid1, last, true);
    ChunkInvariance(c1, chunks, last);
    ChunkInvariance(c2, firsts, features);
  }

  /** The frames both stages emit for a stream of samples: their number depends on the
      number of samples only, not on how the stream was cut. */
  lemma SpeechFrameCount<A, B(!new), C, S(!new)>(windowLen: nat, strideLen: nat, zero: A, frame: seq<A> -> B,
                                                 numContextFrames: nat, zeroFrame: B, start: S,
                                                 step: (S, seq<B>) -> (S, seq<C>),
                                                 chunks: seq<Option<seq<A>>>, last: Option<seq<A>>)
    requires 0 < strideLen <= windowLen && numContextFrames % 2 == 1
    requires KeepsLength(RnnConfig(numContextFrames, zeroFrame, start, step))
    ensures var c1 := AudioConfig(windowLen, strideLen, zero, frame);
            var c2 := RnnConfig(numContextFrames, zeroFrame, start, step);
            var (mid1, mid2, outs) := Chain(c1, c2, Fresh(c1), Fresh(c2), chunks);
            var (_, features) := Process(c1, mid1, last, true);
            var (_, out) := Process(c2, mid2, features, true);
            |OrEmpty(Joined(outs + [out]))| == FrameCount(|OrEmpty(Joined(chunks + [last]))|, windowLen, strideLen)
  {
    var c1 := AudioConfig(windowLen, strideLen, zero, frame);
    var c2 := RnnConfig(numContextFrames, zeroFrame, start, step);
    ChainInvariance(c1, c2, chunks, last);
    var samples := Joined(chunks + [last]);
    if samples.Some? {
      AudioBatchCount(windowLen, strideLen, zero, frame, samples.value);
      var features := Batch(c1, samples);
      if features.Some? {
        BatchFrameCount(c2, features.value);
      }
    }
  }

  /** The stages driven together. The decoder that comes last keeps a state of its own
      and turns what the network emits into a result. */
  class DeepSpeechSeqPipeline<A, B, C, S1, S2, D, R> {
    const modelSamplingRate: real
    const mfccStage: BlockedSeqPipelineStage<A, B, S1>
    const rnnStage: BlockedSeqPipelineStage<B, C, S2>
    const decode: (D, Option<seq<C>>, bool) -> (D, R)
    var decoder: D

    ghost predicate Valid()
      reads mfccStage, rnnStage
    {
      && modelSamplingRate > 0.0 && mfccStage as object != rnnStage
      && mfccStage.Valid() && rnnStage.Valid()
    }

    constructor (modelSamplingRate: real, c1: Config<A, B, S1>, c2: Config<B, C, S2>,
                 decode: (D, Option<seq<C>>, bool) -> (D, R), decoder: D)
      requires modelSamplingRate > 0.0 && c1.Valid() && c2.Valid()
      ensures Valid() && this.modelSamplingRate == modelSamplingRate
      ensures mfccStage.config == c1 && rnnStage.config == c2 && fresh(mfccStage) && fresh(rnnStage)
      ensures mfccStage.Contents() == Fresh(c1) && rnnStage.Contents() == Fresh(c2)
      ensures this.decode == decode && this.decoder == decoder
    {
      this.modelSamplingRate := modelSamplingRate;
      mfccStage := new BlockedSeqPipelineStage(c1);
      rnnStage := new BlockedSeqPipelineStage(c2);
      this.decode, this.decoder := decode, decoder;
    }

    /** Runs a segment of audio through the stages. Audio at a rate more than a tenth off
        the model's, or with more than one channel, is refused before anything changes. */
    method RecognizeAudio(audio: Option<seq<A>>, channels: nat, samplingRate: real, finish: bool)
      returns (text: Result<R, string>)
      requires Valid()
      modifies mfccStage, rnnStage, `decoder
      ensures Valid()
      ensures text.Failure? <==> audio.Some? && (RateIsOff(samplingRate, modelSamplingRate) || channels != 1)
      ensures text.Failure? ==>
                && mfccStage.Contents() == old(mfccStage.Contents()) && rnnStage.Contents() == old(rnnStage.Contents())
                && decoder == old(decoder)
      ensures text.Success? ==>
                var (next1, features) := Process(mfccStage.config, old(mfccStage.Contents()), audio, finish);
                var (next2, probs) := Process(rnnStage.config, old(rnnStage.Contents()), features, finish);
                && mfccStage.Contents() == next1 && rnnStage.Contents() == next2
                && (decoder, text.value) == decode(old(decoder), probs, finish)
    {
      if audio.Some? && (RateIsOff(samplingRate, modelSamplingRate) || channels != 1) {
        return Failure("Input audio should be mono at the model's rate");
      }
      var features := mfccStage.ProcessData(audio, finish);
      var probs := rnnStage.ProcessData(features, finish);
      var (next, result) := decode(decoder, probs, finish);
      decoder := next;
      return Success(result);
    }
  }

  lemma QuotientOfRates(rate: real, model: real)
    requires model > 0.0
    ensures rate / model < 0.9 <==> rate < 0.9 * model
    ensures rate / model > 1.1 <==> rate > 1.1 * model
  {
    var q := rate / model;
    assert q * model == rate;
    ScalesUp(q, 0.9, model);
    ScalesUp(1.1, q, model);
  }

  lemma ScalesUp(a: real, b: real, m: real)
    requires m > 0.0
    ensures a < b <==> a * m < b * m
  {
    assert (b - a) * m == b * m - a * m;
    if a < b {
      assert (b - a) * m > 0.0;
    } else {
      assert (a - b) * m >= 0.0;
    }
  }

  /** The decoder's state after it was given these frames, none of them the last. */
  function DecoderAfter<C, D, R>(decode: (D, Option<seq<C>>, bool) -> (D, R), start: D, probs: seq<Option<seq<C>>>): D {
    if probs == [] then start
    else decode(DecoderAfter(decode, start, probs[..|probs| - 1]), probs[|probs| - 1], false).0
  }

  function Present<A>(segments: seq<seq<A>>): (parts: seq<Option<seq<A>>>)
    ensures |parts| == |segments|
  {
    seq(|segments|, k requires 0 <= k < |segments| => Some(segments[k]))
  }

  lemma {:induction false} PresentJoins<A>(segments: seq<seq<A>>)
    ensures Joined(Present(segments) + [None]) == if segments == [] then None else Some(Concat(segments))
  {
    var parts := Present(segments);
    assert (parts + [None])[..|parts|] == parts;
    if segments != [] {
      var front := segments[..|segments| - 1];
      PresentJoins(front);
      assert (Present(front) + [None])[..|front|] == Present(front) == parts[..|front|];
      assert Concat([]) + segments[0] == segments[0];
    }
  }

  /** One utterance on a fresh pipeline: every segment without finishing, then a finishing call without
      audio. However the audio is cut, the frames the decoder is given join to those of all of it at
      once, and both stages end fresh for the next utterance. */
  method RecognizeUtterance<A, B, C, S1, S2, D, R>(stt: DeepSpeechSeqPipeline<A, B, C, S1, S2, D, R>,
                                                   segments: seq<seq<A>>, samplingRate: real)
    returns (text: R, ghost probs: seq<Option<seq<C>>>)
    requires stt.Valid() && !RateIsOff(samplingRate, stt.modelSamplingRate)
    requires stt.mfccStage.Contents() == Fresh(stt.mfccStage.config)
    requires stt.rnnStage.Contents() == Fresh(stt.rnnStage.config)
    modifies stt.mfccStage, stt.rnnStage, stt`decoder
    ensures stt.Valid()
    ensures stt.mfccStage.Contents() == Fresh(stt.mfccStage.config)
    ensures stt.rnnStage.Contents() == Fresh(stt.rnnStage.config)
    ensures Joined(probs) == Batch(stt.rnnStage.config, Batch(stt.mfccStage.config,
                                   if segments == [] then None else Some(Concat(segments))))
    ensures |probs| == |segments| + 1
    ensures (stt.decoder, text)
         == stt.decode(DecoderAfter(stt.decode, old(stt.decoder), probs[..|segments|]), probs[|segments|], true)
  {
    ghost var c1, c2, parts := stt.mfccStage.config, stt.rnnStage.config, Present(segments);
    probs := [];
    for k := 0 to |segments|
      invariant stt.Valid() && |probs| == k
      invariant (stt.mfccStage.Contents(), stt.rnnStage.Contents(), probs)
             == Chain(c1, c2, Fresh(c1), Fresh(c2), parts[..k])
      invariant stt.decoder == DecoderAfter(stt.decode, old(stt.decoder), probs)
    {
      ghost var (_, features) := Process(c1, stt.mfccStage.Contents(), parts[k], false);
      ghost var out := Process(c2, stt.rnnStage.Contents(), features, false).1;
      var _ := stt.RecognizeAudio(Some(segments[k]), 1, samplingRate, false);
      assert parts[..k + 1][..k] == parts[..k] && (probs + [out])[..k] == probs;
      probs := probs + [out];
    }
    assert parts[..|segments|] == parts;
    ChainInvariance(c1, c2, parts, None);
    PresentJoins(segments);
    ghost var (_, features) := Process(c1, stt.mfccStage.Contents(), None, true);
    ghost var out := Process(c2, stt.rnnStage.Contents(), features, true).1;
    var result := stt.RecognizeAudio(None, 1, samplingRate, true);
    assert (probs + [out])[..|segments|] == probs;
    probs := probs + [out];
    text := result.value;
  }

  /** More than a tenth below or above the model's rate. */
  predicate RateIsOff(samplingRate: real, modelSamplingRate: real)
    requires modelSamplingRate > 0.0
    ensures RateIsOff(samplingRate, modelSamplingRate)
       <==> samplingRate < 0.9 * modelSamplingRate || samplingRate > 1.1 * modelSamplingRate
  {
    QuotientOfRates(samplingRate, modelSamplingRate);
    var d := samplingRate / modelSamplingRate - 1.0;
    (if d < 0.0 then -d else d) > 0.1
  }
}
