/** What the recogniser's stages compute: every frame the network emits is that of the plain recurrence
    over all frames, each with its context, whatever the blocks, the padding and the cut of the stream. */
module SpeechMeaning {
  import opened Wrappers
  import opened BlockedPipeline
  import opened SpeechPipeline
  import Arithmetic
  import Sequences

  // ---------------------------------------------------------------------------
  // The recurrence
  // ---------------------------------------------------------------------------

  /** A recurrent cell run along `n` places of a sequence, with the next `width` elements at each. */
  ghost function Scan<T, U, S>(cell: (S, seq<T>) -> (S, U), s: S, data: seq<T>, width: nat, n: nat): (r: (S, seq<U>))
    requires n > 0 ==> n - 1 + width <= |data|
    ensures |r.1| == n
  {
    if n == 0 then (s, [])
    else
      var (mid, outs) := Scan(cell, s, data, width, n - 1);
      var (next, out) := cell(mid, data[n - 1..n - 1 + width]);
      (next, outs + [out])
  }

  /** The network takes a window place by place. */
  ghost predicate StepScans<T(!new), U, S(!new)>(c: Config<T, U, S>, cell: (S, seq<T>) -> (S, U)) {
    forall s: S, w: seq<T> :: |w| == c.Window() ==> TakesWindow(c, cell, s, w)
  }

  ghost predicate TakesWindow<T, U, S>(c: Config<T, U, S>, cell: (S, seq<T>) -> (S, U), s: S, w: seq<T>)
    requires |w| == c.Window()
  {
    c.step(s, w) == Scan(cell, s, w, c.contextLen + 1, c.blockLen)
  }

  /** So it does with every window of a buffer. */
  ghost predicate WindowsScan<T, U, S>(c: Config<T, U, S>, cell: (S, seq<T>) -> (S, U), s: S, buffer: seq<T>)
    requires c.Valid()
    decreases |buffer|
  {
    |buffer| >= c.Window() ==>
      && TakesWindow(c, cell, s, buffer[..c.Window()])
      && WindowsScan(c, cell, c.step(s, buffer[..c.Window()]).0, buffer[c.blockLen..])
  }

  lemma {:induction false} AllWindowsScan<T(!new), U, S(!new)>(c: Config<T, U, S>, cell: (S, seq<T>) -> (S, U), s: S,
                                                               buffer: seq<T>)
    requires c.Valid() && StepScans(c, cell)
    ensures WindowsScan(c, cell, s, buffer)
    decreases |buffer|
  {
    if |buffer| >= c.Window() {
      AllWindowsScan(c, cell, c.step(s, buffer[..c.Window()]).0, buffer[c.blockLen..]);
    }
  }

  /** Only the elements reached matter. */
  lemma {:induction false} ScanReaches<T, U, S>(cell: (S, seq<T>) -> (S, U), s: S, a: seq<T>, b: seq<T>, width: nat,
                                                n: nat)
    requires n > 0 ==> n - 1 + width <= |a| && n - 1 + width <= |b| && a[..n - 1 + width] == b[..n - 1 + width]
    ensures Scan(cell, s, a, width, n) == Scan(cell, s, b, width, n)
  {
    if n > 0 {
      assert n > 1 ==> a[..n - 2 + width] == a[..n - 1 + width][..n - 2 + width];
      assert n > 1 ==> b[..n - 2 + width] == b[..n - 1 + width][..n - 2 + width];
      ScanReaches(cell, s, a, b, width, n - 1);
      assert a[n - 1..n - 1 + width] == a[..n - 1 + width][n - 1..];
      assert b[n - 1..n - 1 + width] == b[..n - 1 + width][n - 1..];
    }
  }

  /** Running on from a place in between. */
  lemma {:induction false} ScanSplits<T, U, S>(cell: (S, seq<T>) -> (S, U), s: S, data: seq<T>, width: nat, m: nat,
                                               n: nat)
    requires m + n > 0 ==> m + n - 1 + width <= |data|
    requires width > 0
    ensures var (mid, first) := Scan(cell, s, data, width, m);
            var (end, second) := Scan(cell, mid, data[m..], width, n);
            Scan(cell, s, data, width, m + n) == (end, first + second)
  {
    var (mid, first) := Scan(cell, s, data, width, m);
    if n == 0 {
      assert first + [] == first;
    } else {
      Sequences.SliceOfSuffix(data, m, n - 1, n - 1 + width);
      ScanSplits(cell, s, data, width, m, n - 1);
      var (before, second) := Scan(cell, mid, data[m..], width, n - 1);
      var (end, out) := cell(before, data[m + n - 1..m + n - 1 + width]);
      Sequences.Associate(first, second, [out]);
    }
  }

  /** Running over `n` places ends in this state with these outputs. */
  ghost predicate Runs<T, U, S>(cell: (S, seq<T>) -> (S, U), s: S, data: seq<T>, width: nat, n: nat, end: S,
                                outs: seq<U>)
  {
    (n > 0 ==> n - 1 + width <= |data|) && (end, outs) == Scan(cell, s, data, width, n)
  }

  lemma RunsOn<T, U, S>(cell: (S, seq<T>) -> (S, U), s: S, data: seq<T>, width: nat, m: nat, n: nat, mid: S,
                        first: seq<U>, end: S, second: seq<U>)
    requires width > 0 && m <= |data| && m + n - 1 + width <= |data|
    requires Runs(cell, s, data, width, m, mid, first) && Runs(cell, mid, data[m..], width, n, end, second)
    ensures Runs(cell, s, data, width, m + n, end, first + second)
  {
    ScanSplits(cell, s, data, width, m, n);
  }

  /** Block by block is place by place. */
  lemma {:induction false} BlocksScan<T, U, S>(c: Config<T, U, S>, cell: (S, seq<T>) -> (S, U), s: S, buffer: seq<T>,
                                               k: nat)
      returns (end: S, blocks: seq<seq<U>>)
    requires c.Valid() && WindowsScan(c, cell, s, buffer) && |buffer| == c.contextLen + k * c.blockLen
    ensures (end, blocks) == Blocks(c, s, buffer)
    ensures 0 <= k * c.blockLen && |blocks| == k && forall i :: 0 <= i < k ==> |blocks[i]| == c.blockLen
    ensures Runs(cell, s, buffer, c.contextLen + 1, k * c.blockLen, end, Concat(blocks))
    decreases k
  {
    if k == 0 {
      end, blocks := s, [];
    } else {
      var n := (k - 1) * c.blockLen;
      assert k * c.blockLen == c.blockLen + n;
      Arithmetic.NonNegative(k - 1, c.blockLen);
      var next, block := FirstBlock(c, cell, s, buffer);
      var rest;
      end, rest := BlocksScan(c, cell, next, buffer[c.blockLen..], k - 1);
      blocks := [block] + rest;
      FirstAndRest(block, rest);
      RunsOn(cell, s, buffer, c.contextLen + 1, c.blockLen, n, next, block, end, Concat(rest));
    }
  }

  lemma FirstBlock<T, U, S>(c: Config<T, U, S>, cell: (S, seq<T>) -> (S, U), s: S, buffer: seq<T>)
      returns (next: S, block: seq<U>)
    requires c.Valid() && |buffer| >= c.Window() && TakesWindow(c, cell, s, buffer[..c.Window()])
    ensures (next, block) == c.step(s, buffer[..c.Window()])
    ensures Runs(cell, s, buffer, c.contextLen + 1, c.blockLen, next, block) && |block| == c.blockLen
  {
    var r := Scan(cell, s, buffer[..c.Window()], c.contextLen + 1, c.blockLen);
    next, block := r.0, r.1;
    ScanOfPrefix(cell, s, buffer, c.contextLen + 1, c.blockLen, c.Window());
  }

  lemma FirstAndRest<U>(block: seq<U>, rest: seq<seq<U>>)
    ensures Concat([block] + rest) == block + Concat(rest)
  {
    ConcatOfConcat([block], rest);
    assert [block][..0] == [] && [] + block == block;
  }

  lemma ScanOfPrefix<T, U, S>(cell: (S, seq<T>) -> (S, U), s: S, data: seq<T>, width: nat, n: nat, m: nat)
    requires n > 0 && n - 1 + width == m <= |data|
    ensures Scan(cell, s, data[..m], width, n) == Scan(cell, s, data, width, n)
  {
    assert data[..m][..m] == data[..m];
    ScanReaches(cell, s, data[..m], data, width, n);
  }

  /** The alignment is cut off the end. */
  lemma CropIsPrefix<U>(blocks: seq<seq<U>>, n: nat)
    requires blocks != [] && n <= |blocks[|blocks| - 1]|
    ensures |Concat(blocks)| >= n && Concat(CropLast(blocks, n)) == Concat(blocks)[..|Concat(blocks)| - n]
  {
    assert CropLast(blocks, n)[..|blocks| - 1] == blocks[..|blocks| - 1];
  }

  lemma {:induction false} ScanPrefix<T, U, S>(cell: (S, seq<T>) -> (S, U), s: S, data: seq<T>, width: nat, n: nat,
                                               m: nat)
    requires n <= m && (m > 0 ==> m - 1 + width <= |data|)
    ensures Scan(cell, s, data, width, n).1 == Scan(cell, s, data, width, m).1[..n]
    decreases m
  {
    if n < m { ScanPrefix(cell, s, data, width, n, m - 1); }
  }

  /** A finishing call that crops its alignment: the run over the stream, no frame of the alignment left. */
  lemma FlushScans<T, U, S>(c: Config<T, U, S>, cell: (S, seq<T>) -> (S, U), p: seq<T>, align: nat, k: nat, n: nat)
    requires c.Valid() && c.cutAlignment && align < c.blockLen
    requires WindowsScan(c, cell, c.start, p + Padding(c.padding, c.rightPaddingLen + align))
    requires |p| + c.rightPaddingLen - c.contextLen == n && n + align == k * c.blockLen && (k == 0 <==> n == 0)
    ensures var full := p + Padding(c.padding, c.rightPaddingLen + align);
            OrEmpty(FlushAligned(c, c.start, p, align)) == Scan(cell, c.start, full, c.contextLen + 1, n).1
  {
    var full := p + Padding(c.padding, c.rightPaddingLen + align);
    var end, blocks := BlocksScan(c, cell, c.start, full, k);
    if k > 0 { Arithmetic.Grows(k, c.blockLen); }
    FlushOfBlocks(c, cell, p, align, k, n);
  }

  lemma FlushOfBlocks<T, U, S>(c: Config<T, U, S>, cell: (S, seq<T>) -> (S, U), p: seq<T>, align: nat, k: nat, n: nat)
    requires c.Valid() && c.cutAlignment && align < c.blockLen && (k == 0 <==> n == 0)
    requires |p| + c.rightPaddingLen - c.contextLen == n && if k > 0 then n + align >= c.blockLen else align == 0
    requires var full := p + Padding(c.padding, c.rightPaddingLen + align);
             var blocks := Blocks(c, c.start, full).1;
             && |blocks| == k && (forall i :: 0 <= i < k ==> |blocks[i]| == c.blockLen)
             && Concat(blocks) == Scan(cell, c.start, full, c.contextLen + 1, n + align).1
    ensures var full := p + Padding(c.padding, c.rightPaddingLen + align);
            OrEmpty(FlushAligned(c, c.start, p, align)) == Scan(cell, c.start, full, c.contextLen + 1, n).1
  {
    var full := p + Padding(c.padding, c.rightPaddingLen + align);
    if k > 0 { CroppedScan(c, cell, full, align, n, Blocks(c, c.start, full).1); }
  }

  lemma CroppedScan<T, U, S>(c: Config<T, U, S>, cell: (S, seq<T>) -> (S, U), full: seq<T>, align: nat, n: nat,
                             blocks: seq<seq<U>>)
    requires blocks != [] && align <= |blocks[|blocks| - 1]|
    requires n + align > 0 ==> n + align - 1 + (c.contextLen + 1) <= |full|
    requires Concat(blocks) == Scan(cell, c.start, full, c.contextLen + 1, n + align).1
    ensures Concat(if align > 0 then CropLast(blocks, align) else blocks)
         == Scan(cell, c.start, full, c.contextLen + 1, n).1
  {
    CropIsPrefix(blocks, align);
    ScanPrefix(cell, c.start, full, c.contextLen + 1, n, n + align);
  }

  // ---------------------------------------------------------------------------
  // The network stage
  // ---------------------------------------------------------------------------

  /** Frame `i` with `half` frames on each side; zero stands for what is not there. */
  ghost function ContextOf<T>(frames: seq<T>, zero: T, half: nat, i: int): (w: seq<T>)
    ensures |w| == 2 * half + 1
  {
    seq(2 * half + 1, j requires 0 <= j < 2 * half + 1 =>
      if 0 <= i - half + j < |frames| then frames[i - half + j] else zero)
  }

  /** The carried state when frame `i` is reached. */
  ghost function StateAt<T, U, S>(cell: (S, seq<T>) -> (S, U), start: S, frames: seq<T>, zero: T, half: nat, i: nat): S
  {
    if i == 0 then start
    else cell(StateAt(cell, start, frames, zero, half, i - 1), ContextOf(frames, zero, half, i - 1)).0
  }

  /** What the cell emits for frame `i`. */
  ghost function OutputAt<T, U, S>(cell: (S, seq<T>) -> (S, U), start: S, frames: seq<T>, zero: T, half: nat, i: nat): U
  {
    cell(StateAt(cell, start, frames, zero, half, i), ContextOf(frames, zero, half, i)).1
  }

  /** The stream as the blocks see it. */
  ghost predicate PaddedOut<T>(full: seq<T>, frames: seq<T>, zero: T, half: nat) {
    && |full| >= |frames| + 2 * half
    && forall j :: 0 <= j < |full| ==> full[j] == if half <= j < half + |frames| then frames[j - half] else zero
  }

  lemma {:induction false} ScanIsRecurrence<T, U, S>(cell: (S, seq<T>) -> (S, U), start: S, full: seq<T>,
                                                     frames: seq<T>, zero: T, half: nat, n: nat)
    requires PaddedOut(full, frames, zero, half) && n <= |frames|
    ensures var (end, outs) := Scan(cell, start, full, 2 * half + 1, n);
            && end == StateAt(cell, start, frames, zero, half, n)
            && forall i :: 0 <= i < n ==> outs[i] == OutputAt(cell, start, frames, zero, half, i)
  {
    if n > 0 {
      ScanIsRecurrence(cell, start, full, frames, zero, half, n - 1);
      assert full[n - 1..n - 1 + (2 * half + 1)] == ContextOf(frames, zero, half, n - 1);
    }
  }

  /** What the network stage emits for a stream of frames. */
  ghost predicate IsRecurrence<T, U, S>(cell: (S, seq<T>) -> (S, U), start: S, zero: T, half: nat, frames: seq<T>,
                                        outs: seq<U>)
  {
    |outs| == |frames| && forall i :: 0 <= i < |outs| ==> outs[i] == OutputAt(cell, start, frames, zero, half, i)
  }

  lemma PaddingAround<T>(frames: seq<T>, zero: T, half: nat, right: nat)
    requires right >= half
    ensures PaddedOut(Padding(zero, half) + frames + Padding(zero, right), frames, zero, half)
  {
  }

  /** A stage that sees each position between equally many on both sides, finished. */
  lemma CentredBatch<T(!new), U, S(!new)>(c: Config<T, U, S>, cell: (S, seq<T>) -> (S, U), half: nat, frames: seq<T>)
    requires c.Valid() && StepScans(c, cell) && c.cutAlignment
    requires c.contextLen == 2 * half && c.leftPaddingLen == c.rightPaddingLen == half
    ensures IsRecurrence(cell, c.start, c.padding, half, frames, OrEmpty(Batch(c, Some(frames))))
  {
    var full := BatchScans(c, cell, frames, |frames|);
    PaddingAround(frames, c.padding, half, |full| - half - |frames|);
    ScanIsRecurrence(cell, c.start, full, frames, c.padding, half, |frames|);
  }

  lemma BatchScans<T(!new), U, S(!new)>(c: Config<T, U, S>, cell: (S, seq<T>) -> (S, U), data: seq<T>, n: nat)
      returns (full: seq<T>)
    requires c.Valid() && StepScans(c, cell) && c.cutAlignment
    requires n == c.leftPaddingLen + |data| + c.rightPaddingLen - c.contextLen
    ensures |full| >= c.leftPaddingLen + |data| + c.rightPaddingLen
    ensures full == Padded(c, data) + Padding(c.padding, |full| - c.leftPaddingLen - |data|)
    ensures OrEmpty(Batch(c, Some(data))) == Scan(cell, c.start, full, c.contextLen + 1, n).1
  {
    var p := Padded(c, data);
    var align := Alignment(c, |p|);
    var k := AlignedPayload(c, |p|, n);
    full := p + Padding(c.padding, c.rightPaddingLen + align);
    AllWindowsScan(c, cell, c.start, full);
    FlushScans(c, cell, p, align, k, n);
    assert Batch(c, Some(data)) == FlushAligned(c, c.start, p, align);
  }

  /** For every odd context, every network that takes its windows place by place, every stream and every cut
      of it: frame by frame the stage emits what the plain recurrence gives, each frame seen with half the
      context on each side and zeros beyond the ends of the stream. */
  lemma RnnIsRecurrence<T(!new), U, S(!new)>(numContextFrames: nat, zero: T, start: S,
                                             step: (S, seq<T>) -> (S, seq<U>), cell: (S, seq<T>) -> (S, U),
                                             chunks: seq<Option<seq<T>>>, last: Option<seq<T>>)
    requires numContextFrames % 2 == 1 && StepScans(RnnConfig(numContextFrames, zero, start, step), cell)
    ensures var c := RnnConfig(numContextFrames, zero, start, step);
            IsRecurrence(cell, start, zero, numContextFrames / 2, OrEmpty(Joined(chunks + [last])),
                         OrEmpty(Joined(Stream(c, chunks, last).1)))
  {
    ChunkInvariance(RnnConfig(numContextFrames, zero, start, step), chunks, last);
    var input := Joined(chunks + [last]);
    if input.Some? {
      CentredBatch(RnnConfig(numContextFrames, zero, start, step), cell, numContextFrames / 2, input.value);
    }
  }

  // ---------------------------------------------------------------------------
  // The feature stage
  // ---------------------------------------------------------------------------

  /** The samples of the window that begins at `at`; zero stands for those after the end. */
  ghost function WindowAt<T>(samples: seq<T>, zero: T, at: nat, windowLen: nat): (w: seq<T>)
    ensures |w| == windowLen
  {
    seq(windowLen, j requires 0 <= j < windowLen => if at + j < |samples| then samples[at + j] else zero)
  }

  /** One frame for each stride. */
  ghost predicate AreFeatures<T, U>(samples: seq<T>, windowLen: nat, strideLen: nat, zero: T, frame: seq<T> -> U,
                                    features: seq<U>)
  {
    forall i :: 0 <= i < |features| ==>
      0 <= i * strideLen && features[i] == frame(WindowAt(samples, zero, i * strideLen, windowLen))
  }

  lemma {:induction false} FramesAre<T, U>(samples: seq<T>, full: seq<T>, windowLen: nat, strideLen: nat, zero: T,
                                           frame: seq<T> -> U, count: nat)
    requires count > 0 ==> (count - 1) * strideLen + windowLen <= |full|
    requires |samples| <= |full| && full[..|samples|] == samples
    requires forall j :: |samples| <= j < |full| ==> full[j] == zero
    ensures AreFeatures(samples, windowLen, strideLen, zero, frame, Frames(full, windowLen, strideLen, frame, count))
  {
    if count > 0 {
      EarlierFits(count, strideLen, windowLen, |full|);
      FramesAre(samples, full, windowLen, strideLen, zero, frame, count - 1);
      var at := (count - 1) * strideLen;
      Arithmetic.NonNegative(count - 1, strideLen);
      assert full[at..at + windowLen] == WindowAt(samples, zero, at, windowLen);
    }
  }

  lemma AudioBatchFeatures<T, U>(windowLen: nat, strideLen: nat, zero: T, frame: seq<T> -> U, samples: seq<T>)
    requires 0 < strideLen <= windowLen
    ensures var features := OrEmpty(Batch(AudioConfig(windowLen, strideLen, zero, frame), Some(samples)));
            && |features| == FrameCount(|samples|, windowLen, strideLen)
            && AreFeatures(samples, windowLen, strideLen, zero, frame, features)
  {
    var c := AudioConfig(windowLen, strideLen, zero, frame);
    assert Padded(c, samples) == samples;
    var align := Alignment(c, |samples|);
    var full := samples + Padding(zero, align);
    var count := AlignedFrameCount(|samples|, align, windowLen, strideLen);
    AudioBatchCount(windowLen, strideLen, zero, frame, samples);
    if count > 0 {
      AudioBlocksAreFrames(full, windowLen, strideLen, zero, frame, count);
      FramesAre(samples, full, windowLen, strideLen, zero, frame, count);
    }
  }

  // ---------------------------------------------------------------------------
  // Both stages
  // ---------------------------------------------------------------------------

  /** Both stages in a row, however the audio is cut: one feature frame for each stride begun past the
      context, from the window of samples there, and for each of them what the recurrence over all feature
      frames gives. */
  lemma SpeechIsRecurrence<A, B(!new), C, S(!new)>(windowLen: nat, strideLen: nat, zero: A, frame: seq<A> -> B,
                                                   numContextFrames: nat, zeroFrame: B, start: S,
                                                   step: (S, seq<B>) -> (S, seq<C>), cell: (S, seq<B>) -> (S, C),
                                                   chunks: seq<Option<seq<A>>>, last: Option<seq<A>>)
      returns (features: seq<B>)
    requires 0 < strideLen <= windowLen && numContextFrames % 2 == 1
    requires StepScans(RnnConfig(numContextFrames, zeroFrame, start, step), cell)
    ensures var samples := OrEmpty(Joined(chunks + [last]));
            && |features| == FrameCount(|samples|, windowLen, strideLen)
            && AreFeatures(samples, windowLen, strideLen, zero, frame, features)
    ensures var c1 := AudioConfig(windowLen, strideLen, zero, frame);
            var c2 := RnnConfig(numContextFrames, zeroFrame, start, step);
            var (mid1, mid2, outs) := Chain(c1, c2, Fresh(c1), Fresh(c2), chunks);
            var out := Process(c2, mid2, Process(c1, mid1, last, true).1, true).1;
            IsRecurrence(cell, start, zeroFrame, numContextFrames / 2, features, OrEmpty(Joined(outs + [out])))
  {
    var c1 := AudioConfig(windowLen, strideLen, zero, frame);
    var c2 := RnnConfig(numContextFrames, zeroFrame, start, step);
    ChainInvariance(c1, c2, chunks, last);
    var samples := Joined(chunks + [last]);
    features := OrEmpty(Batch(c1, samples));
    if samples.Some? {
      AudioBatchFeatures(windowLen, strideLen, zero, frame, samples.value);
      if Batch(c1, samples).Some? {
        CentredBatch(c2, cell, numContextFrames / 2, features);
      }
    }
  }
}
