/** A streaming stage that cuts a buffered stream into overlapping blocks. The
    output must not depend on how the stream was cut into chunks. */
module BlockedPipeline {
  import opened Wrappers
  import Arithmetic

  /** The parameters of a stage; `step` maps the carried state and one window to the
      next state and the block it emits. */
  datatype Config<!T, !U, !S> = Config(
    blockLen: nat, contextLen: nat, leftPaddingLen: nat, rightPaddingLen: nat,
    padding: T, cutAlignment: bool, start: S, step: (S, seq<T>) -> (S, seq<U>))
  {
    predicate Valid() { blockLen > 0 }

    function Window(): nat { blockLen + contextLen }
  }

  datatype State<T, S> = State(buffer: Option<seq<T>>, carried: S)

  function Fresh<T, U, S>(c: Config<T, U, S>): State<T, S> {
    State(None, c.start)
  }

  function Padding<T>(x: T, n: nat): seq<T> {
    seq(n, _ => x)
  }

  function Concat<T>(parts: seq<seq<T>>): seq<T> {
    if parts == [] then [] else Concat(parts[..|parts| - 1]) + parts[|parts| - 1]
  }

  /** The blocks emitted for every full window of the buffer, with the final carried state. */
  function Blocks<T, U, S>(c: Config<T, U, S>, carried: S, buffer: seq<T>): (S, seq<seq<U>>)
    requires c.Valid()
    decreases |buffer|
  {
    if |buffer| < c.Window() then (carried, [])
    else
      var (next, block) := c.step(carried, buffer[..c.Window()]);
      var (last, blocks) := Blocks(c, next, buffer[c.blockLen..]);
      (last, [block] + blocks)
  }

  /** What is left of the buffer once every full window has been taken. */
  function Rest<T, U, S>(c: Config<T, U, S>, buffer: seq<T>): (r: seq<T>)
    requires c.Valid()
    ensures |r| < c.Window()
    ensures |buffer| >= c.Window() ==> |r| >= c.contextLen
    decreases |buffer|
  {
    if |buffer| < c.Window() then buffer else Rest(c, buffer[c.blockLen..])
  }

  /** What is left is the end of the buffer. */
  lemma {:induction false} RestIsSuffix<T, U, S>(c: Config<T, U, S>, buffer: seq<T>)
    requires c.Valid()
    ensures |Rest(c, buffer)| <= |buffer| && Rest(c, buffer) == buffer[|buffer| - |Rest(c, buffer)|..]
    decreases |buffer|
  {
    if |buffer| >= c.Window() {
      RestIsSuffix(c, buffer[c.blockLen..]);
    }
  }

  /** How many zeros align the buffer to whole blocks. */
  function Alignment<T, U, S>(c: Config<T, U, S>, len: nat): (a: nat)
    requires c.Valid()
    ensures a < c.blockLen
    ensures (len + c.rightPaddingLen + a - c.contextLen) % c.blockLen == 0
  {
    var a := (-(len + c.rightPaddingLen - c.contextLen)) % c.blockLen;
    Arithmetic.NextMultiple(len + c.rightPaddingLen - c.contextLen, c.blockLen);
    a
  }

  /** Drops the last `n` elements, or all when there are fewer. */
  function DropLast<T>(s: seq<T>, n: nat): seq<T> {
    if n <= |s| then s[..|s| - n] else []
  }

  /** Drops the last `n` elements of the last block. */
  function CropLast<U>(blocks: seq<seq<U>>, n: nat): (r: seq<seq<U>>)
    requires blocks != []
    ensures |r| == |blocks|
  {
    blocks[|blocks| - 1 := DropLast(blocks[|blocks| - 1], n)]
  }

  /** The buffer after new data is accepted; the first data brings the left padding. */
  function Accept<T, U, S>(c: Config<T, U, S>, buffer: Option<seq<T>>, data: Option<seq<T>>): Option<seq<T>> {
    match data
    case None => buffer
    case Some(d) => Some((if buffer.None? then Padding(c.padding, c.leftPaddingLen) else buffer.value) + d)
  }

  /** The output of a finishing call: pads on the right, aligns to whole blocks, and
      crops the alignment again if the stage asks for that. */
  function Flush<T, U, S>(c: Config<T, U, S>, carried: S, buffer: seq<T>): Option<seq<U>>
    requires c.Valid()
  {
    FlushAligned(c, carried, buffer, Alignment(c, |buffer|))
  }

  function FlushAligned<T, U, S>(c: Config<T, U, S>, carried: S, buffer: seq<T>, align: nat): Option<seq<U>>
    requires c.Valid()
  {
    var full := buffer + Padding(c.padding, c.rightPaddingLen + align);
    if |full| < c.Window() then None
    else
      var blocks := Blocks(c, carried, full).1;
      Some(Concat(if c.cutAlignment && align > 0 then CropLast(blocks, align) else blocks))
  }

  /** One call of the stage: the next state and the output, if any. */
  function Process<T, U, S>(c: Config<T, U, S>, s: State<T, S>, data: Option<seq<T>>, finish: bool)
      : (State<T, S>, Option<seq<U>>)
    requires c.Valid()
  {
    var buffer := Accept(c, s.buffer, data);
    if buffer.None? then (s, None)
    else if !finish then
      if |buffer.value| < c.Window() then (State(buffer, s.carried), None)
      else
        var (carried, blocks) := Blocks(c, s.carried, buffer.value);
        (State(Some(Rest(c, buffer.value)), carried), Some(Concat(blocks)))
    else (Fresh(c), Flush(c, s.carried, buffer.value))
  }

  // ---------------------------------------------------------------------------
  // Whole runs
  // ---------------------------------------------------------------------------

  /** Concatenates what is present; nothing at all stays nothing. */
  function Joined<T>(parts: seq<Option<seq<T>>>): Option<seq<T>> {
    if parts == [] then None
    else Join(Joined(parts[..|parts| - 1]), parts[|parts| - 1])
  }

  function Join<T>(a: Option<seq<T>>, b: Option<seq<T>>): Option<seq<T>> {
    if a.None? then b else if b.None? then a else Some(a.value + b.value)
  }

  /** Feeds chunks without finishing. */
  function Feed<T, U, S>(c: Config<T, U, S>, s: State<T, S>, chunks: seq<Option<seq<T>>>)
      : (State<T, S>, seq<Option<seq<U>>>)
    requires c.Valid()
  {
    if chunks == [] then (s, [])
    else
      var (mid, outs) := Feed(c, s, chunks[..|chunks| - 1]);
      var (next, out) := Process(c, mid, chunks[|chunks| - 1], false);
      (next, outs + [out])
  }

  /** Feeds chunks and closes the stream with a last one. */
  function Stream<T, U, S>(c: Config<T, U, S>, chunks: seq<Option<seq<T>>>, last: Option<seq<T>>)
      : (State<T, S>, seq<Option<seq<U>>>)
    requires c.Valid()
  {
    var (mid, outs) := Feed(c, Fresh(c), chunks);
    var (end, out) := Process(c, mid, last, true);
    (end, outs + [out])
  }

  // ---------------------------------------------------------------------------
  // Windows over a concatenation
  // ---------------------------------------------------------------------------

  lemma {:induction false} RestOfConcat<T, U, S>(c: Config<T, U, S>, a: seq<T>, b: seq<T>)
    requires c.Valid()
    ensures Rest(c, a + b) == Rest(c, Rest(c, a) + b)
    decreases |a|
  {
    if |a| >= c.Window() {
      assert (a + b)[c.blockLen..] == a[c.blockLen..] + b;
      RestOfConcat(c, a[c.blockLen..], b);
    }
  }

  /** Taking windows can stop anywhere and go on later with what was left. */
  lemma {:induction false} BlocksOfConcat<T, U, S>(c: Config<T, U, S>, carried: S, a: seq<T>, b: seq<T>)
    requires c.Valid()
    ensures var (mid, first) := Blocks(c, carried, a);
            var (last, second) := Blocks(c, mid, Rest(c, a) + b);
            Blocks(c, carried, a + b) == (last, first + second)
    decreases |a|
  {
    if |a| >= c.Window() {
      assert (a + b)[c.blockLen..] == a[c.blockLen..] + b;
      assert (a + b)[..c.Window()] == a[..c.Window()];
      var (next, block) := c.step(carried, a[..c.Window()]);
      BlocksOfConcat(c, next, a[c.blockLen..], b);
      var (mid, first) := Blocks(c, next, a[c.blockLen..]);
      var (last, second) := Blocks(c, mid, Rest(c, a) + b);
      assert [block] + (first + second) == ([block] + first) + second;
    } else {
      var (last, second) := Blocks(c, carried, a + b);
      assert [] + second == second;
    }
  }

  lemma {:induction false} ConcatOfConcat<T>(a: seq<seq<T>>, b: seq<seq<T>>)
    ensures Concat(a + b) == Concat(a) + Concat(b)
  {
    if b == [] {
      assert a + b == a;
    } else {
      var front := b[..|b| - 1];
      assert (a + b)[..|a + b| - 1] == a + front;
      ConcatOfConcat(a, front);
    }
  }

  /** The buffer shrinks by whole blocks. */
  lemma {:induction false} RestAligned<T, U, S>(c: Config<T, U, S>, buffer: seq<T>) returns (k: nat)
    requires c.Valid()
    ensures |buffer| == |Rest(c, buffer)| + k * c.blockLen
    decreases |buffer|
  {
    if |buffer| < c.Window() {
      k := 0;
    } else {
      var less := RestAligned(c, buffer[c.blockLen..]);
      k := less + 1;
    }
  }

  lemma AlignmentIgnoresBlocks<T, U, S>(c: Config<T, U, S>, len: nat, k: nat)
    requires c.Valid()
    ensures Alignment(c, len + k * c.blockLen) == Alignment(c, len)
  {
    var x := -(len + c.rightPaddingLen - c.contextLen);
    Arithmetic.ModShift(x, 0 - k, c.blockLen);
    assert x + (0 - k) * c.blockLen == -(len + k * c.blockLen + c.rightPaddingLen - c.contextLen);
  }

  // ---------------------------------------------------------------------------
  // Chunk invariance
  // ---------------------------------------------------------------------------

  /** The stream as padded on the left. */
  function Padded<T, U, S>(c: Config<T, U, S>, data: seq<T>): seq<T> {
    Padding(c.padding, c.leftPaddingLen) + data
  }

  /** The output of the blocks so far: nothing until there is a block. */
  function Output<U>(blocks: seq<seq<U>>): Option<seq<U>> {
    if blocks == [] then None else Some(Concat(blocks))
  }

  /** After any chunks the stage holds exactly what one big chunk would have left. */
  lemma {:induction false} FeedIsBatch<T, U, S>(c: Config<T, U, S>, chunks: seq<Option<seq<T>>>)
    requires c.Valid()
    ensures var (mid, outs) := Feed(c, Fresh(c), chunks);
            match Joined(chunks)
            case None => mid == Fresh(c) && Joined(outs) == None
            case Some(data) =>
              var (carried, blocks) := Blocks(c, c.start, Padded(c, data));
              mid == State(Some(Rest(c, Padded(c, data))), carried) && Joined(outs) == Output(blocks)
  {
    if chunks != [] {
      FeedIsBatch(c, chunks[..|chunks| - 1]);
      var before, chunk := Joined(chunks[..|chunks| - 1]), chunks[|chunks| - 1];
      var (mid, outs) := Feed(c, Fresh(c), chunks[..|chunks| - 1]);
      var (next, out) := Process(c, mid, chunk, false);
      assert (outs + [out])[..|outs|] == outs;
      if chunk.Some? && before.Some? {
        FeedOneMore(c, before.value, chunk.value);
      } else if before.Some? {
        var p := Padded(c, before.value);
        FeedNothing(c, p);
      }
    }
  }

  /** An empty call changes nothing: what is left is less than a window. */
  lemma FeedNothing<T, U, S>(c: Config<T, U, S>, p: seq<T>)
    requires c.Valid()
    ensures Rest(c, Rest(c, p)) == Rest(c, p)
  {
  }

  /** One more chunk on top of `data`. */
  lemma FeedOneMore<T, U, S>(c: Config<T, U, S>, data: seq<T>, chunk: seq<T>)
    requires c.Valid()
    ensures var (carried, blocks) := Blocks(c, c.start, Padded(c, data));
            var (next, out) := Process(c, State(Some(Rest(c, Padded(c, data))), carried), Some(chunk), false);
            var (carried', blocks') := Blocks(c, c.start, Padded(c, data + chunk));
            next == State(Some(Rest(c, Padded(c, data + chunk))), carried')
            && Join(Output(blocks), out) == Output(blocks')
  {
    var p := Padded(c, data);
    assert Padded(c, data + chunk) == p + chunk;
    RestOfConcat(c, p, chunk);
    BlocksOfConcat(c, c.start, p, chunk);
    var (carried, blocks) := Blocks(c, c.start, p);
    var (carried', more) := Blocks(c, carried, Rest(c, p) + chunk);
    ConcatOfConcat(blocks, more);
    assert blocks + [] == blocks && [] + more == more;
  }

  /** The output of one call on the whole stream. */
  function Batch<T, U, S>(c: Config<T, U, S>, data: Option<seq<T>>): Option<seq<U>>
    requires c.Valid()
  {
    Process(c, Fresh(c), data, true).1
  }

  /** The blocks of the finishing call with a given alignment, against those of the whole. */
  ghost predicate Finishes<T, U, S>(c: Config<T, U, S>, p: seq<T>, more: seq<T>, align: nat)
    requires c.Valid()
  {
    var (carried, blocks) := Blocks(c, c.start, p);
    var left := Rest(c, p) + more;
    var zeros := Padding(c.padding, c.rightPaddingLen + align);
    var (_, rest) := Blocks(c, carried, left + zeros);
    var (_, whole) := Blocks(c, c.start, (p + more) + zeros);
    && whole == blocks + rest
    && (blocks != [] && rest == [] ==> align == 0)
    && (whole == [] <==> |(p + more) + zeros| < c.Window())
    && (rest == [] <==> |left + zeros| < c.Window())
    && (rest != [] ==> CropLast(whole, align) == blocks + CropLast(rest, align))
    && Concat(whole) == Concat(blocks) + Concat(rest)
    && (rest != [] ==> Concat(CropLast(whole, align)) == Concat(blocks) + Concat(CropLast(rest, align)))
  }

  lemma FinishedBlocks<T, U, S>(c: Config<T, U, S>, p: seq<T>, more: seq<T>)
    requires c.Valid()
    ensures var align := Alignment(c, |Rest(c, p) + more|);
            Alignment(c, |p + more|) == align && Finishes(c, p, more, align)
  {
    var left := Rest(c, p) + more;
    var align := Alignment(c, |left|);
    var k := RestAligned(c, p);
    AlignmentIgnoresBlocks(c, |left|, k);
    assert |p + more| == |left| + k * c.blockLen;
    if c.contextLen <= |left| && |left| + c.rightPaddingLen + align < c.Window() {
      LeftoverIsAligned(c, |left|, align);
    }
    FinishesWith(c, p, more, align);
  }

  lemma FinishesWith<T, U, S>(c: Config<T, U, S>, p: seq<T>, more: seq<T>, align: nat)
    requires c.Valid()
    requires var left := |Rest(c, p) + more|;
             c.contextLen <= left && left + c.rightPaddingLen + align < c.Window() ==> align == 0
    ensures Finishes(c, p, more, align)
  {
    var (carried, blocks) := Blocks(c, c.start, p);
    var left := Rest(c, p) + more;
    var zeros := Padding(c.padding, c.rightPaddingLen + align);
    var (_, rest) := Blocks(c, carried, left + zeros);
    BlocksOfSum(c, p, more, zeros);
    CroppedConcat(blocks, rest, align);
  }

  lemma BlocksOfSum<T, U, S>(c: Config<T, U, S>, p: seq<T>, more: seq<T>, zeros: seq<T>)
    requires c.Valid()
    ensures var (carried, blocks) := Blocks(c, c.start, p);
            Blocks(c, c.start, (p + more) + zeros).1 == blocks + Blocks(c, carried, (Rest(c, p) + more) + zeros).1
  {
    assert (p + more) + zeros == p + (more + zeros);
    assert (Rest(c, p) + more) + zeros == Rest(c, p) + (more + zeros);
    BlocksOfConcat(c, c.start, p, more + zeros);
  }

  /** Cropping the last block leaves the blocks in front of it alone. */
  lemma CroppedConcat<U>(blocks: seq<seq<U>>, rest: seq<seq<U>>, align: nat)
    ensures Concat(blocks + rest) == Concat(blocks) + Concat(rest)
    ensures rest != [] ==> CropLast(blocks + rest, align) == blocks + CropLast(rest, align)
    ensures rest != [] ==> Concat(CropLast(blocks + rest, align)) == Concat(blocks) + Concat(CropLast(rest, align))
  {
    ConcatOfConcat(blocks, rest);
    if rest != [] {
      ConcatOfConcat(blocks, CropLast(rest, align));
      assert CropLast(blocks + rest, align) == blocks + CropLast(rest, align);
    }
  }

  /** Finishing after some windows adds exactly what the output of the whole still misses. */
  lemma FlushIsBatch<T, U, S>(c: Config<T, U, S>, p: seq<T>, more: seq<T>)
    requires c.Valid()
    ensures var (carried, blocks) := Blocks(c, c.start, p);
            Join(Output(blocks), Flush(c, carried, Rest(c, p) + more)) == Flush(c, c.start, p + more)
  {
    FinishedBlocks(c, p, more);
    JoinsFlush(c, p, more, Alignment(c, |Rest(c, p) + more|));
  }

  lemma JoinsFlush<T, U, S>(c: Config<T, U, S>, p: seq<T>, more: seq<T>, align: nat)
    requires c.Valid() && Finishes(c, p, more, align)
    ensures var (carried, blocks) := Blocks(c, c.start, p);
            Join(Output(blocks), FlushAligned(c, carried, Rest(c, p) + more, align))
            == FlushAligned(c, c.start, p + more, align)
  {
    var (carried, blocks) := Blocks(c, c.start, p);
    assert Concat(blocks) + Concat([]) == Concat(blocks);
  }

  /** A context with nothing but alignment after it needs no alignment. */
  lemma LeftoverIsAligned<T, U, S>(c: Config<T, U, S>, len: nat, align: nat)
    requires c.Valid() && align == Alignment(c, len)
    requires c.contextLen <= len && len + c.rightPaddingLen + align < c.Window()
    ensures align == 0
  {
    var x := len + c.rightPaddingLen + align - c.contextLen;
    Arithmetic.DivModUnique(x, 0, x, c.blockLen);
  }

  /** Chunk invariance. However a stream is cut, the outputs of the calls join to the
      output of one finishing call on the whole stream, and the stage ends fresh. */
  lemma ChunkInvariance<T, U, S>(c: Config<T, U, S>, chunks: seq<Option<seq<T>>>, last: Option<seq<T>>)
    requires c.Valid()
    ensures var (end, outs) := Stream(c, chunks, last);
            end == Fresh(c) && Joined(outs) == Batch(c, Joined(chunks + [last]))
  {
    FeedIsBatch(c, chunks);
    var (mid, outs) := Feed(c, Fresh(c), chunks);
    var (end, out) := Process(c, mid, last, true);
    assert (chunks + [last])[..|chunks|] == chunks;
    assert (outs + [out])[..|outs|] == outs;
    if Joined(chunks).Some? {
      var p, more := Padded(c, Joined(chunks).value), if last.Some? then last.value else [];
      FlushIsBatch(c, p, more);
      assert Padded(c, Joined(chunks).value + more) == p + more;
      assert Rest(c, p) + [] == Rest(c, p) && p + [] == p;
    }
  }
}
