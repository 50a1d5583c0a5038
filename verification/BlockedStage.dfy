/** The stage object: a list of pending chunks, its length, and the carried state
    of the network, updated by every call. */
module BlockedStage {
  import opened Wrappers
  import opened BlockedPipeline

  class BlockedSeqPipelineStage<T, U, S> {
    const config: Config<T, U, S>
    /** None before the first data, a list of chunks afterwards. */
    var buffer: Option<seq<seq<T>>>
    var bufferLen: nat
    var carried: S

    ghost predicate Valid()
      reads this
    {
      && config.Valid()
      && bufferLen == (if buffer.None? then 0 else |Concat(buffer.value)|)
    }

    /** What the object stands for: the pending data and the carried state. */
    ghost function Contents(): State<T, S>
      reads this
    {
      State(if buffer.None? then None else Some(Concat(buffer.value)), carried)
    }

    constructor (config: Config<T, U, S>)
      requires config.Valid()
      ensures this.config == config && Valid() && Contents() == Fresh(config)
    {
      this.config := config;
      buffer := None;
      bufferLen := 0;
      carried := config.start;
    }

    method ResetState()
      requires Valid()
      modifies this
      ensures Valid() && Contents() == Fresh(config)
    {
      buffer := None;
      bufferLen := 0;
      carried := config.start;
    }

    /** Runs the step over every full window and says how much of the buffer is spent. */
    method ProcessBlocks(data: seq<T>) returns (processed: seq<seq<U>>, skip: nat)
      requires config.Valid() && |data| >= config.Window()
      modifies `carried
      ensures (carried, processed) == Blocks(config, old(carried), data)
      ensures skip <= |data| && data[skip..] == Rest(config, data)
    {
      processed := [];
      var startPos := config.contextLen;
      NothingDone(config, carried, data);
      while startPos + config.blockLen <= |data|
        invariant config.contextLen <= startPos <= |data|
        invariant Pending(config, carried, data, startPos - config.contextLen, processed)
               == (Blocks(config, old(carried), data), Rest(config, data))
      {
        NextWindow(config, carried, data, startPos - config.contextLen, processed);
        var (next, block) := config.step(carried, data[startPos - config.contextLen..startPos + config.blockLen]);
        carried := next;
        processed := processed + [block];
        startPos := startPos + config.blockLen;
      }
      skip := startPos - config.contextLen;
      AllDone(config, carried, data, skip, processed);
    }

    /** Accepts new data, emits every block it completes, and on `finish` pads, aligns,
        flushes and starts over. */
    method ProcessData(data: Option<seq<T>>, finish: bool) returns (output: Option<seq<U>>)
      requires Valid()
      modifies this
      ensures Valid()
      ensures (Contents(), output) == Process(config, old(Contents()), data, finish)
    {
      AcceptData(data);
      if buffer.None? { return None; }
      if finish {
        output := Finish();
      } else if bufferLen < config.Window() {
        output := None;
      } else {
        var joined := Concat(buffer.value);
        var processed, skip := ProcessBlocks(joined);
        buffer := Some([joined[skip..]]);
        bufferLen := |joined| - skip;
        assert Concat([joined[skip..]]) == joined[skip..];
        output := Some(Concat(processed));
      }
    }

    /** The finishing half of a call: right padding and alignment, the last blocks,
        the crop, and a fresh start. */
    method Finish() returns (output: Option<seq<U>>)
      requires Valid() && buffer.Some?
      modifies this
      ensures Valid() && Contents() == Fresh(config)
      ensures output == Flush(config, old(carried), old(Concat(buffer.value)))
    {
      var alignRightLen := Alignment(config, bufferLen);
      var padRightLen := config.rightPaddingLen + alignRightLen;
      if padRightLen > 0 {
        Append(Padding(config.padding, padRightLen));
      }
      var joined := Concat(buffer.value);
      assert joined == old(Concat(buffer.value)) + Padding(config.padding, padRightLen);
      if bufferLen < config.Window() {
        ResetState();
        return None;
      }
      var processed, skip := ProcessBlocks(joined);
      BlocksNonEmpty(config, old(carried), joined);
      ResetState();
      if config.cutAlignment && alignRightLen > 0 {
        processed := CropLast(processed, alignRightLen);
      }
      output := Some(Concat(processed));
    }

    method AcceptData(data: Option<seq<T>>)
      requires Valid()
      modifies `buffer, `bufferLen
      ensures Valid() && carried == old(carried)
      ensures Contents().buffer == Accept(config, old(Contents()).buffer, data)
    {
      if data.Some? {
        if buffer.None? {
          buffer := Some([]);
          if config.leftPaddingLen != 0 {
            Append(Padding(config.padding, config.leftPaddingLen));
          }
          assert Concat(buffer.value) == Padding(config.padding, config.leftPaddingLen);
        }
        Append(data.value);
      }
    }

    method Append(chunk: seq<T>)
      requires Valid() && buffer.Some?
      modifies `buffer, `bufferLen
      ensures Valid() && buffer.Some? && Concat(buffer.value) == old(Concat(buffer.value)) + chunk
    {
      var parts := buffer.value + [chunk];
      assert parts[..|parts| - 1] == buffer.value;
      buffer := Some(parts);
      bufferLen := bufferLen + |chunk|;
    }
  }

  /** What the loop will end with: the blocks done, then those of the data from `at`. */
  ghost function Pending<T, U, S>(c: Config<T, U, S>, carried: S, data: seq<T>, at: nat, done: seq<seq<U>>)
      : ((S, seq<seq<U>>), seq<T>)
    requires c.Valid() && at <= |data|
  {
    var (last, blocks) := Blocks(c, carried, data[at..]);
    ((last, done + blocks), Rest(c, data[at..]))
  }

  lemma NothingDone<T, U, S>(c: Config<T, U, S>, carried: S, data: seq<T>)
    requires c.Valid()
    ensures Pending(c, carried, data, 0, []) == (Blocks(c, carried, data), Rest(c, data))
  {
    assert data[0..] == data;
    var (last, blocks) := Blocks(c, carried, data);
    assert [] + blocks == blocks;
  }

  /** Taking one window moves one block from what is to come to what is done. */
  lemma NextWindow<T, U, S>(c: Config<T, U, S>, carried: S, data: seq<T>, at: nat, done: seq<seq<U>>)
    requires c.Valid() && at + c.Window() <= |data|
    ensures var (next, block) := c.step(carried, data[at..at + c.Window()]);
            Pending(c, carried, data, at, done) == Pending(c, next, data, at + c.blockLen, done + [block])
  {
    var left := data[at..];
    assert left[..c.Window()] == data[at..at + c.Window()];
    assert left[c.blockLen..] == data[at + c.blockLen..];
    var (next, block) := c.step(carried, left[..c.Window()]);
    var blocks := Blocks(c, next, left[c.blockLen..]).1;
    assert done + ([block] + blocks) == (done + [block]) + blocks;
  }

  lemma AllDone<T, U, S>(c: Config<T, U, S>, carried: S, data: seq<T>, at: nat, done: seq<seq<U>>)
    requires c.Valid() && at <= |data| < at + c.Window()
    ensures Pending(c, carried, data, at, done) == ((carried, done), data[at..])
  {
    assert done + [] == done;
  }

  lemma BlocksNonEmpty<T, U, S>(c: Config<T, U, S>, carried: S, data: seq<T>)
    requires c.Valid() && |data| >= c.Window()
    ensures Blocks(c, carried, data).1 != []
  {
  }
}
