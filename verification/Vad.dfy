/** The speech segmenter of the microphone thread. */
module Vad {
  import opened Arithmetic

  /** One block of audio and what the voice detector says of it. */
  datatype Frame = Frame(bytes: seq<int>, speech: bool)

  /** What one turn of the loop meets. */
  datatype Event = Timeout | Stopped | Arrived(frame: Frame)

  /** What the generator yields: a frame, or the marker that ends an utterance. */
  datatype Output = Voice(frame: Frame) | Marker

  /** The size of the ring and the count of frames in it that has to be exceeded. */
  datatype Detector = Detector(ringLength: nat, bar: real) {
    predicate Exceeds(count: nat) {
      count as real > bar
    }
  }

  function Configured(paddingMs: nat, frameMs: nat, ratio: real): (d: Detector)
    requires frameMs > 0
    ensures d.ringLength == 0 ==> d.bar == 0.0
  {
    var n := paddingMs / frameMs;
    Detector(n, ratio * (n as real))
  }

  /** The frames the loop looks at: up to a stop or a short frame. */
  function Accepted(events: seq<Event>): seq<Frame> {
    if events == [] then []
    else match events[0]
      case Stopped => []
      case Timeout => Accepted(events[1..])
      case Arrived(f) => if |f.bytes| < 640 then [] else [f] + Accepted(events[1..])
  }

  function Count(frames: seq<Frame>, speech: bool): (n: nat)
    ensures n <= |frames|
  {
    if frames == [] then 0
    else Count(frames[..|frames| - 1], speech) + if frames[|frames| - 1].speech == speech then 1 else 0
  }

  /** Those of the frames `[s..end)` that are among its last `n`. */
  function LastOf(frames: seq<Frame>, s: nat, end: nat, n: nat): (w: seq<Frame>)
    requires s <= end <= |frames|
    ensures |w| <= n
  {
    frames[Max(s, end - n)..end]
  }

  // ---------------------------------------------------------------------------
  // What an utterance is
  // ---------------------------------------------------------------------------

  /** For a ring that was empty before frame `s`: is it loud, is it hushed, with frame `t` in it? */
  datatype Tests = Tests(ringLength: nat, loud: (nat, nat) -> bool, hushed: (nat, nat) -> bool)

  /** The places of `[s..end)`, and of the last `n` before `end`, that hold voiced or unvoiced frames. */
  ghost function Among(frames: seq<Frame>, s: nat, end: nat, n: nat, speech: bool): set<int> {
    set i: int | 0 <= i < |frames| && s <= i < end && end - n <= i && frames[i].speech == speech
  }

  /** The ring is loud when more than the bar of the last frames are voiced, hushed when more are not. */
  ghost function TestsOf(d: Detector, frames: seq<Frame>): Tests {
    Tests(d.ringLength,
      (s: nat, t: nat) => s <= t < |frames| && |Among(frames, s, t + 1, d.ringLength, true)| as real > d.bar,
      (s: nat, t: nat) => s <= t < |frames| && |Among(frames, s, t + 1, d.ringLength, false)| as real > d.bar)
  }

  /** Counting through a stretch of frames gives the number of its places that hold such a frame. */
  lemma {:induction false} CountIsAmong(frames: seq<Frame>, from: nat, end: nat, speech: bool)
    requires from <= end <= |frames|
    ensures Count(frames[from..end], speech) == |Among(frames, from, end, end - from, speech)|
  {
    if from == end {
      assert Among(frames, from, end, 0, speech) == {};
    } else {
      CountIsAmong(frames, from, end - 1, speech);
      assert frames[from..end][..end - 1 - from] == frames[from..end - 1];
      AmongNext(frames, from, end - 1, speech);
    }
  }

  lemma AmongNext(frames: seq<Frame>, from: nat, end: nat, speech: bool)
    requires from <= end < |frames|
    ensures |Among(frames, from, end + 1, end + 1 - from, speech)|
         == |Among(frames, from, end, end - from, speech)| + if frames[end].speech == speech then 1 else 0
  {
    var before := Among(frames, from, end, end - from, speech);
    assert end !in before;
    assert Among(frames, from, end + 1, end + 1 - from, speech)
        == before + if frames[end].speech == speech then {end} else {};
  }

  lemma CountOfLast(frames: seq<Frame>, s: nat, end: nat, n: nat, speech: bool)
    requires s <= end <= |frames|
    ensures Count(LastOf(frames, s, end, n), speech) == |Among(frames, s, end, n, speech)|
  {
    var from := Max(s, end - n);
    CountIsAmong(frames, from, end, speech);
    assert Among(frames, from, end, end - from, speech) == Among(frames, s, end, n, speech);
  }

  /**
    * Listening starts at `wait`; frame `trigger` is the first that makes the ring loud; the
    * utterance is `[from..end)`, closed by the first frame that makes the ring hushed.
    */
  datatype Utterance = Utterance(wait: nat, from: nat, trigger: nat, end: nat, closed: bool)

  ghost predicate QuietUntil(tests: Tests, s: nat, end: nat) {
    forall t: nat :: s <= t < end ==> !tests.loud(s, t)
  }

  ghost predicate SpeechUntil(tests: Tests, s: nat, end: nat) {
    forall t: nat :: s <= t < end ==> !tests.hushed(s, t)
  }

  ghost predicate Heard(tests: Tests, n: nat, u: Utterance) {
    && u.wait <= u.from <= u.trigger < u.end <= n
    && u.from == Max(u.wait, u.trigger + 1 - tests.ringLength)
    && tests.loud(u.wait, u.trigger) && QuietUntil(tests, u.wait, u.trigger)
    && (u.closed ==> u.trigger + 1 < u.end && tests.hushed(u.trigger + 1, u.end - 1))
    && SpeechUntil(tests, u.trigger + 1, if u.closed then u.end - 1 else u.end)
  }

  function Start(utts: seq<Utterance>, k: nat): nat
    requires k <= |utts|
  {
    if k == 0 then 0 else utts[k - 1].end
  }

  predicate Listening(utts: seq<Utterance>) {
    utts == [] || utts[|utts| - 1].closed
  }

  ghost predicate AllHeard(tests: Tests, n: nat, utts: seq<Utterance>) {
    forall k :: 0 <= k < |utts| ==> Heard(tests, n, utts[k])
  }

  /** Listening resumes where the utterance before ended; only the last can be open. */
  ghost predicate Chained(utts: seq<Utterance>) {
    && (forall k {:trigger Start(utts, k)} :: 0 <= k < |utts| ==> utts[k].wait == Start(utts, k))
    && (forall k :: 0 <= k < |utts| - 1 ==> utts[k].closed)
  }

  /** The utterances of the first `n` frames, one after the other, and nothing left to hear. */
  ghost predicate IsSegmentation(tests: Tests, n: nat, utts: seq<Utterance>) {
    && AllHeard(tests, n, utts) && Chained(utts)
    && if Listening(utts) then QuietUntil(tests, Start(utts, |utts|), n)
       else utts[|utts| - 1].end == n
  }

  function Voices(frames: seq<Frame>): (r: seq<Output>)
    ensures |r| == |frames|
  {
    seq(|frames|, i requires 0 <= i < |frames| => Voice(frames[i]))
  }

  ghost predicate InBounds(utts: seq<Utterance>, n: nat) {
    forall k :: 0 <= k < |utts| ==> utts[k].from <= utts[k].end <= n
  }

  /** Each utterance in turn, a marker after each closed one. */
  ghost function Collected(frames: seq<Frame>, utts: seq<Utterance>): seq<Output>
    requires InBounds(utts, |frames|)
  {
    if utts == [] then []
    else
      var u := utts[|utts| - 1];
      Collected(frames, utts[..|utts| - 1]) + Voices(frames[u.from..u.end]) + if u.closed then [Marker] else []
  }

  // ---------------------------------------------------------------------------
  // One more frame
  // ---------------------------------------------------------------------------

  /** Where the ring was last empty. */
  function RingStart(utts: seq<Utterance>): nat {
    if Listening(utts) then Start(utts, |utts|) else utts[|utts| - 1].trigger + 1
  }

  /** Still listening. */
  lemma StaysQuiet(tests: Tests, n: nat, utts: seq<Utterance>)
    requires IsSegmentation(tests, n, utts) && Listening(utts) && !tests.loud(Start(utts, |utts|), n)
    ensures IsSegmentation(tests, n + 1, utts)
  {
    assert forall k :: 0 <= k < |utts| ==> Heard(tests, n, utts[k]) ==> Heard(tests, n + 1, utts[k]);
  }

  lemma ChainedAppend(utts: seq<Utterance>, u: Utterance)
    requires Chained(utts) && Listening(utts) && u.wait == Start(utts, |utts|)
    ensures Chained(utts + [u])
  {
    assert forall k :: 0 <= k <= |utts| ==> Start(utts + [u], k) == Start(utts, k);
  }

  lemma ChainedReplace(utts: seq<Utterance>, u: Utterance)
    requires Chained(utts) && utts != [] && u.wait == utts[|utts| - 1].wait
    ensures Chained(utts[..|utts| - 1] + [u])
  {
    var front := utts[..|utts| - 1];
    assert forall k :: 0 <= k < |utts| ==> Start(front + [u], k) == Start(utts, k);
  }

  lemma AllHeardAppend(tests: Tests, n: nat, utts: seq<Utterance>, u: Utterance)
    requires AllHeard(tests, n, utts) && Heard(tests, n + 1, u)
    ensures AllHeard(tests, n + 1, utts + [u])
  {
    forall k | 0 <= k < |utts| ensures Heard(tests, n + 1, utts[k]) {
      assert Heard(tests, n, utts[k]);
    }
  }

  function Opened(tests: Tests, n: nat, wait: nat): Utterance
    requires wait <= n && tests.ringLength > 0
  {
    Utterance(wait, Max(wait, n + 1 - tests.ringLength), n, n + 1, false)
  }

  function Extended(tests: Tests, n: nat, last: Utterance): Utterance {
    last.(end := n + 1, closed := tests.hushed(last.trigger + 1, n))
  }

  /** A new utterance begins with what is in the ring. */
  lemma Begins(tests: Tests, n: nat, utts: seq<Utterance>)
    requires IsSegmentation(tests, n, utts) && Listening(utts) && Start(utts, |utts|) <= n
    requires tests.loud(Start(utts, |utts|), n) && tests.ringLength > 0
    ensures IsSegmentation(tests, n + 1, utts + [Opened(tests, n, Start(utts, |utts|))])
  {
    var u := Opened(tests, n, Start(utts, |utts|));
    AllHeardAppend(tests, n, utts, u);
    ChainedAppend(utts, u);
  }

  /** One more frame of the open utterance, which may be its last. */
  lemma GoesOn(tests: Tests, n: nat, utts: seq<Utterance>)
    requires IsSegmentation(tests, n, utts) && !Listening(utts)
    ensures IsSegmentation(tests, n + 1, utts[..|utts| - 1] + [Extended(tests, n, utts[|utts| - 1])])
  {
    var last := utts[|utts| - 1];
    var u := Extended(tests, n, last);
    assert Heard(tests, n, last);
    HeardGoesOn(tests, n, last);
    AllHeardAppend(tests, n, utts[..|utts| - 1], u);
    ChainedReplace(utts, u);
  }

  lemma HeardGoesOn(tests: Tests, n: nat, last: Utterance)
    requires Heard(tests, n, last) && !last.closed && last.end == n
    ensures Heard(tests, n + 1, Extended(tests, n, last))
  {
  }

  lemma CollectedBegins(frames: seq<Frame>, utts: seq<Utterance>, u: Utterance)
    requires InBounds(utts, |frames|) && u.from <= u.end <= |frames| && !u.closed
    ensures InBounds(utts + [u], |frames|)
    ensures Collected(frames, utts + [u]) == Collected(frames, utts) + Voices(frames[u.from..u.end])
  {
    assert (utts + [u])[..|utts|] == utts;
  }

  lemma CollectedGoesOn(frames: seq<Frame>, utts: seq<Utterance>, u: Utterance)
    requires InBounds(utts, |frames|) && utts != []
    requires var last := utts[|utts| - 1];
             !last.closed && u.from == last.from && u.end == last.end + 1 <= |frames|
    ensures var utts' := utts[..|utts| - 1] + [u];
            && InBounds(utts', |frames|)
            && Collected(frames, utts')
               == Collected(frames, utts) + [Voice(frames[u.end - 1])] + if u.closed then [Marker] else []
  {
    var front, last := utts[..|utts| - 1], utts[|utts| - 1];
    assert (front + [u])[..|front|] == front;
    assert frames[u.from..u.end] == frames[last.from..last.end] + [frames[last.end]];
    assert Voices(frames[u.from..u.end]) == Voices(frames[last.from..last.end]) + [Voice(frames[last.end])];
  }

  // ---------------------------------------------------------------------------
  // The loop
  // ---------------------------------------------------------------------------

  /** A deque of bounded length drops its oldest entry to take a new one. */
  function Push(ring: seq<Frame>, f: Frame, n: nat): seq<Frame> {
    var r := ring + [f];
    if |r| > n then r[1..] else r
  }

  lemma PushIsLastOf(frames: seq<Frame>, s: nat, t: nat, n: nat)
    requires s <= t < |frames|
    ensures Push(LastOf(frames, s, t, n), frames[t], n) == LastOf(frames, s, t + 1, n)
  {
  }

  /** The loop's tests of its ring are the tests the utterances are made of. */
  lemma TestsAre(d: Detector, frames: seq<Frame>, s: nat, t: nat)
    requires s <= t < |frames|
    ensures TestsOf(d, frames).loud(s, t) == d.Exceeds(Count(LastOf(frames, s, t + 1, d.ringLength), true))
    ensures TestsOf(d, frames).hushed(s, t) == d.Exceeds(Count(LastOf(frames, s, t + 1, d.ringLength), false))
  {
    CountOfLast(frames, s, t + 1, d.ringLength, true);
    CountOfLast(frames, s, t + 1, d.ringLength, false);
  }

  predicate Usable(event: Event) {
    event.Arrived? && |event.frame.bytes| >= 640
  }

  /** What one event does to the frames still to come. */
  lemma NextAccepted(events: seq<Event>, i: nat, frames: seq<Frame>, n: nat)
    requires i < |events| && n <= |frames| && frames[n..] == Accepted(events[i..])
    ensures if Usable(events[i]) then
              n < |frames| && frames[n] == events[i].frame && frames[n + 1..] == Accepted(events[i + 1..])
            else if events[i] == Timeout then frames[n..] == Accepted(events[i + 1..])
            else n == |frames|
  {
    assert events[i..][1..] == events[i + 1..];
    if n < |frames| {
      assert frames[n..][0] == frames[n] && frames[n..][1..] == frames[n + 1..];
    }
  }

  /** What the loop knows after `n` frames. */
  ghost predicate State(d: Detector, frames: seq<Frame>, n: nat, utts: seq<Utterance>,
                        triggered: bool, ring: seq<Frame>, out: seq<Output>) {
    && n <= |frames| && IsSegmentation(TestsOf(d, frames), n, utts)
    && InBounds(utts, |frames|) && out == Collected(frames, utts)
    && triggered == !Listening(utts)
    && RingStart(utts) <= n && ring == LastOf(frames, RingStart(utts), n, d.ringLength)
  }

  /** The ring is empty after a trigger and after a marker. */
  lemma RingAfter(frames: seq<Frame>, utts: seq<Utterance>, u: Utterance, n: nat)
    requires u.trigger < u.end <= |frames|
    ensures Listening(utts + [u]) == u.closed
    ensures RingStart(utts + [u]) == if u.closed then u.end else u.trigger + 1
    ensures LastOf(frames, u.end, u.end, n) == []
  {
  }

  lemma KeepsListening(d: Detector, frames: seq<Frame>, n: nat, utts: seq<Utterance>, ring: seq<Frame>,
                       out: seq<Output>)
    requires n < |frames| && State(d, frames, n, utts, false, ring, out)
    requires !d.Exceeds(Count(Push(ring, frames[n], d.ringLength), true))
    ensures State(d, frames, n + 1, utts, false, Push(ring, frames[n], d.ringLength), out)
  {
    PushIsLastOf(frames, RingStart(utts), n, d.ringLength);
    TestsAre(d, frames, RingStart(utts), n);
    StaysQuiet(TestsOf(d, frames), n, utts);
  }

  /** What is flushed is the start of the utterance. */
  lemma FlushIsStart(frames: seq<Frame>, tests: Tests, wait: nat, n: nat)
    requires wait <= n < |frames| && tests.ringLength > 0
    ensures var u := Opened(tests, n, wait);
            u.from <= u.end <= |frames| && LastOf(frames, wait, n + 1, tests.ringLength) == frames[u.from..u.end]
  {
  }

  lemma LoudNeedsARing(d: Detector, ring: seq<Frame>, f: Frame)
    requires |ring| <= d.ringLength && (d.ringLength == 0 ==> d.bar == 0.0)
    requires d.Exceeds(Count(Push(ring, f, d.ringLength), true))
    ensures d.ringLength > 0
  {
  }

  lemma Triggers(d: Detector, frames: seq<Frame>, n: nat, utts: seq<Utterance>, ring: seq<Frame>, out: seq<Output>)
      returns (utts': seq<Utterance>)
    requires n < |frames| && State(d, frames, n, utts, false, ring, out) && (d.ringLength == 0 ==> d.bar == 0.0)
    requires d.Exceeds(Count(Push(ring, frames[n], d.ringLength), true))
    ensures State(d, frames, n + 1, utts', true, [], out + Voices(Push(ring, frames[n], d.ringLength)))
  {
    var tests, wait := TestsOf(d, frames), Start(utts, |utts|);
    LoudNeedsARing(d, ring, frames[n]);
    var u := Opened(tests, n, wait);
    FlushIsStart(frames, tests, wait, n);
    PushIsLastOf(frames, wait, n, d.ringLength);
    TestsAre(d, frames, wait, n);
    Begins(tests, n, utts);
    CollectedBegins(frames, utts, u);
    RingAfter(frames, utts, u, d.ringLength);
    utts' := utts + [u];
  }

  lemma KeepsTalking(d: Detector, frames: seq<Frame>, n: nat, utts: seq<Utterance>, ring: seq<Frame>, out: seq<Output>)
      returns (utts': seq<Utterance>)
    requires n < |frames| && State(d, frames, n, utts, true, ring, out)
    ensures var ring' := Push(ring, frames[n], d.ringLength);
            if d.Exceeds(Count(ring', false)) then
              State(d, frames, n + 1, utts', false, [], out + [Voice(frames[n])] + [Marker])
            else
              State(d, frames, n + 1, utts', true, ring', out + [Voice(frames[n])])
  {
    var tests, last := TestsOf(d, frames), utts[|utts| - 1];
    var u := Extended(tests, n, last);
    PushIsLastOf(frames, RingStart(utts), n, d.ringLength);
    TestsAre(d, frames, RingStart(utts), n);
    GoesOn(tests, n, utts);
    CollectedGoesOn(frames, utts, u);
    RingAfter(frames, utts[..|utts| - 1], u, d.ringLength);
    utts' := utts[..|utts| - 1] + [u];
  }

  /** The output is that of the utterances, of which there is one choice only. */
  ghost predicate Yields(d: Detector, frames: seq<Frame>, utts: seq<Utterance>, out: seq<Output>) {
    && IsSegmentation(TestsOf(d, frames), |frames|, utts)
    && InBounds(utts, |frames|) && out == Collected(frames, utts)
  }

  method VadCollector(d: Detector, events: seq<Event>) returns (out: seq<Output>)
    requires d.ringLength == 0 ==> d.bar == 0.0
    ensures exists utts :: Yields(d, Accepted(events), utts, out)
  {
    var triggered, ring := false, [];
    ghost var frames, n := Accepted(events), 0;
    ghost var utts: seq<Utterance> := [];
    out := [];
    var i := 0;
    assert events[0..] == events && frames[0..] == frames;
    while i < |events|
      invariant 0 <= i <= |events| && n <= |frames|
      invariant frames[n..] == Accepted(events[i..])
      invariant State(d, frames, n, utts, triggered, ring, out)
    {
      var event := events[i];
      NextAccepted(events, i, frames, n);
      i := i + 1;
      if event == Stopped {
        break;
      }
      if event == Timeout {
        continue;
      }
      var frame := event.frame;
      if |frame.bytes| < 640 {
        break;
      }
      ghost var before, yielded := ring, out;
      ring := Push(ring, frame, d.ringLength);
      if !triggered {
        if d.Exceeds(Count(ring, true)) {
          triggered := true;
          out := out + Voices(ring);
          ring := [];
          utts := Triggers(d, frames, n, utts, before, yielded);
        } else {
          KeepsListening(d, frames, n, utts, before, yielded);
        }
      } else {
        out := out + [Voice(frame)];
        utts := KeepsTalking(d, frames, n, utts, before, yielded);
        if d.Exceeds(Count(ring, false)) {
          triggered := false;
          out := out + [Marker];
          ring := [];
        }
      }
      n := n + 1;
    }
    assert Yields(d, frames, utts, out);
  }

  // ---------------------------------------------------------------------------
  // What the utterances are like
  // ---------------------------------------------------------------------------

  /** A closed utterance, or an open one that reaches the last frame, is fixed by where it was waited for. */
  lemma HeardIsUnique(tests: Tests, n: nat, u: Utterance, v: Utterance)
    requires Heard(tests, n, u) && Heard(tests, n, v) && u.wait == v.wait
    requires (u.closed || u.end == n) && (v.closed || v.end == n)
    ensures u == v
  {
    assert u.trigger < v.trigger ==> !tests.loud(u.wait, u.trigger);
    assert v.trigger < u.trigger ==> !tests.loud(u.wait, v.trigger);
  }

  lemma {:induction false} PrefixesAgree(tests: Tests, n: nat, a: seq<Utterance>, b: seq<Utterance>, k: nat)
    requires IsSegmentation(tests, n, a) && IsSegmentation(tests, n, b) && k <= |a| && k <= |b|
    ensures a[..k] == b[..k]
  {
    if k > 0 {
      PrefixesAgree(tests, n, a, b, k - 1);
      assert k > 1 ==> a[..k - 1][k - 2] == b[..k - 1][k - 2];
      assert a[k - 1].wait == Start(a, k - 1) == Start(b, k - 1) == b[k - 1].wait;
      HeardIsUnique(tests, n, a[k - 1], b[k - 1]);
      assert a[..k] == a[..k - 1] + [a[k - 1]] && b[..k] == b[..k - 1] + [b[k - 1]];
    }
  }

  /** Where one list of utterances ends, another cannot go on. */
  lemma LastCannotFollow(tests: Tests, n: nat, a: seq<Utterance>, b: seq<Utterance>)
    requires IsSegmentation(tests, n, b) && |a| < |b| && a == b[..|a|]
    ensures !IsSegmentation(tests, n, a)
  {
    var m := |a|;
    assert b[m].wait == Start(b, m) == Start(a, m);
    assert Heard(tests, n, b[m]) && tests.loud(b[m].wait, b[m].trigger);
    assert m > 0 ==> a[m - 1] == b[m - 1] && b[m - 1].closed;
  }

  lemma NotShorter(tests: Tests, n: nat, a: seq<Utterance>, b: seq<Utterance>)
    requires IsSegmentation(tests, n, a) && IsSegmentation(tests, n, b)
    ensures |a| >= |b|
  {
    if |a| < |b| {
      var m := |a|;
      PrefixesAgree(tests, n, a, b, m);
      LastCannotFollow(tests, n, a, b);
      assert false;
    }
  }

  /** The frames and the tests leave no choice of utterances. */
  lemma SegmentationIsUnique(tests: Tests, n: nat, a: seq<Utterance>, b: seq<Utterance>)
    requires IsSegmentation(tests, n, a) && IsSegmentation(tests, n, b)
    ensures a == b
  {
    NotShorter(tests, n, a, b);
    NotShorter(tests, n, b, a);
    PrefixesAgree(tests, n, a, b, |a|);
    assert a[..|a|] == a && b[..|b|] == b;
  }

  /** Hence one output only. */
  lemma OutputIsUnique(d: Detector, frames: seq<Frame>, a: seq<Utterance>, out: seq<Output>, b: seq<Utterance>,
                       out': seq<Output>)
    requires Yields(d, frames, a, out) && Yields(d, frames, b, out')
    ensures a == b && out == out'
  {
    SegmentationIsUnique(TestsOf(d, frames), |frames|, a, b);
  }

  function Range(from: nat, end: nat): (r: seq<nat>)
    requires from <= end
    ensures |r| == end - from
  {
    seq(end - from, i => from + i)
  }

  /** The places, in the input, of the frames yielded. */
  ghost function Spoken(utts: seq<Utterance>): seq<nat>
    requires forall k :: 0 <= k < |utts| ==> utts[k].from <= utts[k].end
  {
    if utts == [] then []
    else Spoken(utts[..|utts| - 1]) + Range(utts[|utts| - 1].from, utts[|utts| - 1].end)
  }

  ghost function WithoutMarkers(out: seq<Output>): seq<Frame> {
    if out == [] then []
    else
      var last := out[|out| - 1];
      WithoutMarkers(out[..|out| - 1]) + if last.Voice? then [last.frame] else []
  }

  lemma {:induction false} WithoutMarkersConcat(a: seq<Output>, b: seq<Output>)
    ensures WithoutMarkers(a + b) == WithoutMarkers(a) + WithoutMarkers(b)
  {
    if b == [] {
      assert a + b == a;
    } else {
      assert (a + b)[..|a + b| - 1] == a + b[..|b| - 1];
      WithoutMarkersConcat(a, b[..|b| - 1]);
    }
  }

  lemma {:induction false} VoicesUnmarked(frames: seq<Frame>)
    ensures WithoutMarkers(Voices(frames)) == frames
  {
    if frames != [] {
      var front := frames[..|frames| - 1];
      VoicesUnmarked(front);
      assert Voices(frames)[..|frames| - 1] == Voices(front);
    }
  }

  /** Strictly increasing places, all before `end`. */
  ghost predicate Increasing(places: seq<nat>, end: nat) {
    && (forall i, j :: 0 <= i < j < |places| ==> places[i] < places[j])
    && (forall i :: 0 <= i < |places| ==> places[i] < end)
  }

  lemma IncreasingConcat(places: seq<nat>, from: nat, end: nat)
    requires Increasing(places, from) && from <= end
    ensures Increasing(places + Range(from, end), end)
  {
    var r := places + Range(from, end);
    assert forall i :: |places| <= i < |r| ==> r[i] == from + (i - |places|);
    assert forall i :: 0 <= i < |places| ==> r[i] == places[i] < from;
  }

  lemma IncreasingLater(places: seq<nat>, end: nat, later: nat)
    requires Increasing(places, end) && end <= later
    ensures Increasing(places, later)
  {
  }

  lemma {:induction false} PlacesIncrease(tests: Tests, n: nat, utts: seq<Utterance>)
    requires AllHeard(tests, n, utts) && Chained(utts) && InBounds(utts, n)
    ensures Increasing(Spoken(utts), Start(utts, |utts|)) && Start(utts, |utts|) <= n
  {
    if utts != [] {
      var front, u := utts[..|utts| - 1], utts[|utts| - 1];
      assert Heard(tests, n, u) && u.wait == Start(utts, |utts| - 1);
      assert forall k :: 0 <= k <= |front| ==> Start(front, k) == Start(utts, k);
      assert Chained(front);
      PlacesIncrease(tests, n, front);
      assert Start(front, |front|) == u.wait <= u.from;
      IncreasingLater(Spoken(front), u.wait, u.from);
      IncreasingConcat(Spoken(front), u.from, u.end);
    }
  }

  ghost predicate Picks(frames: seq<Frame>, places: seq<nat>, picked: seq<Frame>) {
    |places| == |picked| && forall i :: 0 <= i < |places| ==> places[i] < |frames| && picked[i] == frames[places[i]]
  }

  lemma PicksConcat(frames: seq<Frame>, p0: seq<nat>, f0: seq<Frame>, p1: seq<nat>, f1: seq<Frame>)
    requires Picks(frames, p0, f0) && Picks(frames, p1, f1)
    ensures Picks(frames, p0 + p1, f0 + f1)
  {
  }

  lemma UtteranceUnmarked(before: seq<Output>, said: seq<Frame>, closed: bool)
    ensures WithoutMarkers(before + Voices(said) + if closed then [Marker] else []) == WithoutMarkers(before) + said
  {
    var mark: seq<Output> := if closed then [Marker] else [];
    WithoutMarkersConcat(before + Voices(said), mark);
    WithoutMarkersConcat(before, Voices(said));
    VoicesUnmarked(said);
    assert WithoutMarkers(mark) == [];
  }

  lemma {:induction false} PlacesAreYielded(frames: seq<Frame>, utts: seq<Utterance>)
    requires InBounds(utts, |frames|)
    ensures Picks(frames, Spoken(utts), WithoutMarkers(Collected(frames, utts)))
  {
    if utts != [] {
      var front, u := utts[..|utts| - 1], utts[|utts| - 1];
      PlacesAreYielded(frames, front);
      UtteranceUnmarked(Collected(frames, front), frames[u.from..u.end], u.closed);
      PicksConcat(frames, Spoken(front), WithoutMarkers(Collected(frames, front)),
        Range(u.from, u.end), frames[u.from..u.end]);
    }
  }

  /** The frames yielded are those at increasing places: in order, none twice, none invented. */
  lemma YieldsInOrder(tests: Tests, frames: seq<Frame>, utts: seq<Utterance>)
    requires IsSegmentation(tests, |frames|, utts) && InBounds(utts, |frames|)
    ensures Picks(frames, Spoken(utts), WithoutMarkers(Collected(frames, utts)))
    ensures Increasing(Spoken(utts), |frames|)
  {
    PlacesIncrease(tests, |frames|, utts);
    IncreasingLater(Spoken(utts), Start(utts, |utts|), |frames|);
    PlacesAreYielded(frames, utts);
  }

  /** From place `at` up to `next` the output holds the frames of an utterance, then a marker if it is closed. */
  ghost predicate PieceAt(frames: seq<Frame>, out: seq<Output>, u: Utterance, at: nat, next: nat)
    requires u.from <= u.end <= |frames|
  {
    var end := at + u.end - u.from;
    && next == (if u.closed then end + 1 else end) && next <= |out|
    && (forall i :: at <= i < end ==> out[i] == Voice(frames[u.from + i - at]))
    && (u.closed ==> out[end] == Marker)
  }

  lemma PieceAdded(frames: seq<Frame>, before: seq<Output>, u: Utterance)
    requires u.from <= u.end <= |frames|
    ensures var out := before + Voices(frames[u.from..u.end]) + if u.closed then [Marker] else [];
            PieceAt(frames, out, u, |before|, |out|)
  {
  }

  lemma PieceStays(frames: seq<Frame>, before: seq<Output>, said: seq<Output>, mark: seq<Output>, u: Utterance,
                   at: nat, next: nat)
    requires u.from <= u.end <= |frames| && PieceAt(frames, before, u, at, next)
    ensures PieceAt(frames, before + said + mark, u, at, next)
  {
    var out := before + said + mark;
    assert forall i :: 0 <= i < |before| ==> out[i] == before[i];
  }

  /** Each utterance is yielded in one piece, and the next one begins right after it. */
  lemma {:induction false} YieldedInOnePiece(frames: seq<Frame>, utts: seq<Utterance>, k: nat)
    requires InBounds(utts, |frames|) && k < |utts|
    ensures PieceAt(frames, Collected(frames, utts), utts[k], |Collected(frames, utts[..k])|,
                    |Collected(frames, utts[..k + 1])|)
  {
    var front, u := utts[..|utts| - 1], utts[|utts| - 1];
    var before := Collected(frames, front);
    if k < |front| {
      assert front[..k] == utts[..k] && front[..k + 1] == utts[..k + 1] && front[k] == utts[k];
      var at, next := |Collected(frames, front[..k])|, |Collected(frames, front[..k + 1])|;
      YieldedInOnePiece(frames, front, k);
      PieceStays(frames, before, Voices(frames[u.from..u.end]), if u.closed then [Marker] else [], utts[k], at, next);
    } else {
      assert utts[..k + 1] == utts;
      PieceAdded(frames, before, u);
    }
  }

  /** With 300 ms of padding, frames of 20 ms and a ratio of three quarters: of the 12 to 15 frames flushed at
      least 12 are voiced, and of the last 15 or fewer since the trigger at least 12 are not. */
  lemma TwelveOfFifteen(frames: seq<Frame>, n: nat, u: Utterance)
    requires n <= |frames| && Heard(TestsOf(Configured(300, 20, 0.75), frames), n, u)
    ensures 12 <= u.trigger + 1 - u.from <= 15
    ensures |set i | u.from <= i <= u.trigger && frames[i].speech| >= 12
    ensures u.closed ==> u.end - u.trigger > 12
    ensures u.closed ==> |set i | u.trigger < i < u.end && u.end - 15 <= i && !frames[i].speech| >= 12
  {
    SettingsAre();
    var voiced := set i | u.from <= i <= u.trigger && frames[i].speech;
    assert Among(frames, u.wait, u.trigger + 1, 15, true) == voiced;
    WithinPlaces(voiced, u.from, u.trigger + 1);
    if u.closed {
      var unvoiced := set i | u.trigger < i < u.end && u.end - 15 <= i && !frames[i].speech;
      assert Among(frames, u.trigger + 1, u.end, 15, false) == unvoiced;
      WithinPlaces(unvoiced, u.trigger + 1, u.end);
    }
  }

  lemma {:induction false} WithinPlaces(places: set<int>, from: int, end: int)
    requires from <= end && forall i :: i in places ==> from <= i < end
    ensures |places| <= end - from
    decreases end - from
  {
    if from == end {
      assert (forall i :: i !in places) ==> places == {};
    } else {
      WithinPlaces(places - {end - 1}, from, end - 1);
    }
  }

  lemma SettingsAre()
    ensures Configured(300, 20, 0.75) == Detector(15, 11.25)
  {
  }
}
