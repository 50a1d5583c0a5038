/** Greedy text decoding: best symbol per frame, repeats merged, blanks dropped. */
module CtcText {
  import Arithmetic
  import opened Sequences
  import opened Wrappers

  /** Adjacent duplicates merged. */
  ghost function Dedup(s: seq<int>): seq<int> {
    if |s| <= 1 then s
    else Dedup(s[..|s| - 1]) + if s[|s| - 1] == s[|s| - 2] then [] else [s[|s| - 1]]
  }

  ghost function WithoutBlanks(s: seq<int>, blank: int): seq<int> {
    if s == [] then []
    else WithoutBlanks(s[..|s| - 1], blank) + if s[|s| - 1] == blank then [] else [s[|s| - 1]]
  }

  /** The text a frame sequence stands for: merge repeats first, then drop blanks. */
  ghost function Collapse(s: seq<int>, blank: int): seq<int> {
    WithoutBlanks(Dedup(s), blank)
  }

  lemma {:induction false} WithoutBlanksConcat(a: seq<int>, b: seq<int>, blank: int)
    ensures WithoutBlanks(a + b, blank) == WithoutBlanks(a, blank) + WithoutBlanks(b, blank)
  {
    if b == [] {
      assert a + b == a;
    } else {
      assert (a + b)[..|a + b| - 1] == a + b[..|b| - 1];
      WithoutBlanksConcat(a, b[..|b| - 1], blank);
    }
  }

  /** One more frame adds its symbol unless it repeats the frame before or is blank. */
  lemma CollapseNext(s: seq<int>, x: int, blank: int)
    ensures Collapse(s + [x], blank)
         == Collapse(s, blank) + if x == blank || (s != [] && s[|s| - 1] == x) then [] else [x]
  {
    assert (s + [x])[..|s|] == s;
    WithoutBlanksConcat(Dedup(s), [x], blank);
    WithoutBlanksConcat(Dedup(s), [], blank);
    assert [x][..0] == [];
    if s == [] {
      assert Dedup(s) + [x] == [x] == s + [x];
    }
  }

  ghost predicate IsBest(frame: seq<real>, best: nat) {
    && best < |frame|
    && (forall k :: 0 <= k < |frame| ==> frame[k] <= frame[best])
    && (forall k :: 0 <= k < best ==> frame[k] < frame[best])
  }

  /** The first of the greatest scores. */
  ghost function ArgMax(frame: seq<real>): (best: nat)
    requires frame != []
    ensures best < |frame|
  {
    var last := |frame| - 1;
    if last == 0 then 0
    else
      var best := ArgMax(frame[..last]);
      if frame[best] < frame[last] then last else best
  }

  lemma {:induction false} ArgMaxIsBest(frame: seq<real>)
    requires frame != []
    ensures IsBest(frame, ArgMax(frame))
  {
    var last := |frame| - 1;
    if last > 0 {
      ArgMaxIsBest(frame[..last]);
      assert forall k :: 0 <= k < last ==> frame[..last][k] == frame[k];
    }
  }

  method MaxElement(frame: seq<real>) returns (best: nat)
    requires frame != []
    ensures best == ArgMax(frame)
  {
    best := 0;
    for k := 1 to |frame|
      invariant best < k && best == ArgMax(frame[..k])
    {
      assert frame[..k + 1][..k] == frame[..k];
      if frame[best] < frame[k] { best := k; }
    }
    assert frame[..|frame|] == frame;
  }

  /** A whole number of frames. */
  ghost predicate WholeFrames(length: nat, alphaLen: nat) {
    length == 0 || (0 < alphaLen <= length && WholeFrames(length - alphaLen, alphaLen))
  }

  lemma {:induction false} WholeFramesIff(length: nat, alphaLen: nat)
    requires alphaLen > 0
    ensures WholeFrames(length, alphaLen) <==> length % alphaLen == 0
    decreases length
  {
    if length < alphaLen {
      Arithmetic.DivModUnique(length, 0, length, alphaLen);
    } else {
      WholeFramesIff(length - alphaLen, alphaLen);
      Arithmetic.ModShift(length, -1, alphaLen);
    }
  }

  /** The best symbol of each frame from `it` on. */
  ghost function BestSymbols(recognition: seq<real>, it: nat, alphaLen: nat): seq<int>
    requires it <= |recognition| && WholeFrames(|recognition| - it, alphaLen)
    decreases |recognition| - it
  {
    if it == |recognition| then []
    else [ArgMax(recognition[it..it + alphaLen])] + BestSymbols(recognition, it + alphaLen, alphaLen)
  }

  /** What the automaton remembers of the symbols read. */
  ghost predicate Reads(text: seq<int>, followStop: bool, symbols: seq<int>, stop: int) {
    && text == Collapse(symbols, stop)
    && (followStop <==> symbols != [] && symbols[|symbols| - 1] == stop)
    && (symbols != [] && !followStop ==> text != [] && text[|text| - 1] == symbols[|symbols| - 1])
    && (symbols == [] ==> text == [])
  }

  /** One step of the automaton. */
  method ReadSymbol(text: seq<int>, followStop: bool, symbol: int, stop: int, ghost symbols: seq<int>)
    returns (text': seq<int>, followStop': bool)
    requires Reads(text, followStop, symbols, stop)
    ensures Reads(text', followStop', symbols + [symbol], stop)
  {
    CollapseNext(symbols, symbol, stop);
    text', followStop' := text, followStop;
    if symbol == stop {
      followStop' := true;
    } else if text == [] || followStop || symbol != text[|text| - 1] {
      followStop' := false;
      text' := text + [symbol];
    }
  }

  /** The symbols read so far, with those of the frames to come, are those of all frames. */
  ghost predicate ReadUpTo(recognition: seq<real>, it: nat, alphaLen: nat, symbols: seq<int>) {
    && WholeFrames(|recognition|, alphaLen)
    && it <= |recognition| && WholeFrames(|recognition| - it, alphaLen)
    && symbols + BestSymbols(recognition, it, alphaLen) == BestSymbols(recognition, 0, alphaLen)
  }

  lemma FrameRead(recognition: seq<real>, it: nat, alphaLen: nat, symbols: seq<int>)
    requires ReadUpTo(recognition, it, alphaLen, symbols) && it < |recognition|
    ensures 0 < alphaLen <= |recognition| - it
    ensures ReadUpTo(recognition, it + alphaLen, alphaLen, symbols + [ArgMax(recognition[it..it + alphaLen])])
  {
    var symbol := ArgMax(recognition[it..it + alphaLen]);
    Associate(symbols, [symbol], BestSymbols(recognition, it + alphaLen, alphaLen));
  }

  lemma AllRead(recognition: seq<real>, alphaLen: nat, symbols: seq<int>)
    requires ReadUpTo(recognition, |recognition|, alphaLen, symbols)
    ensures symbols == BestSymbols(recognition, 0, alphaLen)
  {
    assert symbols + [] == symbols;
  }

  /** The automaton that keeps only the text so far and whether the stop symbol was
      the last thing seen. */
  method RecognizeText(recognition: seq<real>, alphaLen: nat, stop: int) returns (text: seq<int>)
    requires WholeFrames(|recognition|, alphaLen)
    ensures text == Collapse(BestSymbols(recognition, 0, alphaLen), stop)
  {
    text := [];
    ghost var symbols: seq<int> := [];
    var followStop, it := false, 0;
    while it != |recognition|
      invariant 0 <= it <= |recognition| && ReadUpTo(recognition, it, alphaLen, symbols)
      invariant Reads(text, followStop, symbols, stop)
      decreases |recognition| - it
    {
      FrameRead(recognition, it, alphaLen, symbols);
      var symbol := MaxElement(recognition[it..it + alphaLen]);
      text, followStop := ReadSymbol(text, followStop, symbol, stop, symbols);
      symbols := symbols + [symbol];
      it := it + alphaLen;
    }
    AllRead(recognition, alphaLen, symbols);
  }

  /** The index loop over best symbols with blank 0. */
  method Decode(indexPredicts: seq<int>) returns (textList: seq<int>)
    ensures textList == Collapse(indexPredicts, 0)
  {
    textList := [];
    for i := 0 to |indexPredicts|
      invariant textList == Collapse(indexPredicts[..i], 0)
    {
      CollapseNext(indexPredicts[..i], indexPredicts[i], 0);
      assert indexPredicts[..i + 1] == indexPredicts[..i] + [indexPredicts[i]];
      if indexPredicts[i] != 0 && !(i > 0 && indexPredicts[i] == indexPredicts[i - 1]) {
        textList := textList + [indexPredicts[i]];
      }
    }
    assert indexPredicts[..|indexPredicts|] == indexPredicts;
  }

  /** The frames the two-skip loop keeps. */
  predicate Kept(predsIndex: seq<int>, deleteDuplicates: bool, i: nat)
    requires i < |predsIndex|
  {
    predsIndex[i] != 0 && !(deleteDuplicates && i > 0 && predsIndex[i - 1] == predsIndex[i])
  }

  /** The entries of a row of equal length at the frames kept. */
  ghost function AtKept<T>(row: seq<T>, predsIndex: seq<int>, deleteDuplicates: bool): seq<T>
    requires |row| == |predsIndex|
  {
    if row == [] then []
    else
      var i := |row| - 1;
      AtKept(row[..i], predsIndex[..i], deleteDuplicates)
      + if Kept(predsIndex, deleteDuplicates, i) then [row[i]] else []
  }

  /** One more frame. */
  lemma AtKeptNext<T>(row: seq<T>, predsIndex: seq<int>, deleteDuplicates: bool, i: nat)
    requires i < |row| == |predsIndex|
    ensures AtKept(row[..i + 1], predsIndex[..i + 1], deleteDuplicates)
         == AtKept(row[..i], predsIndex[..i], deleteDuplicates)
            + if Kept(predsIndex, deleteDuplicates, i) then [row[i]] else []
  {
    assert row[..i + 1][..i] == row[..i] && predsIndex[..i + 1][..i] == predsIndex[..i];
    assert Kept(predsIndex[..i + 1], deleteDuplicates, i) == Kept(predsIndex, deleteDuplicates, i);
  }

  /** The symbols at the frames kept are the decoded text. */
  lemma {:induction false} KeptIsText(predsIndex: seq<int>, deleteDuplicates: bool)
    ensures AtKept(predsIndex, predsIndex, deleteDuplicates)
         == if deleteDuplicates then Collapse(predsIndex, 0) else WithoutBlanks(predsIndex, 0)
  {
    if predsIndex != [] {
      var i := |predsIndex| - 1;
      KeptIsText(predsIndex[..i], deleteDuplicates);
      FrontAndLast(predsIndex);
      CollapseNext(predsIndex[..i], predsIndex[i], 0);
    }
  }

  ghost function Sum(v: seq<real>): real {
    if v == [] then 0.0 else Sum(v[..|v| - 1]) + v[|v| - 1]
  }

  /** The mean, which an empty sequence has none of. */
  method MeanOf(v: seq<real>) returns (mean: Option<real>)
    ensures mean == if v == [] then None else Some(Sum(v) / |v| as real)
  {
    if v == [] { return None; }
    var sum := 0.0;
    for i := 0 to |v|
      invariant sum == Sum(v[..i])
    {
      assert v[..i + 1][..i] == v[..i];
      sum := sum + v[i];
    }
    assert v[..|v|] == v;
    return Some(sum / |v| as real);
  }

  /** The two-skip loop; merging repeats is optional. Beside the text it returns the mean
      confidence of the frames kept, where a missing probability counts as 1. */
  method TextDecode(predsIndex: seq<int>, predsProb: Option<seq<real>>, deleteDuplicates: bool)
    returns (characters: seq<int>, mean: Option<real>)
    requires predsProb.Some? ==> |predsProb.value| == |predsIndex|
    ensures characters == if deleteDuplicates then Collapse(predsIndex, 0) else WithoutBlanks(predsIndex, 0)
    ensures var kept := AtKept(Confidences(predsIndex, predsProb), predsIndex, deleteDuplicates);
            mean == if kept == [] then None else Some(Sum(kept) / |kept| as real)
  {
    characters := [];
    var confidences: seq<real> := [];
    ghost var probs := Confidences(predsIndex, predsProb);
    for idx := 0 to |predsIndex|
      invariant characters == AtKept(predsIndex[..idx], predsIndex[..idx], deleteDuplicates)
      invariant confidences == AtKept(probs[..idx], predsIndex[..idx], deleteDuplicates)
    {
      AtKeptNext(predsIndex, predsIndex, deleteDuplicates, idx);
      AtKeptNext(probs, predsIndex, deleteDuplicates, idx);
      if deleteDuplicates && idx > 0 && predsIndex[idx - 1] == predsIndex[idx] {
        continue;
      }
      if predsIndex[idx] == 0 {
        continue;
      }
      characters := characters + [predsIndex[idx]];
      confidences := confidences + [if predsProb.Some? then predsProb.value[idx] else 1.0];
    }
    assert predsIndex[..|predsIndex|] == predsIndex && probs[..|probs|] == probs;
    KeptIsText(predsIndex, deleteDuplicates);
    mean := MeanOf(confidences);
  }

  ghost function Confidences(predsIndex: seq<int>, predsProb: Option<seq<real>>): (c: seq<real>)
    requires predsProb.Some? ==> |predsProb.value| == |predsIndex|
    ensures |c| == |predsIndex|
  {
    if predsProb.Some? then predsProb.value else seq(|predsIndex|, _ => 1.0)
  }

  // ---------------------------------------------------------------------------
  // Layouts of a text
  // ---------------------------------------------------------------------------

  function Run(x: int, n: nat): seq<int> {
    seq(n, _ => x)
  }

  /** A text with each letter held for some frames and blanks before, between and after. */
  ghost function Layout(text: seq<int>, holds: seq<nat>, gaps: seq<nat>, blank: int): seq<int>
    requires |holds| == |text| && |gaps| == |text| + 1
  {
    if text == [] then Run(blank, gaps[0])
    else
      var k := |text| - 1;
      Layout(text[..k], holds[..k], gaps[..k + 1], blank) + Run(text[k], holds[k]) + Run(blank, gaps[k + 1])
  }

  /** Every letter is held and equal neighbours are kept apart. */
  ghost predicate Readable(text: seq<int>, holds: seq<nat>, gaps: seq<nat>, blank: int) {
    && |holds| == |text| && |gaps| == |text| + 1
    && (forall i :: 0 <= i < |text| ==> text[i] != blank && holds[i] > 0)
    && (forall i :: 0 < i < |text| && text[i - 1] == text[i] ==> gaps[i] > 0)
  }

  lemma {:induction false} CollapseBlanks(s: seq<int>, n: nat, blank: int)
    ensures Collapse(s + Run(blank, n), blank) == Collapse(s, blank)
  {
    if n == 0 {
      assert s + Run(blank, n) == s;
    } else {
      CollapseBlanks(s, n - 1, blank);
      CollapseNext(s + Run(blank, n - 1), blank, blank);
      assert s + Run(blank, n) == s + Run(blank, n - 1) + [blank];
    }
  }

  lemma {:induction false} CollapseHold(s: seq<int>, x: int, n: nat, blank: int)
    requires n > 0 && x != blank && (s == [] || s[|s| - 1] != x)
    ensures Collapse(s + Run(x, n), blank) == Collapse(s, blank) + [x]
  {
    var before := s + Run(x, n - 1);
    CollapseNext(before, x, blank);
    assert s + Run(x, n) == before + [x];
    if n == 1 {
      assert before == s;
    } else {
      CollapseHold(s, x, n - 1, blank);
      assert before[|before| - 1] == x;
    }
  }

  /** The last frame of a layout is a blank, or the last letter when no blank follows it. */
  lemma LayoutEnd(text: seq<int>, holds: seq<nat>, gaps: seq<nat>, blank: int)
    requires Readable(text, holds, gaps, blank)
    ensures var f := Layout(text, holds, gaps, blank);
            && (gaps[|text|] > 0 ==> f != [] && f[|f| - 1] == blank)
            && (gaps[|text|] == 0 && text != [] ==> f != [] && f[|f| - 1] == text[|text| - 1])
            && (gaps[|text|] == 0 && text == [] ==> f == [])
  {
  }

  /** Any readable layout decodes to the text it was made from. */
  lemma {:induction false} LayoutDecodes(text: seq<int>, holds: seq<nat>, gaps: seq<nat>, blank: int)
    requires Readable(text, holds, gaps, blank)
    ensures Collapse(Layout(text, holds, gaps, blank), blank) == text
  {
    if text == [] {
      CollapseBlanks([], gaps[0], blank);
      assert [] + Run(blank, gaps[0]) == Run(blank, gaps[0]);
    } else {
      var k := |text| - 1;
      var front := Layout(text[..k], holds[..k], gaps[..k + 1], blank);
      LayoutDecodes(text[..k], holds[..k], gaps[..k + 1], blank);
      LayoutEnd(text[..k], holds[..k], gaps[..k + 1], blank);
      LetterDecodes(front, text[k], holds[k], gaps[k + 1], blank);
      FrontAndLast(text);
    }
  }

  lemma LetterDecodes(front: seq<int>, x: int, hold: nat, gap: nat, blank: int)
    requires hold > 0 && x != blank && (front == [] || front[|front| - 1] != x)
    ensures Collapse(front + Run(x, hold) + Run(blank, gap), blank) == Collapse(front, blank) + [x]
  {
    CollapseHold(front, x, hold, blank);
    CollapseBlanks(front + Run(x, hold), gap, blank);
  }

  /** Every frame sequence is a readable layout of the text it decodes to. */
  lemma {:induction false} EveryFramesAreLayout(f: seq<int>, blank: int) returns (holds: seq<nat>, gaps: seq<nat>)
    ensures Readable(Collapse(f, blank), holds, gaps, blank)
    ensures f == Layout(Collapse(f, blank), holds, gaps, blank)
  {
    if f == [] {
      holds, gaps := [], [0];
    } else {
      var front, x := f[..|f| - 1], f[|f| - 1];
      assert f == front + [x];
      holds, gaps := EveryFramesAreLayout(front, blank);
      CollapseNext(front, x, blank);
      holds, gaps := LayoutOneMore(front, Collapse(front, blank), holds, gaps, blank, x);
    }
  }

  /** One more frame lengthens the last gap or hold, or starts a letter. */
  lemma LayoutOneMore(front: seq<int>, text: seq<int>, holds: seq<nat>, gaps: seq<nat>, blank: int, x: int)
      returns (holds': seq<nat>, gaps': seq<nat>)
    requires Readable(text, holds, gaps, blank) && front == Layout(text, holds, gaps, blank)
    ensures var text' := text + if x == blank || (front != [] && front[|front| - 1] == x) then [] else [x];
            Readable(text', holds', gaps', blank) && front + [x] == Layout(text', holds', gaps', blank)
  {
    LayoutEnd(text, holds, gaps, blank);
    var k := |text|;
    holds', gaps' := holds, gaps;
    assert text + [] == text;
    if x == blank {
      LongerGap(text, holds, gaps, blank);
      gaps' := gaps[k := gaps[k] + 1];
    } else if front != [] && front[|front| - 1] == x {
      LongerHold(text, holds, gaps, blank);
      holds' := holds[k - 1 := holds[k - 1] + 1];
    } else {
      NewLetter(text, holds, gaps, blank, x);
      holds', gaps' := holds + [1], gaps + [0];
    }
  }

  lemma LongerGap(text: seq<int>, holds: seq<nat>, gaps: seq<nat>, blank: int)
    requires Readable(text, holds, gaps, blank)
    ensures var k := |text|;
            Readable(text, holds, gaps[k := gaps[k] + 1], blank)
            && Layout(text, holds, gaps[k := gaps[k] + 1], blank) == Layout(text, holds, gaps, blank) + [blank]
  {
    var k := |text|;
    assert Run(blank, gaps[k] + 1) == Run(blank, gaps[k]) + [blank];
    if text != [] {
      assert gaps[k := gaps[k] + 1][..k] == gaps[..k];
    }
  }

  lemma LongerHold(text: seq<int>, holds: seq<nat>, gaps: seq<nat>, blank: int)
    requires Readable(text, holds, gaps, blank) && text != [] && gaps[|text|] == 0
    ensures var k := |text| - 1;
            Readable(text, holds[k := holds[k] + 1], gaps, blank)
            && Layout(text, holds[k := holds[k] + 1], gaps, blank) == Layout(text, holds, gaps, blank) + [text[k]]
  {
    var k := |text| - 1;
    assert Run(text[k], holds[k] + 1) == Run(text[k], holds[k]) + [text[k]];
    assert holds[k := holds[k] + 1][..k] == holds[..k];
  }

  lemma NewLetter(text: seq<int>, holds: seq<nat>, gaps: seq<nat>, blank: int, x: int)
    requires Readable(text, holds, gaps, blank) && x != blank
    requires text != [] && text[|text| - 1] == x ==> gaps[|text|] > 0
    ensures Readable(text + [x], holds + [1], gaps + [0], blank)
    ensures Layout(text + [x], holds + [1], gaps + [0], blank) == Layout(text, holds, gaps, blank) + [x]
  {
    var k := |text|;
    assert (text + [x])[..k] == text && (holds + [1])[..k] == holds && (gaps + [0])[..k + 1] == gaps;
    assert Run(x, 1) == [x] && Run(blank, 0) == [];
  }

  /** Decoding a frame sequence gives exactly the texts it is a readable layout of. */
  lemma DecodesIffLayout(f: seq<int>, text: seq<int>, blank: int)
    ensures Collapse(f, blank) == text
       <==> exists holds, gaps :: Readable(text, holds, gaps, blank) && f == Layout(text, holds, gaps, blank)
  {
    var holds, gaps := EveryFramesAreLayout(f, blank);
    forall h, g | Readable(text, h, g, blank) && f == Layout(text, h, g, blank) ensures Collapse(f, blank) == text {
      LayoutDecodes(text, h, g, blank);
    }
  }
}
