/** The text layer: the normaliser for widget deltas, the inert placeholder
    texts a split hands out, the run walk behind `sliceToDelta`, and the
    `Text` wrapper whose mutations go through to the shared primitive and
    leave a one-shot marker on it. */
module TextAdapter {
  import opened Js
  import opened Yjs

  // ---------------------------------------------------------------------
  // normQuillDelta
  // ---------------------------------------------------------------------

  function Last<T>(s: seq<T>): T
    requires s != []
  {
    s[|s| - 1]
  }

  /** The last operation of the delta is an insert without attributes whose
      text ends in a newline: the case the normaliser rewrites. */
  predicate EndsInBareNewline(delta: seq<Op>) {
    && delta != []
    && Last(delta).Insert?
    && Last(delta).attributes.None?
    && Last(delta).text != []
    && Last(Last(delta).text) == '\n'
  }

  /** `s` with every trailing newline removed. */
  function TrimNewlines(s: string): (r: string)
    ensures r <= s
    ensures r == [] || Last(r) != '\n'
    ensures forall i :: |r| <= i < |s| ==> s[i] == '\n'
  {
    if s != [] && Last(s) == '\n' then TrimNewlines(s[..|s| - 1]) else s
  }

  /** What `normQuillDelta` returns. */
  function NormalizedDelta(delta: seq<Op>): seq<Op> {
    if EndsInBareNewline(delta) then
      var ins := TrimNewlines(Last(delta).text);
      if ins == [] then delta[..|delta| - 1] else delta[..|delta| - 1] + [Insert(ins, None)]
    else delta
  }

  /** The normaliser touches only the last operation, and only when it is a
      bare insert ending in a newline: it strips every trailing newline and
      drops the operation when nothing is left. */
  lemma NormalizedDeltaShape(delta: seq<Op>)
    ensures !EndsInBareNewline(delta) ==> NormalizedDelta(delta) == delta
    ensures EndsInBareNewline(delta) ==>
      var r, n, t := NormalizedDelta(delta), |delta| - 1, Last(delta).text;
      && n <= |r| <= n + 1
      && r[..n] == delta[..n]
      && (|r| == n <==> forall i :: 0 <= i < |t| ==> t[i] == '\n')
      && (|r| == n + 1 ==>
            && r[n].Insert? && r[n].attributes.None?
            && r[n].text != [] && Last(r[n].text) != '\n'
            && r[n].text <= t
            && forall i :: |r[n].text| <= i < |t| ==> t[i] == '\n')
  {
    if EndsInBareNewline(delta) {
      var t := Last(delta).text;
      var ins := TrimNewlines(t);
      if ins != [] {
        assert Last(ins) == t[|ins| - 1];
      }
    }
  }

  /** One pass only: dropping an all-newline last operation can expose an
      earlier bare insert that again ends in a newline, which stays. */
  lemma NormalizationIsOnePass()
    ensures var delta := [Insert("a\n", None), Insert("\n", None)];
            && NormalizedDelta(delta) == [Insert("a\n", None)]
            && EndsInBareNewline(NormalizedDelta(delta))
  {
    var delta := [Insert("a\n", None), Insert("\n", None)];
    assert TrimNewlines("\n"[..0]) == [];
    assert TrimNewlines("\n") == [];
  }

  /** `normQuillDelta(delta)`: the input is copied before the last operation
      is replaced, so the caller's delta is never changed. */
  method NormQuillDelta(delta: seq<Op>) returns (r: seq<Op>)
    ensures r == NormalizedDelta(delta)
  {
    r := delta;
    if |delta| > 0 {
      var d := delta[|delta| - 1];
      if d.Insert? && d.attributes.None? && Slice(d.text, -1, None) == "\n" {
        SliceLast(d.text);
        var copy := delta;
        var ins := Slice(d.text, 0, Some(-1));
        while Slice(ins, -1, None) == "\n"
          invariant TrimNewlines(ins) == TrimNewlines(d.text)
          decreases |ins|
        {
          SliceLast(ins);
          ins := Slice(ins, 0, Some(-1));
        }
        SliceLast(ins);
        copy := copy[|copy| - 1 := Insert(ins, None)];
        if |ins| == 0 {
          copy := copy[..|copy| - 1];
        }
        r := copy;
      }
    }
  }

  // ---------------------------------------------------------------------
  // PrelimText
  // ---------------------------------------------------------------------

  datatype PrelimKind = SplitLeft | SplitRight

  /** The text operations a placeholder refuses. */
  datatype TextOperation =
    | CloneOp | InsertOp | InsertListOp | SplitOp | JoinOp
    | ClearOp | DeleteOp | FormatOp | ApplyDeltaOp | SliceToDeltaOp
  {
    function Name(): string {
      match this
      case CloneOp => "clone"
      case InsertOp => "insert"
      case InsertListOp => "insertList"
      case SplitOp => "split"
      case JoinOp => "join"
      case ClearOp => "clear"
      case DeleteOp => "delete"
      case FormatOp => "format"
      case ApplyDeltaOp => "applyDelta"
      case SliceToDeltaOp => "sliceToDelta"
    }
  }

  const UnsupportedMessage := "PrelimText does not support "

  /** A placeholder for one half of a split text, not backed by any primitive. */
  datatype PrelimText = PrelimText(kind: PrelimKind, index: int) {
    const ready := false

    /** `length`: a placeholder holds no text. */
    function Length(): (n: nat)
      ensures n == 0
    {
      0
    }

    /** Any other operation throws, naming itself in the message. */
    function Invoke(op: TextOperation): (r: Result<()>)
      ensures r.Throws? && r.error.UnsupportedOperation?
      ensures UnsupportedMessage <= r.error.message
    {
      Throws(UnsupportedOperation(UnsupportedMessage + op.Name()))
    }
  }

  /** The message a placeholder throws tells which operation was attempted. */
  lemma PrelimErrorsNameTheOperation(p: PrelimText, op1: TextOperation, op2: TextOperation)
    ensures p.Invoke(op1) == p.Invoke(op2) <==> op1 == op2
  {
    if op1 != op2 {
      var m1, m2 := p.Invoke(op1).error.message, p.Invoke(op2).error.message;
      var n1, n2 := op1.Name(), op2.Name();
      assert m1[|UnsupportedMessage|..] == n1;
      assert m2[|UnsupportedMessage|..] == n2;
    }
  }

  // ---------------------------------------------------------------------
  // sliceToDelta
  // ---------------------------------------------------------------------

  /** The run, whose first character is at `charNum`, reaches past a
      truthy `end`. */
  predicate Crosses(run: Run, charNum: int, end: Option<int>) {
    end.Some? && charNum + |run.insert| > end.value
  }

  /** The run reaches past `begin` and nothing was emitted before it. */
  predicate ReachesFirst(run: Run, charNum: int, begin: int, started: bool) {
    charNum + |run.insert| > begin && !started
  }

  /** The run's text cut at `end` when it crosses `end`. */
  function CutAtEnd(run: Run, charNum: int, end: Option<int>): string {
    if Crosses(run, charNum, end) then Slice(run.insert, 0, Some(end.value - charNum)) else run.insert
  }

  /** What one turn of the loop of `sliceToDelta` pushes: the first run that
      reaches past `begin`, cut at `end` and then at `begin`; any run after
      that, as it is; nothing before. */
  function Emitted(run: Run, charNum: int, begin: int, end: Option<int>, started: bool): seq<Run> {
    if ReachesFirst(run, charNum, begin, started) then
      [run.(insert := Slice(CutAtEnd(run, charNum, end), begin - charNum, None))]
    else if started then [run]
    else []
  }

  /** The loop of `sliceToDelta` from the run `d[0]` on: `charNum` characters
      lie in the runs already walked, `started` says something was emitted,
      and `end` is present only when the caller's `end` is truthy. The walk
      stops after a run that crosses `end`. */
  function Walk(d: seq<Run>, charNum: int, begin: int, end: Option<int>, started: bool): (r: seq<Run>)
    ensures |r| <= |d|
    decreases |d|
  {
    if d == [] then []
    else if Crosses(d[0], charNum, end) then Emitted(d[0], charNum, begin, end, started)
    else Emitted(d[0], charNum, begin, end, started)
         + Walk(d[1..], charNum + |d[0].insert|, begin, end, started || ReachesFirst(d[0], charNum, begin, started))
  }

  /** `sliceToDelta(begin, end?)` over the delta `d`: nothing when a truthy
      `end` does not lie after `begin`; the whole delta when `begin < 1` and
      `end` is falsy (so `end = 0` counts as no end); the walk otherwise. */
  function SliceOfDelta(d: seq<Run>, begin: int, end: Option<int>): (r: seq<Run>)
    ensures |r| <= |d|
  {
    if Truthy(end) && begin >= end.value then []
    else if begin < 1 && !Truthy(end) then d
    else Walk(d, 0, begin, if Truthy(end) then end else None, false)
  }

  /** Where run `i` starts in the text of `d`. */
  function Offset(d: seq<Run>, i: nat): nat
    requires i <= |d|
  {
    |RunsText(d[..i])|
  }

  lemma OffsetCons(d: seq<Run>, i: nat)
    requires d != [] && i < |d|
    ensures Offset(d, i + 1) == |d[0].insert| + Offset(d[1..], i)
  {
    assert d[..i + 1] == [d[0]] + d[1..][..i];
    assert ([d[0]] + d[1..][..i])[1..] == d[1..][..i];
  }

  lemma OffsetStep(d: seq<Run>, i: nat)
    requires i < |d|
    ensures Offset(d, i + 1) == Offset(d, i) + |d[i].insert|
  {
    assert d[..i + 1] == d[..i] + [d[i]];
    RunsTextAppend(d[..i], [d[i]]);
    assert RunsText([d[i]]) == d[i].insert + RunsText([]);
  }

  lemma OffsetAll(d: seq<Run>)
    ensures Offset(d, |d|) == |RunsText(d)|
  {
    assert d[..|d|] == d;
  }

  /** Once something was emitted and no `end` is given, every remaining run
      is emitted as it is. */
  lemma {:induction false} WalkStartedNoEnd(d: seq<Run>, charNum: int, begin: int)
    ensures Walk(d, charNum, begin, None, true) == d
    decreases |d|
  {
    if d != [] {
      WalkStartedNoEnd(d[1..], charNum + |d[0].insert|, begin);
    }
  }

  /** Without an `end`, the walk spells out the text from `begin` on. */
  lemma {:induction false} WalkNoEnd(d: seq<Run>, charNum: int, begin: int)
    requires charNum <= begin
    ensures RunsText(Walk(d, charNum, begin, None, false)) == RunsText(d)[Min(begin - charNum, |RunsText(d)|)..]
    decreases |d|
  {
    if d != [] {
      if charNum + |d[0].insert| > begin {
        WalkNoEndAtRun(d, charNum, begin);
      } else {
        WalkNoEnd(d[1..], charNum + |d[0].insert|, begin);
        WalkNoEndPastRun(d, charNum, begin);
      }
    }
  }

  /** Without an `end`, the first run past `begin` is emitted from `begin`
      on and every run after it as it is. */
  lemma WalkNoEndAtRun(d: seq<Run>, charNum: int, begin: int)
    requires d != [] && charNum <= begin < charNum + |d[0].insert|
    ensures RunsText(Walk(d, charNum, begin, None, false)) == RunsText(d)[Min(begin - charNum, |RunsText(d)|)..]
  {
    var run, i := d[0], begin - charNum;
    var S, R := RunsText(d), RunsText(d[1..]);
    assert S == run.insert + R;
    assert Min(i, |S|) == i;
    WalkStartedNoEnd(d[1..], charNum + |run.insert|, begin);
    var t := Slice(run.insert, i, None);
    assert t == run.insert[i..];
    assert Emitted(run, charNum, begin, None, false) == [run.(insert := t)];
    calc {
      RunsText(Walk(d, charNum, begin, None, false));
      RunsText([run.(insert := t)] + d[1..]);
      { RunsTextAppend([run.(insert := t)], d[1..]); }
      RunsText([run.(insert := t)]) + R;
      { assert RunsText([run.(insert := t)]) == t + RunsText([]); }
      t + R;
      { TailOfConcat(run.insert, R, i); }
      S[i..];
    }
  }

  /** Without an `end`, a run that ends at or before `begin` adds nothing:
      the text from `begin` on is the rest's text from `begin` on. */
  lemma WalkNoEndPastRun(d: seq<Run>, charNum: int, begin: int)
    requires d != [] && charNum + |d[0].insert| <= begin
    requires var R := RunsText(d[1..]);
             RunsText(Walk(d[1..], charNum + |d[0].insert|, begin, None, false))
               == R[Min(begin - (charNum + |d[0].insert|), |R|)..]
    ensures RunsText(Walk(d, charNum, begin, None, false)) == RunsText(d)[Min(begin - charNum, |RunsText(d)|)..]
  {
    var x := d[0].insert;
    var S, R := RunsText(d), RunsText(d[1..]);
    assert S == x + R;
    var j := Min(begin - (charNum + |x|), |R|);
    assert Min(begin - charNum, |S|) == |x| + j;
    calc {
      RunsText(Walk(d, charNum, begin, None, false));
      { WalkSkipsRun(d, charNum, begin, None); }
      RunsText(Walk(d[1..], charNum + |x|, begin, None, false));
      R[j..];
      { DropOfConcat(x, R, j); }
      S[|x| + j..];
    }
  }

  /** A tail of the right part is a tail of the concatenation. */
  lemma DropOfConcat(x: string, r: string, j: int)
    requires 0 <= j <= |r|
    ensures (x + r)[|x| + j..] == r[j..]
  {
  }

  /** A run that ends at or before `begin`, before anything was emitted, is
      skipped. */
  lemma WalkSkipsRun(d: seq<Run>, charNum: int, begin: int, end: Option<int>)
    requires d != [] && charNum + |d[0].insert| <= begin
    requires end.Some? ==> begin < end.value
    ensures Walk(d, charNum, begin, end, false) == Walk(d[1..], charNum + |d[0].insert|, begin, end, false)
  {
    assert !Crosses(d[0], charNum, end);
    assert Emitted(d[0], charNum, begin, end, false) == [];
    assert [] + Walk(d[1..], charNum + |d[0].insert|, begin, end, false) == Walk(d[1..], charNum + |d[0].insert|, begin, end, false);
  }

  /** The tail of a concatenation from a point in its left part. */
  lemma TailOfConcat(x: string, r: string, i: int)
    requires 0 <= i <= |x|
    ensures (x + r)[i..] == x[i..] + r
  {
  }

  /** With `end` absent (or zero) and a non-negative `begin`, the slice
      spells out `toString().slice(begin)`. */
  lemma SliceWithoutEnd(d: seq<Run>, begin: int, end: Option<int>)
    requires 0 <= begin && !Truthy(end)
    ensures RunsText(SliceOfDelta(d, begin, end)) == Slice(RunsText(d), begin, None)
  {
    if begin >= 1 {
      WalkNoEnd(d, 0, begin);
    }
  }

  /** Once something was emitted, the walk emits the following runs as they
      are, up to and including the first one that crosses `end`. */
  lemma {:induction false} WalkStartedWithEnd(d: seq<Run>, charNum: int, begin: int, end: int)
    ensures var w := Walk(d, charNum, begin, Some(end), true);
            && |w| <= |d| && w == d[..|w|]
            && (|w| < |d| ==> w != [] && charNum + Offset(d, |w|) > end)
            && (forall k :: 0 < k < |w| ==> charNum + Offset(d, k) <= end)
    decreases |d|
  {
    if d != [] {
      var len := |d[0].insert|;
      OffsetCons(d, 0);
      if charNum + len <= end {
        var w' := Walk(d[1..], charNum + len, begin, Some(end), true);
        WalkStartedWithEnd(d[1..], charNum + len, begin, end);
        var w := Walk(d, charNum, begin, Some(end), true);
        assert w == [d[0]] + w';
        if |w| < |d| {
          OffsetCons(d, |w'|);
        }
        forall k | 1 < k < |w|
          ensures charNum + Offset(d, k) <= end
        {
          OffsetCons(d, k - 1);
        }
      }
    }
  }

  /** `w` is what the as-written walk emits when run `i` of `d` is the first
      to reach past `begin`, positions counted from `charNum`: that run cut to
      `[begin, end)`, then the runs after it unmodified, up to and including
      the first one that crosses `end`. */
  ghost predicate EmitsFrom(d: seq<Run>, charNum: int, begin: int, end: int, i: nat, w: seq<Run>) {
    && begin < end
    && i < |d|
    && charNum + Offset(d, i) <= begin < charNum + Offset(d, i) + |d[i].insert|
    && w != [] && i + |w| <= |d|
    && w[0] == d[i].(insert := d[i].insert[begin - charNum - Offset(d, i)
                                            .. Min(end - charNum - Offset(d, i), |d[i].insert|)])
    && w[1..] == d[i + 1 .. i + |w|]
    && (i + |w| < |d| ==> charNum + Offset(d, i + |w|) > end)
    && (forall k :: i < k < i + |w| ==> charNum + Offset(d, k) <= end)
  }

  /** The walk at the first run that reaches past `begin`. */
  lemma WalkAtFirstRun(d: seq<Run>, charNum: int, begin: int, end: int)
    requires d != [] && charNum <= begin < end && begin < charNum + |d[0].insert|
    ensures EmitsFrom(d, charNum, begin, end, 0, Walk(d, charNum, begin, Some(end), false))
  {
    if charNum + |d[0].insert| > end {
      WalkFirstRunCrosses(d, charNum, begin, end);
    } else {
      WalkFirstRunContinues(d, charNum, begin, end);
    }
  }

  /** The first run past `begin` also crosses `end`: it is emitted alone. */
  lemma WalkFirstRunCrosses(d: seq<Run>, charNum: int, begin: int, end: int)
    requires d != [] && charNum <= begin < end && end < charNum + |d[0].insert|
    ensures EmitsFrom(d, charNum, begin, end, 0, Walk(d, charNum, begin, Some(end), false))
  {
    var run, len := d[0], |d[0].insert|;
    OffsetCons(d, 0);
    assert Offset(d, 0) == 0 by { assert d[..0] == []; }
    var cut := run.insert[begin - charNum .. end - charNum];
    var t := Slice(run.insert, 0, Some(end - charNum));
    assert t == run.insert[..end - charNum];
    assert Slice(t, begin - charNum, None) == cut;
    assert Emitted(run, charNum, begin, Some(end), false) == [run.(insert := cut)];
    assert Walk(d, charNum, begin, Some(end), false) == [run.(insert := cut)];
  }

  /** The first run past `begin` ends at or before `end`: it is emitted from
      `begin` on, followed by the runs up to the one crossing `end`. */
  lemma WalkFirstRunContinues(d: seq<Run>, charNum: int, begin: int, end: int)
    requires d != [] && charNum <= begin < charNum + |d[0].insert| <= end
    ensures EmitsFrom(d, charNum, begin, end, 0, Walk(d, charNum, begin, Some(end), false))
  {
    var run, len := d[0], |d[0].insert|;
    OffsetCons(d, 0);
    assert Offset(d, 0) == 0 by { assert d[..0] == []; }
    var cut := run.insert[begin - charNum..];
    assert Min(end - charNum, len) == len;
    var w' := Walk(d[1..], charNum + len, begin, Some(end), true);
    WalkStartedWithEnd(d[1..], charNum + len, begin, end);
    assert Slice(run.insert, begin - charNum, None) == cut;
    assert Emitted(run, charNum, begin, Some(end), false) == [run.(insert := cut)];
    var w := Walk(d, charNum, begin, Some(end), false);
    assert w == [run.(insert := cut)] + w';
    assert w[1..] == w';
    if |w| < |d| {
      OffsetCons(d, |w'|);
    }
    forall k | 0 < k < |w|
      ensures charNum + Offset(d, k) <= end
    {
      OffsetCons(d, k - 1);
    }
  }

  /** Dropping a leading run that ends at or before `begin` shifts the
      emitted runs' index by one and their positions by its length. */
  lemma EmitsFromCons(d: seq<Run>, charNum: int, begin: int, end: int, j: nat, w: seq<Run>)
    requires d != []
    requires EmitsFrom(d[1..], charNum + |d[0].insert|, begin, end, j, w)
    ensures EmitsFrom(d, charNum, begin, end, j + 1, w)
  {
    var len := |d[0].insert|;
    OffsetCons(d, j);
    if j + 1 + |w| < |d| {
      OffsetCons(d, j + |w|);
    }
    assert d[1..][j] == d[j + 1];
    assert d[1..][j + 1 .. j + |w|] == d[j + 2 .. j + 1 + |w|];
    forall k | j + 1 < k < j + 1 + |w|
      ensures charNum + Offset(d, k) <= end
    {
      OffsetCons(d, k - 1);
    }
  }

  /** The as-written walk with a truthy `end` after a non-negative `begin`:
      runs ending at or before `begin` are dropped, and what follows is
      described by `EmitsFrom`. */
  lemma {:induction false} WalkWithEnd(d: seq<Run>, charNum: int, begin: int, end: int) returns (i: nat)
    requires charNum <= begin < end
    ensures charNum + |RunsText(d)| <= begin ==> Walk(d, charNum, begin, Some(end), false) == []
    ensures charNum + |RunsText(d)| > begin ==> EmitsFrom(d, charNum, begin, end, i, Walk(d, charNum, begin, Some(end), false))
    decreases |d|
  {
    i := 0;
    if d != [] {
      var len := |d[0].insert|;
      assert RunsText(d) == d[0].insert + RunsText(d[1..]);
      if charNum + len > begin {
        WalkAtFirstRun(d, charNum, begin, end);
      } else {
        var j := WalkWithEnd(d[1..], charNum + len, begin, end);
        var w := Walk(d[1..], charNum + len, begin, Some(end), false);
        assert Walk(d, charNum, begin, Some(end), false) == [] + w;
        assert [] + w == w;
        i := j + 1;
        if charNum + |RunsText(d)| > begin {
          EmitsFromCons(d, charNum, begin, end, j, w);
        }
      }
    }
  }

  /** `sliceToDelta(begin, end)` as written, for `0 <= begin < end`: nothing
      when `begin` lies at or past the end of the text, otherwise the runs
      `EmitsFrom` describes for the run `i` holding position `begin`. */
  lemma SliceWithEnd(d: seq<Run>, begin: int, end: int) returns (i: nat)
    requires 0 <= begin < end
    ensures |RunsText(d)| <= begin ==> SliceOfDelta(d, begin, Some(end)) == []
    ensures |RunsText(d)| > begin ==> EmitsFrom(d, 0, begin, end, i, SliceOfDelta(d, begin, Some(end)))
  {
    i := WalkWithEnd(d, 0, begin, end);
  }

  // The run that crosses `end` is cut in the loop (text-adapter.ts:219-221)
  // but, unless it is the first run emitted, the uncut run is pushed
  // (text-adapter.ts:231). The walk below pushes the cut text instead, which
  // is what the cut evidently was for; the lemmas after it compare the two.

  /** One turn of the loop with a run after the first emitted cut at `end`. */
  function TrimmedEmitted(run: Run, charNum: int, begin: int, end: Option<int>, started: bool): seq<Run> {
    if ReachesFirst(run, charNum, begin, started) then
      [run.(insert := Slice(CutAtEnd(run, charNum, end), begin - charNum, None))]
    else if started then [run.(insert := CutAtEnd(run, charNum, end))]
    else []
  }

  /** The walk with every run that crosses `end` emitted cut at `end`. */
  function TrimmedWalk(d: seq<Run>, charNum: int, begin: int, end: Option<int>, started: bool): (r: seq<Run>)
    ensures |r| <= |d|
    decreases |d|
  {
    if d == [] then []
    else if Crosses(d[0], charNum, end) then TrimmedEmitted(d[0], charNum, begin, end, started)
    else TrimmedEmitted(d[0], charNum, begin, end, started)
         + TrimmedWalk(d[1..], charNum + |d[0].insert|, begin, end, started || ReachesFirst(d[0], charNum, begin, started))
  }

  /** `sliceToDelta` with the crossing run cut. */
  function TrimmedSliceOfDelta(d: seq<Run>, begin: int, end: Option<int>): (r: seq<Run>)
    ensures |r| <= |d|
  {
    if Truthy(end) && begin >= end.value then []
    else if begin < 1 && !Truthy(end) then d
    else TrimmedWalk(d, 0, begin, if Truthy(end) then end else None, false)
  }

  lemma {:induction false} TrimmedWalkStarted(d: seq<Run>, charNum: int, begin: int, end: int)
    requires charNum <= end
    ensures RunsText(TrimmedWalk(d, charNum, begin, Some(end), true)) == RunsText(d)[..Min(end - charNum, |RunsText(d)|)]
    decreases |d|
  {
    if d != [] {
      var run, len := d[0], |d[0].insert|;
      var S, R := RunsText(d), RunsText(d[1..]);
      assert S == run.insert + R;
      if charNum + len > end {
        assert Slice(run.insert, 0, Some(end - charNum)) == run.insert[..end - charNum];
        assert RunsText([run.(insert := run.insert[..end - charNum])]) == run.insert[..end - charNum] + RunsText([]);
      } else {
        TrimmedWalkStarted(d[1..], charNum + len, begin, end);
        var w := TrimmedWalk(d[1..], charNum + len, begin, Some(end), true);
        assert TrimmedWalk(d, charNum, begin, Some(end), true) == [run] + w;
        assert RunsText([run] + w) == run.insert + RunsText(w);
        assert Min(end - charNum, |S|) == len + Min(end - (charNum + len), |R|);
      }
    }
  }

  lemma TrimmedAtFirstRun(d: seq<Run>, charNum: int, begin: int, end: int)
    requires d != [] && charNum <= begin < end && begin < charNum + |d[0].insert|
    ensures var S := RunsText(d);
            RunsText(TrimmedWalk(d, charNum, begin, Some(end), false)) == S[begin - charNum..Min(end - charNum, |S|)]
  {
    if Crosses(d[0], charNum, Some(end)) {
      TrimmedFirstRunCrosses(d, charNum, begin, end);
    } else {
      TrimmedFirstRunContinues(d, charNum, begin, end);
    }
  }

  /** The first run emitted also crosses `end`: it is the whole slice. */
  lemma TrimmedFirstRunCrosses(d: seq<Run>, charNum: int, begin: int, end: int)
    requires d != [] && charNum <= begin < end && begin < charNum + |d[0].insert|
    requires Crosses(d[0], charNum, Some(end))
    ensures var S := RunsText(d);
            RunsText(TrimmedWalk(d, charNum, begin, Some(end), false)) == S[begin - charNum..Min(end - charNum, |S|)]
  {
    var run, len := d[0], |d[0].insert|;
    var S, R := RunsText(d), RunsText(d[1..]);
    assert S == run.insert + R;
    assert Min(end - charNum, |S|) == end - charNum;
    var cut := run.insert[begin - charNum .. end - charNum];
    var t := CutAtEnd(run, charNum, Some(end));
    assert t == run.insert[..end - charNum];
    assert Slice(t, begin - charNum, None) == cut;
    assert TrimmedEmitted(run, charNum, begin, Some(end), false) == [run.(insert := cut)];
    assert TrimmedWalk(d, charNum, begin, Some(end), false) == [run.(insert := cut)];
    assert RunsText([run.(insert := cut)]) == cut + RunsText([]);
    assert S[begin - charNum..end - charNum] == cut;
  }

  /** The first run emitted ends before `end`: the rest comes from the walk
      of the runs after it. */
  lemma TrimmedFirstRunContinues(d: seq<Run>, charNum: int, begin: int, end: int)
    requires d != [] && charNum <= begin < end && begin < charNum + |d[0].insert|
    requires !Crosses(d[0], charNum, Some(end))
    ensures var S := RunsText(d);
            RunsText(TrimmedWalk(d, charNum, begin, Some(end), false)) == S[begin - charNum..Min(end - charNum, |S|)]
  {
    var len := |d[0].insert|;
    var R := RunsText(d[1..]);
    TrimmedWalkStarted(d[1..], charNum + len, begin, end);
    TrimmedFirstRunUnfolds(d, charNum, begin, end);
    var S := RunsText(d);
    var W := RunsText(TrimmedWalk(d, charNum, begin, Some(end), false));
    var k := Min(end - (charNum + len), |R|);
    JoinSlices(W, d[0].insert, R, RunsText(TrimmedWalk(d[1..], charNum + len, begin, Some(end), true)), S, begin - charNum, k);
    assert Min(end - charNum, |S|) == len + k;
  }

  /** The walk from a first run that ends before `end`: the run from
      `begin` on, then the walk of the runs after it. */
  lemma TrimmedFirstRunUnfolds(d: seq<Run>, charNum: int, begin: int, end: int)
    requires d != [] && charNum <= begin < end && begin < charNum + |d[0].insert|
    requires !Crosses(d[0], charNum, Some(end))
    ensures RunsText(d) == d[0].insert + RunsText(d[1..])
    ensures RunsText(TrimmedWalk(d, charNum, begin, Some(end), false))
              == d[0].insert[begin - charNum..] + RunsText(TrimmedWalk(d[1..], charNum + |d[0].insert|, begin, Some(end), true))
  {
    var run := d[0];
    var cut := run.insert[begin - charNum..];
    var w' := TrimmedWalk(d[1..], charNum + |run.insert|, begin, Some(end), true);
    assert Slice(run.insert, begin - charNum, None) == cut;
    assert TrimmedEmitted(run, charNum, begin, Some(end), false) == [run.(insert := cut)];
    assert TrimmedWalk(d, charNum, begin, Some(end), false) == [run.(insert := cut)] + w';
    RunsTextAppend([run.(insert := cut)], w');
    assert RunsText([run.(insert := cut)]) == cut + RunsText([]);
  }

  /** A tail of `x` followed by a prefix of `r` is a slice of `x + r`. */
  lemma JoinSlices(w: string, x: string, r: string, rest: string, s: string, i: int, k: int)
    requires 0 <= i <= |x| && 0 <= k <= |r|
    requires w == x[i..] + rest && rest == r[..k] && s == x + r
    ensures |s| == |x| + |r| && w == s[i..|x| + k]
  {
    SplitSlice(x, r, i, |x| + k);
  }

  /** A slice of a concatenation that starts in the left part and ends in the
      right part. */
  lemma SplitSlice(x: string, r: string, i: int, j: int)
    requires 0 <= i <= |x| <= j <= |x| + |r|
    ensures (x + r)[i..j] == x[i..] + r[..j - |x|]
  {
  }

  lemma {:induction false} TrimmedWalkFromBegin(d: seq<Run>, charNum: int, begin: int, end: int)
    requires charNum <= begin < end
    ensures var S := RunsText(d);
            RunsText(TrimmedWalk(d, charNum, begin, Some(end), false)) == S[Min(begin - charNum, |S|)..Min(end - charNum, |S|)]
    decreases |d|
  {
    if d != [] {
      if charNum + |d[0].insert| > begin {
        TrimmedAtFirstRun(d, charNum, begin, end);
        assert |RunsText(d)| == |d[0].insert| + |RunsText(d[1..])|;
      } else {
        TrimmedWalkFromBegin(d[1..], charNum + |d[0].insert|, begin, end);
        TrimmedPastRun(d, charNum, begin, end);
      }
    }
  }

  /** A run that ends at or before `begin` adds nothing to the trimmed walk:
      its slice is the rest's slice, shifted by the run's length. */
  lemma TrimmedPastRun(d: seq<Run>, charNum: int, begin: int, end: int)
    requires d != [] && charNum + |d[0].insert| <= begin < end
    requires var R := RunsText(d[1..]); var p := charNum + |d[0].insert|;
             RunsText(TrimmedWalk(d[1..], p, begin, Some(end), false)) == R[Min(begin - p, |R|)..Min(end - p, |R|)]
    ensures var S := RunsText(d);
            RunsText(TrimmedWalk(d, charNum, begin, Some(end), false)) == S[Min(begin - charNum, |S|)..Min(end - charNum, |S|)]
  {
    var S, R := RunsText(d), RunsText(d[1..]);
    assert S == d[0].insert + R;
    TrimmedSkipsRun(d, charNum, begin, end);
    SliceAfterPrefix(d[0].insert, R, S, RunsText(TrimmedWalk(d[1..], charNum + |d[0].insert|, begin, Some(end), false)),
                     begin - charNum, end - charNum);
  }

  /** Positions at or after the end of `x` in `x + r` are positions of `r`
      shifted by the length of `x`, bounds clamped to the text. */
  lemma SliceAfterPrefix(x: string, r: string, s: string, w: string, i: int, j: int)
    requires |x| <= i <= j && s == x + r
    requires w == r[Min(i - |x|, |r|)..Min(j - |x|, |r|)]
    ensures w == s[Min(i, |s|)..Min(j, |s|)]
  {
    var a, b := Min(i - |x|, |r|), Min(j - |x|, |r|);
    assert Min(i, |s|) == |x| + a && Min(j, |s|) == |x| + b;
    ShiftSlice(x, r, |x| + a, |x| + b);
  }

  /** A run that ends at or before `begin`, before anything was emitted, is
      skipped by the trimmed walk too. */
  lemma TrimmedSkipsRun(d: seq<Run>, charNum: int, begin: int, end: int)
    requires d != [] && charNum + |d[0].insert| <= begin < end
    ensures TrimmedWalk(d, charNum, begin, Some(end), false) == TrimmedWalk(d[1..], charNum + |d[0].insert|, begin, Some(end), false)
  {
    var w' := TrimmedWalk(d[1..], charNum + |d[0].insert|, begin, Some(end), false);
    assert !Crosses(d[0], charNum, Some(end));
    assert TrimmedEmitted(d[0], charNum, begin, Some(end), false) == [];
    assert [] + w' == w';
  }

  lemma ShiftSlice(x: string, r: string, i: int, j: int)
    requires |x| <= i <= j <= |x| + |r|
    ensures (x + r)[i..j] == r[i - |x|..j - |x|]
  {
  }

  lemma {:induction false} TrimmedWalkWithoutEnd(d: seq<Run>, charNum: int, begin: int, started: bool)
    ensures TrimmedWalk(d, charNum, begin, None, started) == Walk(d, charNum, begin, None, started)
    decreases |d|
  {
    if d != [] {
      var run := d[0];
      assert run.(insert := run.insert) == run;
      TrimmedWalkWithoutEnd(d[1..], charNum + |run.insert|, begin, started || charNum + |run.insert| > begin);
    }
  }

  /** With the crossing run cut, the slice spells out exactly
      `toString().slice(begin, end)` for a non-negative `begin` and an `end`
      that is absent or positive. */
  lemma TrimmedSliceText(d: seq<Run>, begin: int, end: Option<int>)
    requires 0 <= begin
    requires end.Some? ==> end.value > 0
    ensures RunsText(TrimmedSliceOfDelta(d, begin, end)) == Slice(RunsText(d), begin, end)
  {
    var S := RunsText(d);
    var r := TrimmedSliceOfDelta(d, begin, end);
    if end.None? {
      var from := Min(begin, |S|);
      assert Slice(S, begin, end) == S[from..] by {
        SliceNonNegative(S, begin, end);
      }
      if begin >= 1 {
        assert r == TrimmedWalk(d, 0, begin, None, false);
        TrimmedWalkWithoutEnd(d, 0, begin, false);
        WalkNoEnd(d, 0, begin);
      } else {
        assert r == d;
      }
    } else if begin < end.value {
      assert r == TrimmedWalk(d, 0, begin, end, false);
      TrimmedWalkFromBegin(d, 0, begin, end.value);
      assert Slice(S, begin, end) == S[Min(begin, |S|)..Min(end.value, |S|)] by {
        SliceNonNegative(S, begin, end);
      }
    } else {
      assert r == [];
      assert Slice(S, begin, end) == [];
    }
  }

  /** The as-written runs `a` and the trimmed runs `t` agree but for the
      last run, whose trimmed text is a prefix of the as-written one. */
  predicate AgreeButLast(a: seq<Run>, t: seq<Run>) {
    && |a| == |t|
    && (a != [] ==>
          && a[..|a| - 1] == t[..|t| - 1]
          && Last(t).attributes == Last(a).attributes
          && Last(t).insert <= Last(a).insert)
  }

  lemma AgreeButLastPrepend(e: seq<Run>, a: seq<Run>, t: seq<Run>)
    requires AgreeButLast(a, t)
    ensures AgreeButLast(e + a, e + t)
  {
    if a != [] {
      assert (e + a)[..|e + a| - 1] == e + a[..|a| - 1];
      assert (e + t)[..|e + t| - 1] == e + t[..|t| - 1];
    } else {
      assert e + a == e + t;
    }
  }

  lemma {:induction false} WalkVersusTrimmed(d: seq<Run>, charNum: int, begin: int, end: Option<int>, started: bool)
    ensures AgreeButLast(Walk(d, charNum, begin, end, started), TrimmedWalk(d, charNum, begin, end, started))
    decreases |d|
  {
    if d != [] {
      var run, len := d[0], |d[0].insert|;
      var e1 := Emitted(run, charNum, begin, end, started);
      var e2 := TrimmedEmitted(run, charNum, begin, end, started);
      if Crosses(run, charNum, end) {
        SliceFromStartIsPrefix(run.insert, Some(end.value - charNum));
        assert AgreeButLast(e1, e2);
      } else {
        assert run.(insert := run.insert) == run;
        assert e1 == e2;
        var started' := started || ReachesFirst(run, charNum, begin, started);
        WalkVersusTrimmed(d[1..], charNum + len, begin, end, started');
        AgreeButLastPrepend(e1, Walk(d[1..], charNum + len, begin, end, started'),
                            TrimmedWalk(d[1..], charNum + len, begin, end, started'));
      }
    }
  }

  /** The as-written slice is the trimmed one with its last run possibly
      left uncut: both emit the same runs, and the text of the trimmed slice
      is a prefix of the as-written one's. */
  lemma SliceVersusTrimmed(d: seq<Run>, begin: int, end: Option<int>)
    ensures AgreeButLast(SliceOfDelta(d, begin, end), TrimmedSliceOfDelta(d, begin, end))
    ensures RunsText(TrimmedSliceOfDelta(d, begin, end)) <= RunsText(SliceOfDelta(d, begin, end))
  {
    var a, t := SliceOfDelta(d, begin, end), TrimmedSliceOfDelta(d, begin, end);
    if !(Truthy(end) && begin >= end.value) && !(begin < 1 && !Truthy(end)) {
      WalkVersusTrimmed(d, 0, begin, if Truthy(end) then end else None, false);
      if a != [] {
        var n := |a| - 1;
        assert a == a[..n] + [a[n]] && t == t[..n] + [t[n]];
        RunsTextAppend(a[..n], [a[n]]);
        RunsTextAppend(t[..n], [t[n]]);
        assert RunsText([a[n]]) == a[n].insert + RunsText([]);
        assert RunsText([t[n]]) == t[n].insert + RunsText([]);
      }
    }
  }

  /** The delta of bold "ab" followed by plain "cd". */
  lemma BoldThenPlainDelta()
    ensures var bold := map["bold" := Flag(true)];
            ToDelta(Glyphs("ab", bold) + Glyphs("cd", map[])) == [Run("ab", Some(bold)), Run("cd", None)]
  {
    var bold := map["bold" := Flag(true)];
    assert bold != map[] by { assert "bold" in bold; }
    var g := [Glyph('a', bold), Glyph('b', bold), Glyph('c', map[]), Glyph('d', map[])];
    assert Glyphs("ab", bold) + Glyphs("cd", map[]) == g;
    assert g[3..][1..] == [];
    assert ToDelta(g[3..]) == [Run("d", None)];
    assert g[2..][1..] == g[3..] && g[2..][0] == Glyph('c', map[]);
    assert AttributesOf(map[]) == None;
    assert ['c'] + "d" == "cd";
    assert ToDelta(g[2..]) == [Run("cd", None)];
    assert g[1..][1..] == g[2..];
    assert ToDelta(g[1..]) == [Run("b", Some(bold)), Run("cd", None)];
    assert g[1..][0] == Glyph('b', bold) && AttributesOf(bold) == Some(bold);
    assert g[0] == Glyph('a', bold) && ['a'] + "b" == "ab";
  }

  /** The discrepancy on a concrete text: with "ab" in bold followed by a plain
      "cd", `sliceToDelta(1, 3)` spells "bcd" where `toString().slice(1, 3)`
      is "bc"; the trimmed slice gives "bc". */
  lemma CrossingRunIsNotCut()
    ensures var bold := map["bold" := Flag(true)];
            var d := ToDelta(Glyphs("ab", bold) + Glyphs("cd", map[]));
            && d == [Run("ab", Some(bold)), Run("cd", None)]
            && RunsText(SliceOfDelta(d, 1, Some(3))) == "bcd"
            && Slice(RunsText(d), 1, Some(3)) == "bc"
            && RunsText(TrimmedSliceOfDelta(d, 1, Some(3))) == "bc"
  {
    var bold := map["bold" := Flag(true)];
    BoldThenPlainDelta();
    var d := ToDelta(Glyphs("ab", bold) + Glyphs("cd", map[]));
    assert d[1..] == [Run("cd", None)] && d[1..][1..] == [];
    assert Walk(d[1..], 2, 1, Some(3), true) == [Run("cd", None)];
    assert !Crosses(d[0], 0, Some(3)) && ReachesFirst(d[0], 0, 1, false);
    assert CutAtEnd(d[0], 0, Some(3)) == "ab";
    assert Slice("ab", 1, None) == "ab"[1..2] == "b";
    assert Emitted(d[0], 0, 1, Some(3), false) == [Run("b", Some(bold))];
    assert Walk(d, 0, 1, Some(3), false) == [Run("b", Some(bold)), Run("cd", None)];
    assert Crosses(d[1..][0], 2, Some(3));
    assert Slice("cd", 0, Some(1)) == "cd"[0..1] == "c";
    assert TrimmedEmitted(d[1..][0], 2, 1, Some(3), true) == [Run("c", None)];
    assert TrimmedWalk(d[1..], 2, 1, Some(3), true) == [Run("c", None)];
    assert TrimmedWalk(d, 0, 1, Some(3), false) == [Run("b", Some(bold)), Run("c", None)];
    assert RunsText(d[1..]) == "cd" + RunsText([]);
    assert RunsText(d) == "abcd";
    assert RunsText([Run("cd", None)]) == "cd" + RunsText([]);
    assert RunsText([Run("c", None)]) == "c" + RunsText([]);
  }

  // ---------------------------------------------------------------------
  // Text
  // ---------------------------------------------------------------------

  /** An entry of the list `insertList` inserts: its text, absent standing
      for "", and the attributes it is inserted with. */
  datatype ListItem = ListItem(insert: Option<string>, attributes: Option<Attrs>)

  /** `insert || ''`. */
  function ItemText(item: ListItem): string {
    item.insert.GetOr("")
  }

  /** The glyphs of the list's entries one after the other; an entry without
      attributes takes `inherited`. */
  function ListGlyphs(items: seq<ListItem>, inherited: Attrs): seq<Glyph> {
    if items == [] then []
    else Glyphs(ItemText(items[0]), items[0].attributes.GetOr(inherited)) + ListGlyphs(items[1..], inherited)
  }

  /** The texts of the list's entries one after the other. */
  function ListText(items: seq<ListItem>): string {
    if items == [] then "" else ItemText(items[0]) + ListText(items[1..])
  }

  /** The list's glyphs spell the list's texts, in order. */
  lemma {:induction false} ListGlyphsText(items: seq<ListItem>, inherited: Attrs)
    ensures Chars(ListGlyphs(items, inherited)) == ListText(items)
  {
    if items != [] {
      ListGlyphsText(items[1..], inherited);
      var g := Glyphs(ItemText(items[0]), items[0].attributes.GetOr(inherited));
      assert Chars(g + ListGlyphs(items[1..], inherited)) == Chars(g) + Chars(ListGlyphs(items[1..], inherited));
    }
  }

  /** One turn of the loop of `insertList`: inserting entry `i` at `index`
      in front of the entries after it extends the inserted glyphs by its own,
      formatted with the inherited attributes when it has none. */
  lemma InsertListStep(c0: seq<Glyph>, index: nat, items: seq<ListItem>, i: nat)
    requires index <= |c0| && i < |items|
    ensures var inherited := Inherited(c0, index);
            var c := c0[..index] + ListGlyphs(items[i + 1..], inherited) + c0[index..];
            InsertAt(c, index, ItemText(items[i]), items[i].attributes)
              == c0[..index] + ListGlyphs(items[i..], inherited) + c0[index..]
  {
    var inherited := Inherited(c0, index);
    var rest := ListGlyphs(items[i + 1..], inherited);
    var c := c0[..index] + rest + c0[index..];
    assert c[..index] == c0[..index];
    assert c[index..] == rest + c0[index..];
    assert Inherited(c, index) == inherited;
    assert items[i..][1..] == items[i + 1..];
  }

  /** What `insertList` does to the string. */
  lemma InsertListText(c0: seq<Glyph>, index: nat, items: seq<ListItem>)
    requires index <= |c0|
    ensures Chars(c0[..index] + ListGlyphs(items, Inherited(c0, index)) + c0[index..])
         == Chars(c0)[..index] + ListText(items) + Chars(c0)[index..]
  {
    var g := ListGlyphs(items, Inherited(c0, index));
    ListGlyphsText(items, Inherited(c0, index));
    assert Chars(c0[..index] + g + c0[index..]) == Chars(c0[..index]) + Chars(g) + Chars(c0[index..]);
    assert Chars(c0[..index]) == Chars(c0)[..index];
    assert Chars(c0[index..]) == Chars(c0)[index..];
  }

  /** The walk from run `i` is that run's turn followed, unless it crosses
      `end`, by the walk from run `i + 1`. */
  lemma WalkTurn(d: seq<Run>, i: nat, charNum: int, begin: int, end: Option<int>, started: bool)
    requires i < |d|
    ensures var w := Walk(d[i..], charNum, begin, end, started);
            var e := Emitted(d[i], charNum, begin, end, started);
            && (Crosses(d[i], charNum, end) ==> w == e)
            && (!Crosses(d[i], charNum, end) ==>
                  w == e + Walk(d[i + 1..], charNum + |d[i].insert|, begin, end, started || e != []))
  {
    assert d[i..][1..] == d[i + 1..];
  }

  /** One turn of the loop of `sliceToDelta` keeps its invariant: what was
      pushed so far followed by the walk of the remaining runs is the whole
      walk. */
  lemma WalkLoopStep(d: seq<Run>, i: nat, charNum: int, begin: int, end: Option<int>, before: seq<Run>, after: seq<Run>)
    requires i < |d|
    requires after == before + Emitted(d[i], charNum, begin, end, before != [])
    ensures Crosses(d[i], charNum, end) ==> after == before + Walk(d[i..], charNum, begin, end, before != [])
    ensures !Crosses(d[i], charNum, end) ==>
              after + Walk(d[i + 1..], charNum + |d[i].insert|, begin, end, after != [])
                == before + Walk(d[i..], charNum, begin, end, before != [])
  {
    var emitted := Emitted(d[i], charNum, begin, end, before != []);
    WalkTurn(d, i, charNum, begin, end, before != []);
    assert |after| == |before| + |emitted|;
    if !Crosses(d[i], charNum, end) {
      var rest := Walk(d[i + 1..], charNum + |d[i].insert|, begin, end, before != [] || emitted != []);
      assert after + rest == before + (emitted + rest);
    }
  }

  /** The text wrapper of a block: every mutation goes through to the shared
      primitive and leaves the marker saying which kind of mutation it was,
      so that the widget binding forwards the change even though it is
      local. Transactions group the changes for observers; with one replica
      and no concurrent observer they have no effect on the content. */
  class Text {
    const yText: YText

    /** `new Text(store, string)`: a fresh primitive holding `s` unformatted. */
    constructor FromString(s: string)
      ensures fresh(yText) && yText.content == Glyphs(s, map[]) && yText.meta == Unset
    {
      yText := new YText(Glyphs(s, map[]));
    }

    /** `new Text(store, yText)`: wraps an existing primitive. */
    constructor Wrap(y: YText)
      ensures yText == y
    {
      yText := y;
    }

    /** `Text.fromDelta(store, delta)`: an empty text the delta is applied to. */
    static method FromDelta(delta: seq<Op>) returns (t: Text)
      ensures fresh(t) && fresh(t.yText)
      ensures t.yText.content == ApplyOps([], delta) && t.yText.meta == Unset
    {
      t := new Text.FromString("");
      t.ApplyDelta(delta);
    }

    /** `length`. */
    function Length(): (n: nat)
      reads this, yText
      ensures n == |ToString()|
    {
      |yText.content|
    }

    /** `toDelta()`: the runs spell the text and describe its formatting. */
    function ToDelta(): (d: seq<Run>)
      reads this, yText
      ensures RunsText(d) == ToString()
      ensures Expand(d) == yText.content
    {
      ToDeltaText(yText.content);
      ToDeltaExpands(yText.content);
      Yjs.ToDelta(yText.content)
    }

    /** `toString()`: one character per character of the primitive. */
    function ToString(): (s: string)
      reads this, yText
      ensures |s| == |yText.content|
      ensures forall i :: 0 <= i < |s| ==> s[i] == yText.content[i].ch
    {
      Chars(yText.content)
    }

    /** `clone()`: a new wrapper around a copy of the primitive. */
    method Clone() returns (t: Text)
      ensures fresh(t) && fresh(t.yText)
      ensures t.yText.content == yText.content && t.yText.meta == Unset
    {
      var y := yText.Clone();
      t := new Text.Wrap(y);
    }

    /** `split(index)`: two inert placeholders, the text itself untouched. */
    function Split(index: int): (halves: (PrelimText, PrelimText))
      ensures halves.0.kind == SplitLeft && halves.1.kind == SplitRight
      ensures halves.0.index == index && halves.1.index == index
      ensures halves.0.Length() == 0 && halves.1.Length() == 0
    {
      (PrelimText(SplitLeft, index), PrelimText(SplitRight, index))
    }

    /** `insert(content, index, attributes?)`. */
    method Insert(s: string, index: nat, attributes: Option<Attrs>)
      requires index <= Length()
      modifies yText
      ensures yText.content == InsertAt(old(yText.content), index, s, attributes)
      ensures yText.meta == SplitMark
    {
      yText.Insert(index, s, attributes);
      yText.meta := SplitMark;
    }

    /** `insertList(items, index)`: the entries are inserted at `index` from
        the last to the first, so they end up in list order; each entry
        without attributes takes those of the character before `index`. */
    method InsertList(items: seq<ListItem>, index: nat)
      requires index <= Length()
      modifies yText
      ensures yText.content == old(yText.content)[..index]
                               + ListGlyphs(items, Inherited(old(yText.content), index))
                               + old(yText.content)[index..]
      ensures ToString() == old(ToString())[..index] + ListText(items) + old(ToString())[index..]
      ensures yText.meta == SplitMark
    {
      ghost var c0 := yText.content;
      ghost var inherited := Inherited(c0, index);
      var i := |items|;
      assert items[i..] == [];
      while i > 0
        invariant 0 <= i <= |items|
        invariant yText.content == c0[..index] + ListGlyphs(items[i..], inherited) + c0[index..]
        decreases i
      {
        i := i - 1;
        InsertListStep(c0, index, items, i);
        yText.Insert(index, ItemText(items[i]), items[i].attributes);
      }
      yText.meta := SplitMark;
      InsertListText(c0, index, items);
    }

    /** `join(other)`: the other text's delta is applied after a retain of
        this text's length, which appends it, formatting included. */
    method Join(other: Text)
      modifies yText
      ensures yText.content == old(yText.content) + old(other.yText.content)
      ensures yText.meta == JoinMark
    {
      var delta := InsertOps(other.ToDelta());
      ghost var c0, o0 := yText.content, other.yText.content;
      yText.ApplyDelta([Retain(|yText.content|, None)] + delta);
      AppendByDelta(c0, o0);
      yText.meta := JoinMark;
    }

    /** `format(index, length, attributes)`; the primitive stops at the end
        of the text. */
    method Format(index: nat, length: nat, attributes: Attrs)
      modifies yText
      ensures var n := |old(yText.content)|;
              yText.content == FormatRange(old(yText.content), Min(index, n), Min(index + length, n), attributes)
      ensures yText.meta == FormatMark
    {
      yText.Format(index, length, attributes);
      yText.meta := FormatMark;
    }

    /** `delete(index, length)`; the primitive stops at the end of the
        text. */
    method Delete(index: nat, length: nat)
      modifies yText
      ensures yText.content == DeleteRange(old(yText.content), index, length)
      ensures yText.meta == DeleteMark
    {
      yText.Delete(index, length);
      yText.meta := DeleteMark;
    }

    /** `clear()`: everything deleted. */
    method Clear()
      modifies yText
      ensures yText.content == [] && yText.meta == ClearMark
    {
      yText.Delete(0, |yText.content|);
      yText.meta := ClearMark;
    }

    /** `applyDelta(delta)`: the only mutation that leaves no marker. */
    method ApplyDelta(delta: seq<Op>)
      modifies yText
      ensures yText.content == ApplyOps(old(yText.content), delta)
      ensures yText.meta == old(yText.meta)
    {
      yText.ApplyDelta(delta);
    }

    /** `sliceToDelta(begin, end?)`: the runs of the text between `begin` and
        `end`, by the walk `SliceOfDelta` describes. Without a truthy `end`
        and from a non-negative `begin` they spell `toString().slice(begin)`. */
    method SliceToDelta(begin: int, end: Option<int>) returns (result: seq<Run>)
      ensures result == SliceOfDelta(ToDelta(), begin, end)
      ensures 0 <= begin && !Truthy(end) ==> RunsText(result) == Slice(ToString(), begin, None)
    {
      var delta := ToDelta();
      if 0 <= begin && !Truthy(end) {
        SliceWithoutEnd(delta, begin, end);
      }
      if Truthy(end) && begin >= end.value {
        return [];
      }
      if begin < 1 && !Truthy(end) {
        return delta;
      }
      result := WalkRuns(delta, begin, end);
    }

    /** The loop of `sliceToDelta` over the runs of the text. */
    static method WalkRuns(delta: seq<Run>, begin: int, end: Option<int>) returns (result: seq<Run>)
      ensures result == Walk(delta, 0, begin, if Truthy(end) then end else None, false)
    {
      ghost var e := if Truthy(end) then end else None;
      result := [];
      var charNum := 0;
      var i := 0;
      while i < |delta|
        invariant 0 <= i <= |delta|
        invariant result + Walk(delta[i..], charNum, begin, e, result != []) == Walk(delta, 0, begin, e, false)
        decreases |delta| - i
      {
        ghost var before := result;
        var crossed;
        result, crossed := PushRun(result, delta[i], charNum, begin, end);
        WalkLoopStep(delta, i, charNum, begin, e, before, result);
        if crossed {
          break;
        }
        charNum := charNum + |delta[i].insert|;
        i := i + 1;
      }
    }

    /** One turn of the loop of `sliceToDelta`: the run is cut at a truthy
        `end` it crosses and at `begin` when nothing was pushed yet, and is
        pushed cut when it is the first to reach past `begin`, uncut when
        something was pushed already; `crossed` says the loop stops. */
    static method PushRun(result: seq<Run>, content: Run, charNum: int, begin: int, end: Option<int>)
      returns (result': seq<Run>, crossed: bool)
      ensures var e := if Truthy(end) then end else None;
              && result' == result + Emitted(content, charNum, begin, e, result != [])
              && crossed == Crosses(content, charNum, e)
    {
      var contentText := content.insert;
      var contentLen := |contentText|;
      if Truthy(end) && charNum + contentLen > end.value {
        contentText := Slice(contentText, 0, Some(end.value - charNum));
      }
      if charNum + contentLen > begin && |result| == 0 {
        contentText := Slice(contentText, begin - charNum, None);
      }
      result' := result;
      if charNum + contentLen > begin && |result| == 0 {
        result' := result + [content.(insert := contentText)];
      } else if |result| > 0 {
        result' := result + [content];
      }
      crossed := Truthy(end) && charNum + contentLen > end.value;
    }
  }
}
