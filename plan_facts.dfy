/** What the stitch plan promises: the shape of each segment, the shape of
    the whole plan, its length and instruction counts, the order in which it
    visits the input, and the centring of the design. */
module PlanFacts {
  import opened Arith
  import opened StitchPlan

  // ---------------------------------------------------------------------
  // Counting over concatenations

  lemma {:induction false} CountAppend(a: seq<Instr>, b: seq<Instr>, k: Kind)
    ensures Count(a + b, k) == Count(a, k) + Count(b, k)
    decreases |b|
  {
    if b == [] {
      assert a + b == a;
    } else {
      assert (a + b)[..|a + b| - 1] == a + b[..|b| - 1];
      CountAppend(a, b[..|b| - 1], k);
    }
  }

  lemma CountSnoc(e: seq<Instr>, x: Instr, k: Kind)
    ensures Count(e + [x], k) == Count(e, k) + if x.kind == k then 1 else 0
  {
    assert (e + [x])[..|e|] == e;
  }

  lemma {:induction false} CountUniform(p: seq<Instr>, k: Kind, k': Kind)
    requires forall i :: 0 <= i < |p| ==> p[i].kind == k
    ensures Count(p, k') == if k == k' then |p| else 0
    decreases |p|
  {
    if p != [] {
      CountUniform(p[..|p| - 1], k, k');
    }
  }

  /** The counts of a single instruction. */
  lemma CountOne(x: Instr, k: Kind)
    ensures Count([x], k) == if x.kind == k then 1 else 0
  {
    assert [x][..0] == [];
  }

  // ---------------------------------------------------------------------
  // Sub-steps and jumps

  /** Sub-step 0 is the pre-jump position. */
  lemma SubStepFirst(from: Point, to: Point, n: nat)
    requires n > 0
    ensures SubStep(from, to, n, 0) == from
  {
    TruncDivExact(from.x, n);
    TruncDivExact(from.y, n);
  }

  /** Sub-step n is the target: the last MOVE of a jump lands exactly on
      the new point. */
  lemma SubStepLast(from: Point, to: Point, n: nat)
    requires n > 0
    ensures SubStep(from, to, n, n) == to
  {
    assert from.x * n + (to.x - from.x) * n == to.x * n;
    assert from.y * n + (to.y - from.y) * n == to.y * n;
    TruncDivExact(to.x, n);
    TruncDivExact(to.y, n);
  }

  /** A jump holds a TRIM at the pre-jump position and then n MOVEs. */
  lemma JumpStart(from: Point, to: Point)
    requires !Near(from, to)
    ensures var j := Jump(from, to);
      |j| == Steps(from, to) + 1 && j[0] == InstrAt(Trim, from)
  {
  }

  /** The k-th MOVE of a jump is the k-th interpolated sub-step. */
  lemma JumpMoves(from: Point, to: Point)
    requires !Near(from, to)
    ensures var j, n := Jump(from, to), Steps(from, to);
      forall k :: 1 <= k <= n ==> j[k] == InstrAt(Move, SubStep(from, to, n, k))
  {
  }

  /** The k-th MOVE of a jump, one k at a time. */
  lemma JumpMoveAt(from: Point, to: Point, k: nat)
    requires !Near(from, to) && 1 <= k <= Steps(from, to)
    ensures k < |Jump(from, to)| && Jump(from, to)[k] == InstrAt(Move, SubStep(from, to, Steps(from, to), k))
  {
    JumpMoves(from, to);
  }

  /** The last MOVE of a jump lands exactly on the target. */
  lemma JumpLast(from: Point, to: Point)
    requires !Near(from, to)
    ensures var j := Jump(from, to);
      |j| > 1 && j[|j| - 1] == InstrAt(Move, to)
  {
    SubStepLast(from, to, Steps(from, to));
  }

  /** A jump is a TRIM at the pre-jump position followed by exactly n MOVEs,
      the k-th interpolated from the pre-jump position by k/n of the way,
      and the n-th at the target. */
  lemma JumpShape(from: Point, to: Point)
    requires !Near(from, to)
    ensures var j, n := Jump(from, to), Steps(from, to);
      |j| == n + 1 && j[0] == InstrAt(Trim, from) &&
      (forall k :: 1 <= k <= n ==> j[k] == InstrAt(Move, SubStep(from, to, n, k))) &&
      j[n] == InstrAt(Move, to)
  {
    JumpStart(from, to);
    JumpMoves(from, to);
    JumpLast(from, to);
  }

  /** One coordinate of consecutive sub-steps, for an axis displacement d
      shorter than 127 n. */
  lemma AxisStep(base: int, d: int, n: nat, k: nat)
    requires n > 0 && -(MaxStitch * n) < d < MaxStitch * n
    ensures -MaxStitch <= Interp(base, d, n, k + 1) - Interp(base, d, n, k) <= MaxStitch
  {
    var a := base * n + d * k;
    assert base * n + d * (k + 1) == a + d;
    var u, v := TruncDiv(a, n), TruncDiv(a + d, n);
    if d >= 0 {
      TruncDivStep(a, d, n);
      assert (v - u) * n == (v - u - 1) * n + n;
      BelowPerStep(v - u, d, n);
    } else {
      TruncDivStep(a + d, -d, n);
      assert a + d + -d == a;
      assert (u - v) * n == (u - v - 1) * n + n;
      BelowPerStep(u - v, -d, n);
    }
  }

  /** Consecutive sub-steps of a jump are at most 127 apart on each axis. */
  lemma SubStepAxisBound(from: Point, to: Point, k: nat)
    requires !Near(from, to) && k < Steps(from, to)
    ensures var n := Steps(from, to);
      AxisNear(SubStep(from, to, n, k), SubStep(from, to, n, k + 1))
  {
    var n := Steps(from, to);
    AxisBelow(to.x - from.x, to.y - from.y, MaxStitch * n);
    AxisStep(from.x, to.x - from.x, n, k);
    AxisStep(from.y, to.y - from.y, n, k);
  }

  /** A long jump holds one TRIM, Steps MOVEs and nothing else. */
  lemma JumpCount(from: Point, to: Point, k: Kind)
    requires !Near(from, to)
    ensures Count(Jump(from, to), k) ==
      if k == Trim then 1 else if k == Move then Steps(from, to) else 0
  {
    var j := Jump(from, to);
    var moves := j[1..];
    assert j == [j[0]] + moves;
    assert forall i :: 0 <= i < |moves| ==> moves[i].kind == Move;
    CountAppend([j[0]], moves, k);
    CountOne(j[0], k);
    CountUniform(moves, Move, k);
  }

  /** A long jump holds one TRIM, Steps MOVEs and no STITCH or END. */
  lemma JumpCounts(from: Point, to: Point)
    requires !Near(from, to)
    ensures var j := Jump(from, to);
      Count(j, Stitch) == 0 && Count(j, Trim) == 1 &&
      Count(j, Move) == Steps(from, to) && Count(j, End) == 0
  {
    JumpCount(from, to, Stitch);
    JumpCount(from, to, Trim);
    JumpCount(from, to, Move);
    JumpCount(from, to, End);
  }

  /** A pair at most 127 apart gives exactly one STITCH, at the new point. */
  lemma SegmentShort(from: Point, to: Point)
    requires Near(from, to)
    ensures var s := Segment(from, to);
      |s| == 1 && s[0] == InstrAt(Stitch, to) &&
      Count(s, Stitch) == 1 && Count(s, Trim) == 0 && Count(s, Move) == 0 && Count(s, End) == 0
  {
    var x := InstrAt(Stitch, to);
    assert Segment(from, to) == [x];
    CountOne(x, Stitch);
    CountOne(x, Trim);
    CountOne(x, Move);
    CountOne(x, End);
  }

  /** A pair further apart gives one TRIM and Steps MOVEs, ending at the new
      point, and no STITCH. */
  lemma SegmentLong(from: Point, to: Point)
    requires !Near(from, to)
    ensures var s := Segment(from, to);
      |s| == 1 + Steps(from, to) && s[|s| - 1] == InstrAt(Move, to) &&
      Count(s, Stitch) == 0 && Count(s, Trim) == 1 &&
      Count(s, Move) == Steps(from, to) && Count(s, End) == 0
  {
    assert Segment(from, to) == Jump(from, to);
    JumpStart(from, to);
    JumpLast(from, to);
    JumpCounts(from, to);
  }

  /** A pair at most 127 apart gives exactly one STITCH, at the new point; a
      pair further apart gives one TRIM and Steps MOVEs and no STITCH. Either
      way the segment ends at the new point. */
  lemma SegmentShape(from: Point, to: Point)
    ensures Near(from, to) ==> var s := Segment(from, to);
      |s| == 1 && s[0] == InstrAt(Stitch, to) &&
      Count(s, Stitch) == 1 && Count(s, Trim) == 0 && Count(s, Move) == 0 && Count(s, End) == 0
    ensures !Near(from, to) ==> var s := Segment(from, to);
      |s| == 1 + Steps(from, to) && s[|s| - 1] == InstrAt(Move, to) &&
      Count(s, Stitch) == 0 && Count(s, Trim) == 1 &&
      Count(s, Move) == Steps(from, to) && Count(s, End) == 0
  {
    if Near(from, to) {
      SegmentShort(from, to);
    } else {
      SegmentLong(from, to);
    }
  }

  /** A segment is never empty and ends with a MOVE or a STITCH at the new
      point. */
  lemma SegmentEnd(from: Point, to: Point)
    ensures var s := Segment(from, to);
      |s| > 0 && s[|s| - 1].At() == to && (s[|s| - 1].kind == Move || s[|s| - 1].kind == Stitch)
  {
    if !Near(from, to) {
      assert Segment(from, to) == Jump(from, to);
      JumpLast(from, to);
    }
  }

  // ---------------------------------------------------------------------
  // Appending a segment after an instruction at position a

  /** The instruction before s[i], when s follows an instruction at a. */
  function Before(s: seq<Instr>, a: Point, i: nat): Point
    requires i < |s|
  {
    if i == 0 then a else s[i - 1].At()
  }

  lemma TrimsPairedAppend(e: seq<Instr>, s: seq<Instr>)
    requires TrimsPaired(e) && |e| > 0 && e[|e| - 1].kind != Trim
    requires forall i :: 0 <= i < |s| && s[i].kind == Trim ==>
      i == 0 && |s| > 1 && s[0].At() == e[|e| - 1].At() && s[1].kind == Move
    ensures TrimsPaired(e + s)
  {
    var p := e + s;
    forall i | 0 <= i < |p| && p[i].kind == Trim
      ensures 0 < i < |p| - 1 && p[i - 1].At() == p[i].At() && p[i + 1].kind == Move
    {
      if i >= |e| {
        assert s[i - |e|].kind == Trim;
      }
    }
  }

  lemma NonMovesNearAppend(e: seq<Instr>, s: seq<Instr>)
    requires NonMovesNear(e) && |e| > 0
    requires forall i :: 0 <= i < |s| && s[i].kind != Move ==> Near(Before(s, e[|e| - 1].At(), i), s[i].At())
    ensures NonMovesNear(e + s)
  {
    var p := e + s;
    forall i | 0 < i < |p| && p[i].kind != Move
      ensures Near(p[i - 1].At(), p[i].At())
    {
      if i >= |e| {
        assert s[i - |e|].kind != Move;
      }
    }
  }

  lemma MovesAxisNearAppend(e: seq<Instr>, s: seq<Instr>)
    requires MovesAxisNear(e) && |e| > 0
    requires forall i :: 0 <= i < |s| && s[i].kind == Move ==> AxisNear(Before(s, e[|e| - 1].At(), i), s[i].At())
    ensures MovesAxisNear(e + s)
  {
    var p := e + s;
    forall i | 0 < i < |p| && p[i].kind == Move
      ensures AxisNear(p[i - 1].At(), p[i].At())
    {
      if i >= |e| {
        assert s[i - |e|].kind == Move;
      }
    }
  }

  /** The only TRIM of a segment is its first instruction, at the pre-jump
      position, and a MOVE follows it. */
  lemma SegmentTrims(a: Point, b: Point)
    ensures var s := Segment(a, b);
      forall i :: 0 <= i < |s| && s[i].kind == Trim ==> i == 0 && |s| > 1 && s[0].At() == a && s[1].kind == Move
  {
    if !Near(a, b) {
      assert Segment(a, b) == Jump(a, b);
      JumpStart(a, b);
      JumpMoves(a, b);
    }
  }

  /** In a segment only the STITCH or the TRIM is not a MOVE, and it lies
      within 127 units of the instruction before it. */
  lemma SegmentNonMoves(a: Point, b: Point)
    ensures var s := Segment(a, b);
      forall i :: 0 <= i < |s| && s[i].kind != Move ==> Near(Before(s, a, i), s[i].At())
  {
    if !Near(a, b) {
      assert Segment(a, b) == Jump(a, b);
      JumpStart(a, b);
      JumpMoves(a, b);
      assert Near(a, a);
    }
  }

  /** The first MOVE of a jump is within 127 units, per axis, of the
      pre-jump position. */
  lemma FirstSubStepAxisNear(a: Point, b: Point)
    requires !Near(a, b)
    ensures AxisNear(a, SubStep(a, b, Steps(a, b), 1))
  {
    SubStepFirst(a, b, Steps(a, b));
    SubStepAxisBound(a, b, 0);
  }

  /** The k-th MOVE of a jump is within 127 units, per axis, of the
      instruction before it. */
  lemma JumpMoveAxisNear(a: Point, b: Point, k: nat)
    requires !Near(a, b) && 1 <= k < |Jump(a, b)|
    ensures var j := Jump(a, b); AxisNear(Before(j, a, k), j[k].At())
  {
    var n, j := Steps(a, b), Jump(a, b);
    JumpStart(a, b);
    JumpMoves(a, b);
    assert j[k].At() == SubStep(a, b, n, k);
    if k == 1 {
      assert Before(j, a, k) == a;
      FirstSubStepAxisNear(a, b);
    } else {
      assert Before(j, a, k) == j[k - 1].At() == SubStep(a, b, n, k - 1);
      SubStepAxisBound(a, b, k - 1);
    }
  }

  /** Each MOVE of a segment is within 127 units, per axis, of the
      instruction before it. */
  lemma SegmentMoves(a: Point, b: Point)
    ensures var s := Segment(a, b);
      forall i :: 0 <= i < |s| && s[i].kind == Move ==> AxisNear(Before(s, a, i), s[i].At())
  {
    if !Near(a, b) {
      var s := Jump(a, b);
      assert Segment(a, b) == s;
      JumpStart(a, b);
      forall i | 0 <= i < |s| && s[i].kind == Move
        ensures AxisNear(Before(s, a, i), s[i].At())
      {
        JumpMoveAxisNear(a, b, i);
      }
    }
  }

  // ---------------------------------------------------------------------
  // The whole plan

  /** The plan before its END starts with a MOVE at the first point and ends
      with a MOVE or STITCH at the last point. */
  lemma {:induction false} EmitEnds(cs: seq<Point>)
    requires |cs| > 0
    ensures var e := Emit(cs);
      |e| > 0 && e[0] == InstrAt(Move, cs[0]) &&
      e[|e| - 1].At() == cs[|cs| - 1] && (e[|e| - 1].kind == Move || e[|e| - 1].kind == Stitch)
    decreases |cs|
  {
    if |cs| > 1 {
      var init := cs[..|cs| - 1];
      var e, s := Emit(init), Segment(cs[|cs| - 2], cs[|cs| - 1]);
      EmitEnds(init);
      SegmentEnd(cs[|cs| - 2], cs[|cs| - 1]);
      assert Emit(cs) == e + s;
      ConcatEnds(e, s);
    }
  }

  /** A plan starts with a MOVE at the first centred point and ends with an
      END at the last one; it holds at least those two instructions. */
  lemma PlanEnds(cs: seq<Point>)
    requires |cs| > 0
    ensures var p := Plan(cs);
      |p| >= 2 && p[0] == InstrAt(Move, cs[0]) && p[|p| - 1] == InstrAt(End, cs[|cs| - 1])
  {
    EmitEnds(cs);
  }

  lemma {:induction false} EmitTrimsPaired(cs: seq<Point>)
    requires |cs| > 0
    ensures TrimsPaired(Emit(cs))
    decreases |cs|
  {
    if |cs| > 1 {
      var init := cs[..|cs| - 1];
      var a, b := cs[|cs| - 2], cs[|cs| - 1];
      EmitEnds(init);
      EmitTrimsPaired(init);
      SegmentTrims(a, b);
      assert init[|init| - 1] == a;
      TrimsPairedAppend(Emit(init), Segment(a, b));
    }
  }

  lemma {:induction false} EmitNonMovesNear(cs: seq<Point>)
    requires |cs| > 0
    ensures NonMovesNear(Emit(cs))
    decreases |cs|
  {
    if |cs| > 1 {
      var init := cs[..|cs| - 1];
      var a, b := cs[|cs| - 2], cs[|cs| - 1];
      EmitEnds(init);
      EmitNonMovesNear(init);
      SegmentNonMoves(a, b);
      assert init[|init| - 1] == a;
      NonMovesNearAppend(Emit(init), Segment(a, b));
    }
  }

  lemma {:induction false} EmitMovesAxisNear(cs: seq<Point>)
    requires |cs| > 0
    ensures MovesAxisNear(Emit(cs))
    decreases |cs|
  {
    if |cs| > 1 {
      var init := cs[..|cs| - 1];
      var a, b := cs[|cs| - 2], cs[|cs| - 1];
      EmitEnds(init);
      EmitMovesAxisNear(init);
      SegmentMoves(a, b);
      assert init[|init| - 1] == a;
      MovesAxisNearAppend(Emit(init), Segment(a, b));
    }
  }

  /** Every TRIM is placed where the needle already is and is immediately
      followed by a MOVE. */
  lemma PlanTrimsPaired(cs: seq<Point>)
    requires |cs| > 0
    ensures TrimsPaired(Plan(cs))
  {
    EmitTrimsPaired(cs);
    EmitEnds(cs);
    TrimsPairedAppend(Emit(cs), [InstrAt(End, cs[|cs| - 1])]);
  }

  /** The plan starts with a MOVE, and every STITCH, TRIM and END is within
      127 units of the instruction before it; only MOVEs travel further. */
  lemma PlanNonMovesNear(cs: seq<Point>)
    requires |cs| > 0
    ensures NonMovesNear(Plan(cs))
  {
    var last := cs[|cs| - 1];
    EmitNonMovesNear(cs);
    EmitEnds(cs);
    assert Near(last, last);
    NonMovesNearAppend(Emit(cs), [InstrAt(End, last)]);
  }

  /** Every MOVE after the first is at most 127 units away from the
      instruction before it along each axis. */
  lemma PlanMovesAxisNear(cs: seq<Point>)
    requires |cs| > 0
    ensures MovesAxisNear(Plan(cs))
  {
    EmitMovesAxisNear(cs);
    EmitEnds(cs);
    MovesAxisNearAppend(Emit(cs), [InstrAt(End, cs[|cs| - 1])]);
  }

  lemma {:induction false} EmitCounts(cs: seq<Point>)
    requires |cs| > 0
    ensures var e := Emit(cs);
      |e| == 1 + ShortPairs(cs) + LongPairs(cs) + SubSteps(cs) &&
      Count(e, Stitch) == ShortPairs(cs) && Count(e, Trim) == LongPairs(cs) &&
      Count(e, Move) == 1 + SubSteps(cs) && Count(e, End) == 0
    decreases |cs|
  {
    if |cs| == 1 {
      assert Emit(cs)[..0] == [];
    } else {
      var init := cs[..|cs| - 1];
      var a, b := cs[|cs| - 2], cs[|cs| - 1];
      EmitCounts(init);
      SegmentShape(a, b);
      CountAppend(Emit(init), Segment(a, b), Stitch);
      CountAppend(Emit(init), Segment(a, b), Trim);
      CountAppend(Emit(init), Segment(a, b), Move);
      CountAppend(Emit(init), Segment(a, b), End);
    }
  }

  /** The plan holds one MOVE for the first point and one per sub-step, one
      STITCH per short pair, one TRIM per long pair and one END; so its length
      is 2 + (short pairs) + the sum over long pairs of (1 + steps). */
  lemma PlanCounts(cs: seq<Point>)
    requires |cs| > 0
    ensures var p := Plan(cs);
      |p| == 2 + ShortPairs(cs) + LongPairs(cs) + SubSteps(cs) &&
      Count(p, Stitch) == ShortPairs(cs) && Count(p, Trim) == LongPairs(cs) &&
      Count(p, Move) == 1 + SubSteps(cs) && Count(p, End) == 1
  {
    var e, x := Emit(cs), InstrAt(End, cs[|cs| - 1]);
    EmitCounts(cs);
    assert Plan(cs) == e + [x];
    CountSnoc(e, x, Stitch);
    CountSnoc(e, x, Trim);
    CountSnoc(e, x, Move);
    CountSnoc(e, x, End);
  }

  // ---------------------------------------------------------------------
  // Input order

  lemma {:induction false} EmitPrefix(cs: seq<Point>, m: nat)
    requires 1 <= m <= |cs|
    ensures |Emit(cs[..m])| <= |Emit(cs)| && Emit(cs[..m]) == Emit(cs)[..|Emit(cs[..m])|]
    decreases |cs|
  {
    if m < |cs| {
      var init := cs[..|cs| - 1];
      assert init[..m] == cs[..m];
      EmitPrefix(init, m);
    } else {
      assert cs[..m] == cs;
    }
  }

  /** The index in the plan of the instruction that reaches the i-th point. */
  function Visit(cs: seq<Point>, i: nat): int
    requires i < |cs|
  {
    |Emit(cs[..i + 1])| - 1
  }

  /** Instruction Visit(cs, i) of the plan is the last one emitted for the
      first i + 1 points. */
  lemma VisitIsLast(cs: seq<Point>, i: nat)
    requires i < |cs|
    ensures var p, v := Plan(cs), Visit(cs, i);
      0 <= v < |p| - 1 && v < |Emit(cs[..i + 1])| && p[v] == Emit(cs[..i + 1])[v]
  {
    var e, ei := Emit(cs), Emit(cs[..i + 1]);
    var x := InstrAt(End, cs[|cs| - 1]);
    EmitEnds(cs[..i + 1]);
    EmitPrefix(cs, i + 1);
    PrefixLast(e, ei, x);
    assert Plan(cs) == e + [x];
  }

  /** The last instruction emitted for the first i + 1 points is a MOVE or
      STITCH at the i-th point. */
  lemma VisitLast(cs: seq<Point>, i: nat)
    requires i < |cs|
    ensures var e := Emit(cs[..i + 1]);
      |e| > 0 && e[|e| - 1].At() == cs[i] && (e[|e| - 1].kind == Move || e[|e| - 1].kind == Stitch)
  {
    EmitEnds(cs[..i + 1]);
  }

  /** Instruction Visit(cs, i) is a MOVE or STITCH at the i-th point, and it
      comes before the END. */
  lemma VisitInPlan(cs: seq<Point>, i: nat)
    requires i < |cs|
    ensures var p, v := Plan(cs), Visit(cs, i);
      0 <= v < |p| - 1 && p[v].At() == cs[i] && (p[v].kind == Move || p[v].kind == Stitch)
  {
    VisitIsLast(cs, i);
    VisitLast(cs, i);
    SameInstr(Plan(cs), Visit(cs, i), Emit(cs[..i + 1]), cs[i]);
  }

  /** Each new point adds at least one instruction. */
  lemma EmitGrows(cs: seq<Point>)
    requires |cs| > 1
    ensures |Emit(cs[..|cs| - 1])| < |Emit(cs)|
  {
    SegmentEnd(cs[|cs| - 2], cs[|cs| - 1]);
  }

  lemma EmitLenMonotone(cs: seq<Point>, m: nat, m': nat)
    requires 1 <= m <= m' <= |cs|
    ensures |Emit(cs[..m])| <= |Emit(cs[..m'])|
  {
    assert cs[..m'][..m] == cs[..m];
    EmitPrefix(cs[..m'], m);
  }

  lemma EmitLenGrows(cs: seq<Point>, m: nat)
    requires 1 <= m < |cs|
    ensures |Emit(cs[..m])| < |Emit(cs[..m + 1])|
  {
    var c := cs[..m + 1];
    assert c[..|c| - 1] == cs[..m];
    EmitGrows(c);
  }

  /** Later points are reached by later instructions. */
  lemma VisitIncreasing(cs: seq<Point>, i: nat, j: nat)
    requires i < j < |cs|
    ensures Visit(cs, i) < Visit(cs, j)
  {
    EmitLenMonotone(cs, i + 1, j);
    EmitLenGrows(cs, j);
  }

  /** The plan reaches the input points in their input order: the i-th
      point is reached by instruction Visit(cs, i), a MOVE or STITCH at that
      point, and later points are reached later. */
  lemma InputOrderPreserved(cs: seq<Point>, i: nat, j: nat)
    requires i < j < |cs|
    ensures var p := Plan(cs);
      0 <= Visit(cs, i) < Visit(cs, j) < |p| - 1 &&
      p[Visit(cs, i)].At() == cs[i] && p[Visit(cs, j)].At() == cs[j] &&
      (p[Visit(cs, i)].kind == Move || p[Visit(cs, i)].kind == Stitch)
  {
    VisitInPlan(cs, i);
    VisitInPlan(cs, j);
    VisitIncreasing(cs, i, j);
  }

  // ---------------------------------------------------------------------
  // Centring

  /** Each centred coordinate is Python's `round` of the offset from the box
      centre: within 1/2 of v - (lo + hi) / 2, and even when that offset is a
      tie, on both axes. */
  lemma CentredNearest(ps: seq<Point>, i: nat)
    requires i < |ps|
    ensures var c, ex := Centred(ps)[i], 2 * ps[i].x - MinOf(Xs(ps)) - MaxOf(Xs(ps));
      -1 <= ex - 2 * c.x <= 1 && (ex - 2 * c.x != 0 ==> c.x % 2 == 0)
    ensures var c, ey := Centred(ps)[i], 2 * ps[i].y - MinOf(Ys(ps)) - MaxOf(Ys(ps));
      -1 <= ey - 2 * c.y <= 1 && (ey - 2 * c.y != 0 ==> c.y % 2 == 0)
  {
    RoundHalfNearest(2 * ps[i].x - MinOf(Xs(ps)) - MaxOf(Xs(ps)));
    RoundHalfNearest(2 * ps[i].y - MinOf(Ys(ps)) - MaxOf(Ys(ps)));
  }

  /** When c orders its elements as s does, the least and greatest elements
      of c sit where those of s do. */
  lemma ExtremesOfImage(s: seq<int>, c: seq<int>)
    requires |s| > 0 && |c| == |s|
    requires forall i, j :: 0 <= i < |s| && 0 <= j < |s| && s[i] <= s[j] ==> c[i] <= c[j]
    ensures MinOf(c) == c[ArgMin(s)] && MaxOf(c) == c[ArgMax(s)]
  {
    var i0, i1, j0, j1 := ArgMin(s), ArgMax(s), ArgMin(c), ArgMax(c);
    assert s[i0] <= s[j0] && s[j1] <= s[i1];
  }

  /** Centring one axis keeps the order of its coordinates. */
  lemma CentredOrdered(s: seq<int>, c: seq<int>, lo: int, hi: int)
    requires |c| == |s|
    requires forall i :: 0 <= i < |s| ==> c[i] == Centre(s[i], lo, hi)
    ensures forall i, j :: 0 <= i < |s| && 0 <= j < |s| && s[i] <= s[j] ==> c[i] <= c[j]
  {
    forall i, j | 0 <= i < |s| && 0 <= j < |s| && s[i] <= s[j]
      ensures c[i] <= c[j]
    {
      RoundHalfMonotone(2 * s[i] - lo - hi, 2 * s[j] - lo - hi);
    }
  }

  /** Centring one axis leaves its least and greatest elements where they
      were. */
  lemma CentredExtremes(s: seq<int>, c: seq<int>, lo: int, hi: int)
    requires |s| > 0 && |c| == |s|
    requires forall i :: 0 <= i < |s| ==> c[i] == Centre(s[i], lo, hi)
    ensures MinOf(c) == c[ArgMin(s)] && MaxOf(c) == c[ArgMax(s)]
  {
    CentredOrdered(s, c, lo, hi);
    ExtremesOfImage(s, c);
  }

  /** The centred coordinates of one axis, given the raw ones s, have a
      least and a greatest element that cancel. */
  lemma CentredAxis(s: seq<int>, c: seq<int>)
    requires |s| > 0 && |c| == |s|
    requires forall i :: 0 <= i < |s| ==> c[i] == Centre(s[i], MinOf(s), MaxOf(s))
    ensures MinOf(c) + MaxOf(c) == 0
  {
    var lo, hi := MinOf(s), MaxOf(s);
    CentredExtremes(s, c, lo, hi);
    var i0, i1 := ArgMin(s), ArgMax(s);
    assert c[i0] == RoundHalf(-(hi - lo)) && c[i1] == RoundHalf(hi - lo) by {
      assert 2 * lo - lo - hi == -(hi - lo) && 2 * hi - lo - hi == hi - lo;
    }
    RoundHalfOdd(hi - lo);
  }

  /** After centring, the design's bounding box is exactly symmetric about
      the origin on both axes: min + max == 0. */
  lemma CentredBoxSymmetric(ps: seq<Point>)
    requires |ps| > 0
    ensures var cs := Centred(ps);
      MinOf(Xs(cs)) + MaxOf(Xs(cs)) == 0 && MinOf(Ys(cs)) + MaxOf(Ys(cs)) == 0
  {
    var cs := Centred(ps);
    CentredAxis(Xs(ps), Xs(cs));
    CentredAxis(Ys(ps), Ys(cs));
  }

  // ---------------------------------------------------------------------
  // Positions in concatenated sequences, cited by the proofs above so that
  // the verifier need not rediscover them

  lemma ConcatEnds(e: seq<Instr>, s: seq<Instr>)
    requires |e| > 0 && |s| > 0
    ensures (e + s)[0] == e[0] && (e + s)[|e + s| - 1] == s[|s| - 1]
  {
  }

  /** The last element of a prefix ei of e stays in place when e is
      extended by x. */
  lemma PrefixLast(e: seq<Instr>, ei: seq<Instr>, x: Instr)
    requires 0 < |ei| <= |e| && ei == e[..|ei|]
    ensures (e + [x])[|ei| - 1] == ei[|ei| - 1]
  {
  }

  lemma SameInstr(p: seq<Instr>, v: int, e: seq<Instr>, c: Point)
    requires 0 <= v < |p| && v < |e| && p[v] == e[v]
    requires e[v].At() == c && (e[v].kind == Move || e[v].kind == Stitch)
    ensures p[v].At() == c && (p[v].kind == Move || p[v].kind == Stitch)
  {
  }
}
