/** The PES export handler's conversion of the posted stitch list into a
    machine plan: the rejection of an empty list, the rejection of a point
    without coordinates, and the loop that emits MOVE, STITCH, TRIM and END
    instructions while counting stitches and jumps. */
module Export {
  import opened Arith
  import opened StitchPlan
  import opened PlanFacts

  datatype Option<T> = None | Some(value: T)

  /** One element of the posted `stitches` list; either key may be absent. */
  datatype RawPoint = RawPoint(x: Option<int>, y: Option<int>)

  /** Why the handler refuses a request: an empty list (HTTP 400) or a point
      without an `x` or `y` key (a KeyError, reported as HTTP 500). */
  datatype ExportError = NoStitches | MalformedPoint

  /** The plan handed to the PES writer, with the two counters the handler
      logs. */
  datatype Report = Report(plan: seq<Instr>, stitchCount: nat, jumpCount: nat)

  datatype Outcome = Built(report: Report) | Failed(error: ExportError)

  /** Every point carries both coordinates. */
  predicate WellFormed(raw: seq<RawPoint>)
  {
    forall i :: 0 <= i < |raw| ==> raw[i].x.Some? && raw[i].y.Some?
  }

  /** The design points of a well-formed list: one per posted element, and
      reading a point loses none of its coordinates. */
  function Points(raw: seq<RawPoint>): (ps: seq<Point>)
    requires WellFormed(raw)
    ensures |ps| == |raw|
    ensures forall i :: 0 <= i < |raw| ==> raw[i] == RawPoint(Some(ps[i].x), Some(ps[i].y))
  {
    seq(|raw|, i requires 0 <= i < |raw| => Point(raw[i].x.value, raw[i].y.value))
  }

  /** What the handler produces for the posted list raw. */
  function ExportPlan(raw: seq<RawPoint>): (o: Outcome)
  {
    if |raw| == 0 then Failed(NoStitches)
    else if !WellFormed(raw) then Failed(MalformedPoint)
    else
      var cs := Centred(Points(raw));
      Built(Report(Plan(cs), 1 + ShortPairs(cs), LongPairs(cs)))
  }

  // ---------------------------------------------------------------------
  // The handler's loops

  /** The inner loop for one long jump: a TRIM at the last position together
      with the first MOVE, then one MOVE per further sub-step. */
  method AppendJump(pattern: seq<Instr>, last: Point, to: Point) returns (r: seq<Instr>)
    requires !Near(last, to)
    ensures r == pattern + Jump(last, to)
  {
    var steps := JumpSteps(Dist2(to.x - last.x, to.y - last.y));
    ghost var j := Jump(last, to);
    JumpStart(last, to);
    r := pattern;
    var step := 1;
    while step <= steps
      invariant 1 <= step <= steps + 1
      invariant r == pattern + j[..if step == 1 then 0 else step]
    {
      var s := SubStep(last, to, steps, step);
      JumpMoveAt(last, to, step);
      ghost var r0 := r;
      if step == 1 {
        r := r + [InstrAt(Trim, last), InstrAt(Move, s)];
      } else {
        r := r + [InstrAt(Move, s)];
      }
      JumpPrefixNext(j, pattern, r0, r, step, last, s);
      step := step + 1;
    }
    assert j[..steps + 1] == j;
  }

  /** One turn of the inner loop extends the emitted prefix of the jump j
      by the instructions for sub-step `step`. */
  lemma JumpPrefixNext(j: seq<Instr>, pattern: seq<Instr>, r0: seq<Instr>, r: seq<Instr>,
                       step: nat, last: Point, s: Point)
    requires 1 <= step < |j| && j[0] == InstrAt(Trim, last) && j[step] == InstrAt(Move, s)
    requires r0 == pattern + j[..if step == 1 then 0 else step]
    requires r == r0 + if step == 1 then [InstrAt(Trim, last), InstrAt(Move, s)] else [InstrAt(Move, s)]
    ensures r == pattern + j[..step + 1]
  {
    if step == 1 {
      assert j[..2] == [j[0], j[1]];
    } else {
      assert j[..step + 1] == j[..step] + [j[step]];
    }
  }


  /** The body of the handler's loop for every point after the first: a
      STITCH to p when it is at most 127 units from the last position,
      otherwise a split jump. Reports whether it jumped. */
  method AppendSegment(pattern: seq<Instr>, last: Point, p: Point) returns (r: seq<Instr>, jumped: bool)
    ensures r == pattern + Segment(last, p)
    ensures jumped == !Near(last, p)
  {
    if Dist2(p.x - last.x, p.y - last.y) > MaxStitch * MaxStitch {
      r := AppendJump(pattern, last, p);
      jumped := true;
    } else {
      r := pattern + [InstrAt(Stitch, p)];
      jumped := false;
    }
  }

  /** The handler's conversion: reject an empty list and a point without
      coordinates, otherwise build the plan. */
  method Build(raw: seq<RawPoint>) returns (o: Outcome)
    ensures o == ExportPlan(raw)
  {
    if |raw| == 0 {
      return Failed(NoStitches);
    }
    if !WellFormed(raw) {
      return Failed(MalformedPoint);
    }
    var pattern, stitchCount, jumpCount := Convert(Points(raw));
    return Built(Report(pattern, stitchCount, jumpCount));
  }

  /** The handler's loop over the design points, as it is written: compute
      the bounds, then centre, classify and emit each point in turn, counting
      stitches and jumps, and close with END at the last position. */
  method Convert(ps: seq<Point>) returns (pattern: seq<Instr>, stitchCount: nat, jumpCount: nat)
    requires |ps| > 0
    ensures var cs := Centred(ps);
      pattern == Plan(cs) && stitchCount == 1 + ShortPairs(cs) && jumpCount == LongPairs(cs)
  {
    var lx, hx := MinOf(Xs(ps)), MaxOf(Xs(ps));
    var ly, hy := MinOf(Ys(ps)), MaxOf(Ys(ps));
    ghost var cs := Centred(ps);
    pattern, stitchCount, jumpCount := [], 0, 0;
    var last: Option<Point> := None;
    var i := 0;
    while i < |ps|
      invariant 0 <= i <= |ps|
      invariant Progress(cs, i, last, pattern, stitchCount, jumpCount)
    {
      var p := Point(Centre(ps[i].x, lx, hx), Centre(ps[i].y, ly, hy));
      assert p == cs[i];
      ProgressLast(cs, i, last, pattern, stitchCount, jumpCount);
      if last.None? {
        pattern := pattern + [InstrAt(Move, p)];
        stitchCount := stitchCount + 1;
        ProgressFirst(cs);
      } else {
        ghost var pattern0, stitchCount0, jumpCount0 := pattern, stitchCount, jumpCount;
        var jumped;
        pattern, jumped := AppendSegment(pattern, last.value, p);
        if jumped {
          jumpCount := jumpCount + 1;
        } else {
          stitchCount := stitchCount + 1;
        }
        ProgressNext(cs, i, pattern0, stitchCount0, jumpCount0, pattern, stitchCount, jumpCount);
      }
      last := Some(p);
      i := i + 1;
    }
    ProgressDone(cs, last, pattern, stitchCount, jumpCount);
    if last.Some? {
      pattern := pattern + [InstrAt(End, last.value)];
    }
  }

  /** The state of the handler's loop after the first i centred points: the
      last position, the instructions emitted so far and the two counters. */
  ghost predicate Progress(cs: seq<Point>, i: nat, last: Option<Point>, pattern: seq<Instr>,
                           stitchCount: nat, jumpCount: nat)
    requires i <= |cs|
  {
    if i == 0 then
      last == None && pattern == [] && stitchCount == 0 && jumpCount == 0
    else
      last == Some(cs[i - 1]) && pattern == Emit(cs[..i]) &&
      stitchCount == 1 + ShortPairs(cs[..i]) && jumpCount == LongPairs(cs[..i])
  }

  /** Before any point the loop has no last position; after one it has. */
  lemma ProgressLast(cs: seq<Point>, i: nat, last: Option<Point>, pattern: seq<Instr>,
                     stitchCount: nat, jumpCount: nat)
    requires i <= |cs| && Progress(cs, i, last, pattern, stitchCount, jumpCount)
    ensures last.None? <==> i == 0
    ensures last.None? ==> pattern == [] && stitchCount == 0 && jumpCount == 0
    ensures last.Some? ==> last.value == cs[i - 1]
  {
  }

  /** The first point: one MOVE, counted as a stitch. */
  lemma ProgressFirst(cs: seq<Point>)
    requires |cs| > 0
    ensures Progress(cs, 1, Some(cs[0]), [InstrAt(Move, cs[0])], 1, 0)
  {
    assert Emit(cs[..1]) == [InstrAt(Move, cs[0])];
  }

  /** Every later point: its segment is emitted and its pair is counted as a
      stitch when short and as a jump when long. */
  lemma ProgressNext(cs: seq<Point>, i: nat, pattern: seq<Instr>, stitchCount: nat, jumpCount: nat,
                     pattern': seq<Instr>, stitchCount': nat, jumpCount': nat)
    requires 1 <= i < |cs| && Progress(cs, i, Some(cs[i - 1]), pattern, stitchCount, jumpCount)
    requires pattern' == pattern + Segment(cs[i - 1], cs[i])
    requires Near(cs[i - 1], cs[i]) ==> stitchCount' == stitchCount + 1 && jumpCount' == jumpCount
    requires !Near(cs[i - 1], cs[i]) ==> stitchCount' == stitchCount && jumpCount' == jumpCount + 1
    ensures Progress(cs, i + 1, Some(cs[i]), pattern', stitchCount', jumpCount')
  {
    EmitNext(cs, i);
    PairsNext(cs, i);
  }

  /** After every point the loop has emitted the plan but its END. */
  lemma ProgressDone(cs: seq<Point>, last: Option<Point>, pattern: seq<Instr>,
                     stitchCount: nat, jumpCount: nat)
    requires |cs| > 0 && Progress(cs, |cs|, last, pattern, stitchCount, jumpCount)
    ensures last == Some(cs[|cs| - 1])
    ensures pattern + [InstrAt(End, cs[|cs| - 1])] == Plan(cs)
    ensures stitchCount == 1 + ShortPairs(cs) && jumpCount == LongPairs(cs)
  {
    assert cs[..|cs|] == cs;
  }

  /** Adding the i-th point extends the emitted plan by the segment from the
      (i-1)-th. */
  lemma EmitNext(cs: seq<Point>, i: nat)
    requires 1 <= i < |cs|
    ensures Emit(cs[..i + 1]) == Emit(cs[..i]) + Segment(cs[i - 1], cs[i])
  {
    var c := cs[..i + 1];
    assert c[..|c| - 1] == cs[..i];
    EmitSnoc(c, cs[..i], cs[i - 1], cs[i]);
  }

  lemma EmitSnoc(c: seq<Point>, pre: seq<Point>, a: Point, b: Point)
    requires |c| >= 2 && pre == c[..|c| - 1] && a == c[|c| - 2] && b == c[|c| - 1]
    ensures Emit(c) == Emit(pre) + Segment(a, b)
  {
  }

  /** Adding the i-th point counts one more short or long pair. */
  lemma PairsNext(cs: seq<Point>, i: nat)
    requires 1 <= i < |cs|
    ensures ShortPairs(cs[..i + 1]) == ShortPairs(cs[..i]) + if Near(cs[i - 1], cs[i]) then 1 else 0
    ensures LongPairs(cs[..i + 1]) == LongPairs(cs[..i]) + if Near(cs[i - 1], cs[i]) then 0 else 1
  {
    var c := cs[..i + 1];
    assert c[..|c| - 1] == cs[..i];
  }

  // ---------------------------------------------------------------------
  // What the handler promises about its outcome

  /** An empty list is refused as NoStitches, a list with a point missing a
      coordinate as MalformedPoint, and every other list yields a plan. */
  lemma ExportOutcome(raw: seq<RawPoint>)
    ensures ExportPlan(raw) == Failed(NoStitches) <==> |raw| == 0
    ensures ExportPlan(raw) == Failed(MalformedPoint) <==> |raw| > 0 && !WellFormed(raw)
    ensures ExportPlan(raw).Built? <==> |raw| > 0 && WellFormed(raw)
  {
  }

  /** The design points a built plan was made from, centred. */
  function CentredPoints(raw: seq<RawPoint>): (cs: seq<Point>)
    requires |raw| > 0 && WellFormed(raw)
    ensures |cs| == |raw|
  {
    Centred(Points(raw))
  }

  /** A built plan starts with a MOVE to the first centred point and ends with
      END at the last one; every TRIM sits at the needle's position and is
      followed by a MOVE; every STITCH, TRIM and END is within 127 units of the
      instruction before it, and every MOVE is within 127 units per axis. */
  lemma ExportPlanLegal(raw: seq<RawPoint>)
    requires ExportPlan(raw).Built?
    ensures var p, cs := ExportPlan(raw).report.plan, CentredPoints(raw);
      |p| >= 2 && p[0] == InstrAt(Move, cs[0]) && p[|p| - 1] == InstrAt(End, cs[|cs| - 1]) &&
      TrimsPaired(p) && NonMovesNear(p) && MovesAxisNear(p)
  {
    var cs := CentredPoints(raw);
    assert ExportPlan(raw).report.plan == Plan(cs);
    PlanEnds(cs);
    PlanTrimsPaired(cs);
    PlanNonMovesNear(cs);
    PlanMovesAxisNear(cs);
  }

  /** The logged counters: stitchCount counts the first MOVE and every
      STITCH, jumpCount every TRIM; the plan holds those, the MOVEs and one
      END. */
  lemma ExportCounts(raw: seq<RawPoint>)
    requires ExportPlan(raw).Built?
    ensures var r := ExportPlan(raw).report;
      r.stitchCount == 1 + Count(r.plan, Stitch) && r.jumpCount == Count(r.plan, Trim) &&
      Count(r.plan, End) == 1 && |r.plan| == r.stitchCount + r.jumpCount + Count(r.plan, Move)
  {
    var cs := CentredPoints(raw);
    assert ExportPlan(raw).report == Report(Plan(cs), 1 + ShortPairs(cs), LongPairs(cs));
    PlanCounts(cs);
  }

  /** The centred design's bounding box is symmetric about the origin. */
  lemma ExportCentred(raw: seq<RawPoint>)
    requires |raw| > 0 && WellFormed(raw)
    ensures var cs := CentredPoints(raw);
      MinOf(Xs(cs)) + MaxOf(Xs(cs)) == 0 && MinOf(Ys(cs)) + MaxOf(Ys(cs)) == 0
  {
    CentredBoxSymmetric(Points(raw));
  }

  /** The plan reaches the posted points in the order they were posted. */
  lemma ExportOrder(raw: seq<RawPoint>, i: nat, j: nat)
    requires WellFormed(raw) && i < j < |raw|
    ensures var p, cs := ExportPlan(raw).report.plan, CentredPoints(raw);
      0 <= Visit(cs, i) < Visit(cs, j) < |p| - 1 &&
      p[Visit(cs, i)].At() == cs[i] && p[Visit(cs, j)].At() == cs[j]
  {
    var cs := CentredPoints(raw);
    assert ExportPlan(raw).report.plan == Plan(cs);
    InputOrderPreserved(cs, i, j);
  }
}
