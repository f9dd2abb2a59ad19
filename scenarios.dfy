/** Worked requests for the PES export handler, each stating the exact plan
    and counters for a small posted list. */
module Scenarios {
  import opened Arith
  import opened StitchPlan
  import opened PlanFacts
  import opened Export

  function Raw(x: int, y: int): RawPoint
  {
    RawPoint(Some(x), Some(y))
  }

  /** A two-point request is built into MOVE, the segment between the two
      centred points, and END. */
  lemma TwoPointRequest(raw: seq<RawPoint>, a: Point, b: Point)
    requires raw == [Raw(a.x, a.y), Raw(b.x, b.y)]
    ensures var cs := Centred([a, b]);
      ExportPlan(raw) == Built(Report(Plan(cs), 1 + ShortPairs(cs), LongPairs(cs)))
  {
    assert WellFormed(raw);
    assert Points(raw) == [a, b];
  }

  /** The plan and pair counts of a two-point design. */
  lemma TwoPoints(cs: seq<Point>)
    requires |cs| == 2
    ensures Plan(cs) == [InstrAt(Move, cs[0])] + Segment(cs[0], cs[1]) + [InstrAt(End, cs[1])]
    ensures ShortPairs(cs) == (if Near(cs[0], cs[1]) then 1 else 0)
    ensures LongPairs(cs) == (if Near(cs[0], cs[1]) then 0 else 1)
  {
    assert cs[..1] == [cs[0]];
    assert Emit(cs) == [InstrAt(Move, cs[0])] + Segment(cs[0], cs[1]);
  }

  /** Centring two points whose coordinates are ordered a <= b on each axis. */
  lemma TwoPointsCentred(a: Point, b: Point)
    requires a.x <= b.x && a.y <= b.y
    ensures Centred([a, b]) ==
      [Point(RoundHalf(a.x - b.x), RoundHalf(a.y - b.y)), Point(RoundHalf(b.x - a.x), RoundHalf(b.y - a.y))]
  {
    var ps := [a, b];
    assert Xs(ps) == [a.x, b.x];
    assert Ys(ps) == [a.y, b.y];
    PairBounds(a.x, b.x);
    PairBounds(a.y, b.y);
  }

  lemma PairBounds(u: int, v: int)
    requires u <= v
    ensures MinOf([u, v]) == u && MaxOf([u, v]) == v
  {
    var s := [u, v];
    assert s[ArgMin(s)] <= s[0] && s[ArgMax(s)] >= s[1];
  }

  /** A single point: centred onto the origin, it gives a MOVE and an END
      there, one stitch and no jump. */
  lemma OnePointPlan(raw: seq<RawPoint>)
    requires raw == [Raw(7, 3)]
    ensures ExportPlan(raw) == Built(Report([Instr(Move, 0, 0), Instr(End, 0, 0)], 1, 0))
  {
    var ps := [Point(7, 3)];
    assert WellFormed(raw);
    assert Points(raw) == ps;
    assert Xs(ps) == [7] && Ys(ps) == [3];
    assert RoundHalf(0) == 0;
    assert Centred(ps) == [Point(0, 0)];
  }

  /** Two points 10 units apart: one STITCH, the pair centred on the origin. */
  lemma ShortPairPlan(raw: seq<RawPoint>)
    requires raw == [Raw(0, 0), Raw(10, 0)]
    ensures ExportPlan(raw) ==
      Built(Report([Instr(Move, -5, 0), Instr(Stitch, 5, 0), Instr(End, 5, 0)], 2, 0))
  {
    var a, b := Point(0, 0), Point(10, 0);
    assert RoundHalf(-10) == -5 && RoundHalf(10) == 5 && RoundHalf(0) == 0;
    TwoPointsCentred(a, b);
    var cs := Centred([a, b]);
    assert cs == [Point(-5, 0), Point(5, 0)];
    SqIsProduct(10);
    assert Near(cs[0], cs[1]);
    TwoPoints(cs);
    assert Plan(cs) == [Instr(Move, -5, 0), Instr(Stitch, 5, 0), Instr(End, 5, 0)];
    TwoPointRequest(raw, a, b);
  }

  /** Two points 3 units apart: the offsets are the ties -1.5 and 1.5,
      which half-to-even rounding sends to -2 and 2. */
  lemma TiedPairPlan(raw: seq<RawPoint>)
    requires raw == [Raw(0, 0), Raw(3, 0)]
    ensures ExportPlan(raw) ==
      Built(Report([Instr(Move, -2, 0), Instr(Stitch, 2, 0), Instr(End, 2, 0)], 2, 0))
  {
    var a, b := Point(0, 0), Point(3, 0);
    assert RoundHalf(-3) == -2 && RoundHalf(3) == 2 && RoundHalf(0) == 0;
    TwoPointsCentred(a, b);
    var cs := Centred([a, b]);
    assert cs == [Point(-2, 0), Point(2, 0)];
    SqIsProduct(4);
    assert Near(cs[0], cs[1]);
    TwoPoints(cs);
    assert Plan(cs) == [Instr(Move, -2, 0), Instr(Stitch, 2, 0), Instr(End, 2, 0)];
    TwoPointRequest(raw, a, b);
  }

  /** Two points 500 units apart: the jump is split into four MOVEs of 125
      units after a TRIM, and counted once. */
  lemma LongPairPlan(raw: seq<RawPoint>)
    requires raw == [Raw(0, 0), Raw(500, 0)]
    ensures ExportPlan(raw) ==
      Built(Report([Instr(Move, -250, 0), Instr(Trim, -250, 0), Instr(Move, -125, 0), Instr(Move, 0, 0),
                    Instr(Move, 125, 0), Instr(Move, 250, 0), Instr(End, 250, 0)], 1, 1))
  {
    var a, b := Point(0, 0), Point(500, 0);
    assert RoundHalf(-500) == -250 && RoundHalf(500) == 250 && RoundHalf(0) == 0;
    TwoPointsCentred(a, b);
    var cs := Centred([a, b]);
    assert cs == [Point(-250, 0), Point(250, 0)];
    LongPairSegment(cs[0], cs[1]);
    Bracket5(InstrAt(Move, cs[0]), Segment(cs[0], cs[1]), InstrAt(End, cs[1]));
    TwoPoints(cs);
    TwoPointRequest(raw, a, b);
  }

  lemma LongPairSegment(u: Point, v: Point)
    requires u == Point(-250, 0) && v == Point(250, 0)
    ensures !Near(u, v)
    ensures Segment(u, v) == [Instr(Trim, -250, 0), Instr(Move, -125, 0), Instr(Move, 0, 0),
                              Instr(Move, 125, 0), Instr(Move, 250, 0)]
  {
    LongPairJump(u, v);
    SegmentLong(u, v);
    FiveInstrs(Jump(u, v));
  }

  /** The 500-unit jump: a TRIM, then MOVEs every 125 units. */
  lemma LongPairJump(u: Point, v: Point)
    requires u == Point(-250, 0) && v == Point(250, 0)
    ensures !Near(u, v) && |Jump(u, v)| == 5 && Jump(u, v)[0] == Instr(Trim, -250, 0)
    ensures forall k :: 1 <= k <= 4 ==> Jump(u, v)[k] == Instr(Move, 125 * k - 250, 0)
  {
    LongPairSteps(u, v);
    JumpStart(u, v);
    forall k | 1 <= k <= 4
      ensures Jump(u, v)[k] == Instr(Move, 125 * k - 250, 0)
    {
      JumpMoveAt(u, v, k);
      LongPairMove(u, v, k);
    }
  }

  /** The 500-unit jump is split into four sub-segments: 381^2 <= 500^2 < 508^2. */
  lemma LongPairSteps(u: Point, v: Point)
    requires u == Point(-250, 0) && v == Point(250, 0)
    ensures !Near(u, v) && Steps(u, v) == 4
  {
    var dx, dy := v.x - u.x, v.y - u.y;
    SqIsProduct(dx);
    SqIsProduct(dy);
    var s, n := Dist2(dx, dy), 4;
    assert s == 250000;
    SqIsProduct(MaxStitch * (n - 1));
    SqIsProduct(MaxStitch * n);
    JumpStepsUnique(s, n);
  }

  /** The k-th sub-step of the 500-unit jump lands 125 k units past -250. */
  lemma LongPairMove(u: Point, v: Point, k: nat)
    requires u == Point(-250, 0) && v == Point(250, 0)
    ensures SubStep(u, v, 4, k) == Point(125 * k - 250, 0)
  {
    assert u.x * 4 + (v.x - u.x) * k == (125 * k - 250) * 4;
    TruncDivExact(125 * k - 250, 4);
    InterpStill(u.y, 4, k);
  }

  /** A coordinate that the jump does not change stays put at every
      sub-step. */
  lemma InterpStill(base: int, n: nat, k: nat)
    requires n > 0
    ensures Interp(base, 0, n, k) == base
  {
    assert base * n + 0 * k == base * n;
    TruncDivExact(base, n);
  }

  /** A diagonal jump of about 380 units, split into three sub-segments
      whose ends are truncated toward zero (DiagonalMovesLong looks at their
      lengths). */
  lemma DiagonalPairPlan(raw: seq<RawPoint>)
    requires raw == [Raw(0, 0), Raw(235, 298)]
    ensures ExportPlan(raw) ==
      Built(Report([Instr(Move, -118, -149), Instr(Trim, -118, -149), Instr(Move, -39, -49),
                    Instr(Move, 39, 49), Instr(Move, 118, 149), Instr(End, 118, 149)], 1, 1))
  {
    var a, b := Point(0, 0), Point(235, 298);
    DiagonalCentred(a, b);
    var cs := Centred([a, b]);
    DiagonalSegment(cs[0], cs[1]);
    Bracket4(InstrAt(Move, cs[0]), Segment(cs[0], cs[1]), InstrAt(End, cs[1]));
    TwoPoints(cs);
    TwoPointRequest(raw, a, b);
  }

  /** The offsets -117.5 and 117.5 are ties rounded to the even -118 and
      118; -149 and 149 are exact. */
  lemma DiagonalCentred(a: Point, b: Point)
    requires a == Point(0, 0) && b == Point(235, 298)
    ensures Centred([a, b]) == [Point(-118, -149), Point(118, 149)]
  {
    assert RoundHalf(-235) == -118 && RoundHalf(235) == 118;
    assert RoundHalf(-298) == -149 && RoundHalf(298) == 149;
    TwoPointsCentred(a, b);
  }

  /** The MOVEs of the diagonal plan that leave the TRIM and that reach the
      last point each cover sqrt(16241), more than 127 units, and stay within
      127 units per axis. */
  lemma DiagonalMovesLong(p: seq<Instr>)
    requires p == [Instr(Move, -118, -149), Instr(Trim, -118, -149), Instr(Move, -39, -49),
                   Instr(Move, 39, 49), Instr(Move, 118, 149), Instr(End, 118, 149)]
    ensures p[2].kind == Move && !Near(p[1].At(), p[2].At()) && AxisNear(p[1].At(), p[2].At())
    ensures p[4].kind == Move && !Near(p[3].At(), p[4].At()) && AxisNear(p[3].At(), p[4].At())
  {
    var dx, dy := p[2].x - p[1].x, p[2].y - p[1].y;
    assert dx == 79 && dy == 100;
    SqIsProduct(dx);
    SqIsProduct(dy);
    dx, dy := p[4].x - p[3].x, p[4].y - p[3].y;
    assert dx == 79 && dy == 100;
    SqIsProduct(dx);
    SqIsProduct(dy);
  }

  lemma DiagonalSegment(u: Point, v: Point)
    requires u == Point(-118, -149) && v == Point(118, 149)
    ensures !Near(u, v)
    ensures Segment(u, v) == [Instr(Trim, -118, -149), Instr(Move, -39, -49), Instr(Move, 39, 49),
                              Instr(Move, 118, 149)]
  {
    DiagonalJump(u, v);
    SegmentLong(u, v);
    FourInstrs(Jump(u, v), Instr(Trim, -118, -149), Instr(Move, -39, -49), Instr(Move, 39, 49),
               Instr(Move, 118, 149));
  }

  lemma DiagonalJump(u: Point, v: Point)
    requires u == Point(-118, -149) && v == Point(118, 149)
    ensures !Near(u, v) && |Jump(u, v)| == 4 && Jump(u, v)[0] == Instr(Trim, -118, -149)
    ensures Jump(u, v)[1] == Instr(Move, -39, -49)
    ensures Jump(u, v)[2] == Instr(Move, 39, 49)
    ensures Jump(u, v)[3] == Instr(Move, 118, 149)
  {
    DiagonalSteps(u, v);
    JumpStart(u, v);
    JumpMoveAt(u, v, 1);
    DiagonalMove1(u, v);
    JumpMoveAt(u, v, 2);
    DiagonalMove2(u, v);
    JumpMoveAt(u, v, 3);
    DiagonalMove3(u, v);
  }

  /** The diagonal jump is split into three sub-segments:
      254^2 <= 236^2 + 298^2 < 381^2. */
  lemma DiagonalSteps(u: Point, v: Point)
    requires u == Point(-118, -149) && v == Point(118, 149)
    ensures !Near(u, v) && Steps(u, v) == 3
  {
    var dx, dy := v.x - u.x, v.y - u.y;
    SqIsProduct(dx);
    SqIsProduct(dy);
    var s, n := Dist2(dx, dy), 3;
    assert s == 144500;
    SqIsProduct(MaxStitch * (n - 1));
    SqIsProduct(MaxStitch * n);
    JumpStepsUnique(s, n);
  }

  /** int(-118 + 236/3) == -39 and int(-149 + 298/3) == -49: truncation
      toward zero. */
  lemma DiagonalMove1(u: Point, v: Point)
    requires u == Point(-118, -149) && v == Point(118, 149)
    ensures SubStep(u, v, 3, 1) == Point(-39, -49)
  {
  }

  lemma DiagonalMove2(u: Point, v: Point)
    requires u == Point(-118, -149) && v == Point(118, 149)
    ensures SubStep(u, v, 3, 2) == Point(39, 49)
  {
  }

  lemma DiagonalMove3(u: Point, v: Point)
    requires u == Point(-118, -149) && v == Point(118, 149)
    ensures SubStep(u, v, 3, 3) == Point(118, 149)
  {
  }

  // ---------------------------------------------------------------------
  // Sequence displays of fixed length, cited by the worked plans above so
  // that the verifier need not rediscover them

  lemma Bracket4(m: Instr, s: seq<Instr>, e: Instr)
    requires |s| == 4
    ensures [m] + s + [e] == [m, s[0], s[1], s[2], s[3], e]
  {
  }

  lemma Bracket5(m: Instr, s: seq<Instr>, e: Instr)
    requires |s| == 5
    ensures [m] + s + [e] == [m, s[0], s[1], s[2], s[3], s[4], e]
  {
  }

  lemma FourInstrs(j: seq<Instr>, a: Instr, b: Instr, c: Instr, d: Instr)
    requires |j| == 4 && j[0] == a && j[1] == b && j[2] == c && j[3] == d
    ensures j == [a, b, c, d]
  {
  }

  lemma FiveInstrs(j: seq<Instr>)
    requires |j| == 5 && j[0] == Instr(Trim, -250, 0)
    requires forall k :: 1 <= k <= 4 ==> j[k] == Instr(Move, 125 * k - 250, 0)
    ensures j == [Instr(Trim, -250, 0), Instr(Move, -125, 0), Instr(Move, 0, 0),
                  Instr(Move, 125, 0), Instr(Move, 250, 0)]
  {
    assert j[1] == Instr(Move, 125 * 1 - 250, 0);
    assert j[2] == Instr(Move, 125 * 2 - 250, 0);
    assert j[3] == Instr(Move, 125 * 3 - 250, 0);
    assert j[4] == Instr(Move, 125 * 4 - 250, 0);
  }
}
