/** The stitch plan that the PES export handler builds from a list of design
    points: data model and a pure specification of every step (bounds,
    centring, classification of consecutive pairs, splitting of long jumps,
    the final END). */
module StitchPlan {
  import opened Arith

  /** The four machine commands the handler emits. */
  datatype Kind = Move | Stitch | Trim | End

  /** A position in 0.1 mm units. */
  datatype Point = Point(x: int, y: int)

  /** One machine instruction at an absolute position. */
  datatype Instr = Instr(kind: Kind, x: int, y: int)
  {
    function At(): Point { Point(x, y) }
  }

  function InstrAt(k: Kind, p: Point): Instr
  {
    Instr(k, p.x, p.y)
  }

  /** b is at most 127 units from a: one stitch can get there. */
  predicate Near(a: Point, b: Point)
  {
    Dist2(b.x - a.x, b.y - a.y) <= MaxStitch * MaxStitch
  }

  // ---------------------------------------------------------------------
  // Bounds and centring

  /** The index of a least element of s. */
  function ArgMin(s: seq<int>): (k: nat)
    requires |s| > 0
    ensures k < |s|
    ensures forall i :: 0 <= i < |s| ==> s[k] <= s[i]
  {
    if |s| == 1 then 0
    else
      var t := 1 + ArgMin(s[1..]);
      assert forall i :: 1 <= i < |s| ==> s[1..][i - 1] == s[i];
      if s[0] <= s[t] then 0 else t
  }

  /** The index of a greatest element of s. */
  function ArgMax(s: seq<int>): (k: nat)
    requires |s| > 0
    ensures k < |s|
    ensures forall i :: 0 <= i < |s| ==> s[i] <= s[k]
  {
    if |s| == 1 then 0
    else
      var t := 1 + ArgMax(s[1..]);
      assert forall i :: 1 <= i < |s| ==> s[1..][i - 1] == s[i];
      if s[0] >= s[t] then 0 else t
  }

  /** Python's `min` of a non-empty list. */
  function MinOf(s: seq<int>): int
    requires |s| > 0
  {
    s[ArgMin(s)]
  }

  /** Python's `max` of a non-empty list. */
  function MaxOf(s: seq<int>): int
    requires |s| > 0
  {
    s[ArgMax(s)]
  }

  function Xs(ps: seq<Point>): (s: seq<int>)
    ensures |s| == |ps|
  {
    seq(|ps|, i requires 0 <= i < |ps| => ps[i].x)
  }

  function Ys(ps: seq<Point>): (s: seq<int>)
    ensures |s| == |ps|
  {
    seq(|ps|, i requires 0 <= i < |ps| => ps[i].y)
  }

  /** The nearest integer to v - (lo + hi) / 2, ties to even, as Python's
      `round` gives it for the half-integer offset from the box centre. */
  function Centre(v: int, lo: int, hi: int): int
  {
    RoundHalf(2 * v - lo - hi)
  }

  /** Every point shifted so that its bounding box is centred on the origin,
      then rounded to integers. */
  function Centred(ps: seq<Point>): (cs: seq<Point>)
    requires |ps| > 0
    ensures |cs| == |ps|
  {
    var lx, hx := MinOf(Xs(ps)), MaxOf(Xs(ps));
    var ly, hy := MinOf(Ys(ps)), MaxOf(Ys(ps));
    seq(|ps|, i requires 0 <= i < |ps| => Point(Centre(ps[i].x, lx, hx), Centre(ps[i].y, ly, hy)))
  }

  // ---------------------------------------------------------------------
  // Classification of consecutive pairs and splitting of long jumps

  /** The number of sub-segments a jump from `from` to `to` is split into. */
  function Steps(from: Point, to: Point): (n: nat)
    requires !Near(from, to)
    ensures n >= 2
  {
    JumpSteps(Dist2(to.x - from.x, to.y - from.y))
  }

  /** One coordinate of the k-th of n interpolated sub-steps from base over
      a displacement d: base + d * k / n, truncated toward zero as Python's
      `int()` does. */
  function Interp(base: int, d: int, n: nat, k: nat): int
    requires n > 0
  {
    TruncDiv(base * n + d * k, n)
  }

  /** The k-th of n interpolated sub-step positions between from and to. */
  function SubStep(from: Point, to: Point, n: nat, k: nat): Point
    requires n > 0
  {
    Point(Interp(from.x, to.x - from.x, n, k), Interp(from.y, to.y - from.y, n, k))
  }

  /** A long jump: TRIM at the old position, then one MOVE per sub-step. */
  function Jump(from: Point, to: Point): seq<Instr>
    requires !Near(from, to)
  {
    var n := Steps(from, to);
    [InstrAt(Trim, from)] + seq(n, i requires 0 <= i < n => InstrAt(Move, SubStep(from, to, n, i + 1)))
  }

  /** The instructions emitted for the pair (from, to) of consecutive points. */
  function Segment(from: Point, to: Point): seq<Instr>
  {
    if Near(from, to) then [InstrAt(Stitch, to)] else Jump(from, to)
  }

  /** Everything emitted for the centred points cs before the END. */
  function Emit(cs: seq<Point>): seq<Instr>
    requires |cs| > 0
    decreases |cs|
  {
    if |cs| == 1 then [InstrAt(Move, cs[0])]
    else Emit(cs[..|cs| - 1]) + Segment(cs[|cs| - 2], cs[|cs| - 1])
  }

  /** The full stitch plan for the centred points cs. */
  function Plan(cs: seq<Point>): seq<Instr>
    requires |cs| > 0
  {
    Emit(cs) + [InstrAt(End, cs[|cs| - 1])]
  }

  // ---------------------------------------------------------------------
  // Counting

  /** The number of consecutive pairs in cs that are at most 127 apart. */
  function ShortPairs(cs: seq<Point>): nat
    decreases |cs|
  {
    if |cs| < 2 then 0
    else ShortPairs(cs[..|cs| - 1]) + if Near(cs[|cs| - 2], cs[|cs| - 1]) then 1 else 0
  }

  /** The number of consecutive pairs in cs that are more than 127 apart. */
  function LongPairs(cs: seq<Point>): nat
    decreases |cs|
  {
    if |cs| < 2 then 0
    else LongPairs(cs[..|cs| - 1]) + if Near(cs[|cs| - 2], cs[|cs| - 1]) then 0 else 1
  }

  /** The sum of Steps over the long pairs of cs. */
  function SubSteps(cs: seq<Point>): nat
    decreases |cs|
  {
    if |cs| < 2 then 0
    else
      var a, b := cs[|cs| - 2], cs[|cs| - 1];
      SubSteps(cs[..|cs| - 1]) + if Near(a, b) then 0 else Steps(a, b)
  }

  /** The number of instructions of kind k in p. */
  function Count(p: seq<Instr>, k: Kind): nat
    decreases |p|
  {
    if p == [] then 0
    else Count(p[..|p| - 1], k) + if p[|p| - 1].kind == k then 1 else 0
  }

  // ---------------------------------------------------------------------
  // Properties of whole plans

  /** Every TRIM has an instruction at the same position before it and a
      MOVE after it. */
  predicate TrimsPaired(p: seq<Instr>)
  {
    forall i :: 0 <= i < |p| && p[i].kind == Trim ==>
      0 < i < |p| - 1 && p[i - 1].At() == p[i].At() && p[i + 1].kind == Move
  }

  /** The plan starts with a MOVE, and every instruction other than a MOVE is
      within 127 units of the one before it. */
  predicate NonMovesNear(p: seq<Instr>)
  {
    (|p| > 0 ==> p[0].kind == Move) &&
    forall i :: 0 < i < |p| && p[i].kind != Move ==> Near(p[i - 1].At(), p[i].At())
  }

  /** b is at most 127 units from a along each axis. */
  predicate AxisNear(a: Point, b: Point)
  {
    -MaxStitch <= b.x - a.x <= MaxStitch && -MaxStitch <= b.y - a.y <= MaxStitch
  }

  /** Every MOVE but the first travels at most 127 units along each axis. */
  predicate MovesAxisNear(p: seq<Instr>)
  {
    forall i :: 0 < i < |p| && p[i].kind == Move ==> AxisNear(p[i - 1].At(), p[i].At())
  }
}
