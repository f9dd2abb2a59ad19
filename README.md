# Stitch-plan builder of the PES export handler

The `export_pes` handler receives an ordered list of design points (in
0.1 mm units) and turns it into the instruction stream that an embroidery
machine runs. It works in four steps:

1. It rejects an empty list.
2. It computes the bounding box and centres the design on the origin,
   rounding each coordinate with Python's `round` (half to even).
3. It walks consecutive pairs of points:
   - a pair at most 127 units apart becomes a STITCH;
   - a longer pair becomes a TRIM at the old position followed by
     `steps = int(dist / 127) + 1` MOVEs, interpolated from the old position
     and truncated toward zero by `int()`;
   - the current position then snaps to the true target.
4. It closes the plan with an END at the last position.

The handler also counts stitches (the first MOVE and every STITCH) and
jumps (every TRIM).

The model is exact integer arithmetic:
- `dist > 127` becomes `dx² + dy² > 127²`.
- `steps` becomes the unique `n` with `(127 (n-1))² <= dx² + dy² < (127 n)²`.
- The centre offset `v - (lo + hi) / 2` is handled in doubled coordinates, so
  the rounding is `RoundHalf(2v - lo - hi)`.
- The sub-step `int(last + d * k / n)` becomes `TruncDiv(last * n + d * k, n)`,
  which equals it exactly over the rationals.

Modules:
- `Arith` (`arith.dfy`): Python's `round` of a half-integer, `int()` of a
  quotient, and the step count. Each comes with lemmas that characterise it.
- `StitchPlan` (`plan.dfy`): the data model and a pure specification of the
  plan. `Centred` centres the points, `Segment`/`Jump` emit one pair, and
  `Emit`/`Plan` build the whole stream. `ShortPairs`, `LongPairs` and
  `SubSteps` count pairs and sub-steps.
- `PlanFacts` (`plan_facts.dfy`): what the plan promises. This covers the
  shape of each segment, the legality of the whole stream, instruction
  counts and length, input order, and exact centring.
- `Export` (`export.dfy`): the posted list with its error cases
  (`ExportPlan`), and the handler's loops written imperatively.
  - `Build`, `Convert`, `AppendSegment` and `AppendJump` mirror the outer
    `for` loop, the if/else on distance and the inner `for step` loop.
  - Each is proved equal to the pure specification.
  - The outcome lemmas restate the promises for the posted list.
- `Scenarios` (`scenarios.dfy`): worked requests whose exact plans are
  proved. They cover:
  - a single point;
  - a short pair;
  - a rounding tie;
  - a horizontal 500-unit jump;
  - a diagonal jump whose sub-MOVEs are longer than 127 units.

Three facts about the code that the model makes precise:
- The sub-steps of a split jump are truncated toward zero by `int()`
  (app.py:133-134), not rounded. As a result a split MOVE can be longer
  than the 127-unit PES limit that the comment at app.py:127-130 gives
  as the reason for splitting. The input (0,0),(235,298) gives MOVEs
  (-39,-49), (39,49) and (118,149). The last two are sqrt(16241) ≈ 127.4
  units apart (`Scenarios.DiagonalMovesLong`). Each MOVE is still within
  127 units of its predecessor on each axis (`PlanFacts.PlanMovesAxisNear`).
- The centred bounding box is exactly symmetric about the origin, with
  min + max == 0 on each axis (app.py:95-96 and 113-114,
  `Export.ExportCentred`).
- Ties in the centring round to the even neighbour, as Python's `round`
  does (app.py:113, `Scenarios.TiedPairPlan`).

## Model

| member | source | states |
|---|---|---|
| Arith.RoundHalf | app.py:113-114 | Python's `round` of d/2, half to even: `Arith.RoundHalfNearest` and `Arith.RoundHalfUnique` state what it means |
| Arith.TruncDiv | app.py:133-134 | Python's `int()` of a quotient, truncating toward zero: `Arith.TruncDivBounds` and `Arith.TruncDivExact` state what it means |
| Arith.SqIsProduct | app.py:125 | the squared length used for `dist` is dx·dx + dy·dy |
| Arith.RoundHalfNearest | app.py:113-114 | the centred coordinate is within 1/2 of the exact offset, and even when the offset is a tie |
| Arith.RoundHalfUnique | app.py:113-114 | those two facts determine the value, so RoundHalf is Python's `round` (half to even) |
| Arith.RoundHalfOdd | app.py:113-114 | rounding is symmetric about zero: round(-v) == -round(v) |
| Arith.RoundHalfMonotone | app.py:113-114 | rounding never reverses the order of two offsets |
| Arith.TruncDivBounds | app.py:133-134 | `int(a / b)` rounds the quotient toward zero, from below for a >= 0 and from above for a < 0 |
| Arith.TruncDivExact | app.py:133-134 | `int()` leaves an exact quotient unchanged |
| Arith.TruncDivStep | app.py:133-134 | when the dividend grows by d, the truncated quotient grows by less than d/b + 1 |
| Arith.JumpSteps | app.py:131 | for dist > 127, `int(dist / 127) + 1` is at least 2 and is the n with 127(n-1) <= dist < 127n |
| Arith.JumpStepsUnique | app.py:131 | that bracketing determines the step count |
| StitchPlan.ArgMin | app.py:90 | `min` over the x coordinates (and the y coordinates at line 92): the index of an element no greater than any other |
| StitchPlan.ArgMax | app.py:91 | `max` over the x coordinates (and the y coordinates at line 93): the index of an element no smaller than any other |
| StitchPlan.MinOf | app.py:90 | `min_x` (and `min_y` at line 92): an element of the list, no greater than any element, by the contract of `StitchPlan.ArgMin` |
| StitchPlan.MaxOf | app.py:91 | `max_x` (and `max_y` at line 93): an element of the list, no smaller than any element, by the contract of `StitchPlan.ArgMax` |
| StitchPlan.Centre | app.py:113-114 | one coordinate rounded after subtracting the box centre (lo + hi) / 2 of app.py:95-96: `PlanFacts.CentredNearest` states its meaning |
| StitchPlan.Centred | app.py:113-114 | every input point gets exactly one centred point; `PlanFacts.CentredNearest` states each one's value and `PlanFacts.CentredBoxSymmetric` the centring of the whole |
| StitchPlan.Near | app.py:125-129 | `dist <= 127` without the square root: dx² + dy² <= 127², with `Arith.SqIsProduct` giving the squares |
| StitchPlan.Steps | app.py:131 | a long pair is split into at least two sub-segments |
| StitchPlan.Interp | app.py:133-134 | one coordinate of `int(last + d * step / steps)`: `PlanFacts.SubStepFirst`/`SubStepLast` give its end values and `PlanFacts.AxisStep` the 127 bound between neighbours |
| StitchPlan.SubStep | app.py:133-134 | the step-th interpolated position: `PlanFacts.SubStepFirst`, `SubStepLast` and `SubStepAxisBound` state it |
| StitchPlan.Jump | app.py:132-142 | what the inner loop emits: `PlanFacts.JumpShape`, `JumpCounts` and `JumpMoveAxisNear` state it, and `Export.AppendJump` computes it with the loop |
| StitchPlan.Segment | app.py:129-150 | what one later point emits: `PlanFacts.SegmentShape`, `SegmentTrims`, `SegmentNonMoves` and `SegmentMoves` state it |
| StitchPlan.Emit | app.py:111-150 | what the outer loop emits: `PlanFacts.EmitEnds`, `EmitCounts` and `EmitPrefix` state it, and `Export.Convert` computes it with the loop |
| StitchPlan.Plan | app.py:111-154 | the whole plan: `PlanFacts.PlanEnds`, `PlanCounts`, `PlanTrimsPaired`, `PlanNonMovesNear` and `InputOrderPreserved` state it |
| StitchPlan.ShortPairs | app.py:146-150 | the STITCH branch's count: `PlanFacts.EmitCounts` makes it the number of STITCHes and `Export.Convert` makes stitch_count 1 + it |
| StitchPlan.LongPairs | app.py:129-145 | the jump branch's count: `PlanFacts.EmitCounts` makes it the number of TRIMs and `Export.Convert` makes jump_count equal to it |
| PlanFacts.SubStepFirst | app.py:133-134 | interpolation at step 0 gives the pre-jump position |
| PlanFacts.SubStepLast | app.py:132-134 | the final sub-step (step == steps) lands exactly on the target |
| PlanFacts.JumpStart | app.py:136-138 | a jump opens with a TRIM at the pre-jump position and holds steps + 1 instructions |
| PlanFacts.JumpMoves | app.py:132-142 | the k-th MOVE is interpolated k/steps of the way from the pre-jump position, not from the previous sub-step |
| PlanFacts.JumpMoveAt | app.py:132-142 | the same for one k at a time |
| PlanFacts.JumpLast | app.py:132-144 | the last MOVE of a jump is at the target |
| PlanFacts.JumpShape | app.py:132-144 | a jump is a TRIM at the old position, then exactly `steps` interpolated MOVEs ending at the target |
| PlanFacts.AxisStep | app.py:133-134 | consecutive truncated sub-step coordinates differ by at most 127 |
| PlanFacts.SubStepAxisBound | app.py:129-134 | consecutive sub-steps of a jump are at most 127 apart on each axis |
| PlanFacts.JumpCount | app.py:136-142 | a jump holds one TRIM, `steps` MOVEs, and nothing else |
| PlanFacts.JumpCounts | app.py:136-142 | a jump holds one TRIM, `steps` MOVEs, no STITCH and no END |
| PlanFacts.SegmentShort | app.py:146-150 | a pair within 127 units gives exactly one STITCH, at the new point |
| PlanFacts.SegmentLong | app.py:129-145 | a longer pair gives one TRIM and `steps` MOVEs, the last at the new point, and no STITCH |
| PlanFacts.SegmentShape | app.py:129-150 | both cases of the distance test, with all four instruction counts |
| PlanFacts.SegmentEnd | app.py:129-150 | every segment ends with a MOVE or STITCH at the new point, where `last` is then set |
| PlanFacts.SegmentTrims | app.py:136-139 | the only TRIM of a segment comes first, at the old position, and a MOVE follows it |
| PlanFacts.SegmentNonMoves | app.py:136-150 | the STITCH or TRIM of a segment is within 127 units of the instruction before it |
| PlanFacts.FirstSubStepAxisNear | app.py:136-139 | the first MOVE of a jump is within 127 units per axis of the TRIM |
| PlanFacts.JumpMoveAxisNear | app.py:132-142 | every MOVE of a jump is within 127 units per axis of the instruction before it |
| PlanFacts.SegmentMoves | app.py:132-142 | every MOVE of a segment is within 127 units per axis of the instruction before it |
| PlanFacts.EmitEnds | app.py:116-150 | the stream before END starts with a MOVE at the first point and ends with a MOVE or STITCH at the last |
| PlanFacts.PlanEnds | app.py:116-154 | the plan starts with a MOVE at the first centred point and ends with an END at the last |
| PlanFacts.EmitTrimsPaired | app.py:111-150 | every TRIM emitted by the loop is at the current position and followed by a MOVE |
| PlanFacts.EmitNonMovesNear | app.py:111-150 | every STITCH and TRIM emitted by the loop is within 127 units of the instruction before it |
| PlanFacts.EmitMovesAxisNear | app.py:111-150 | every later MOVE emitted by the loop is within 127 units per axis of the instruction before it |
| PlanFacts.PlanTrimsPaired | app.py:111-154 | in the whole plan every TRIM is at the current position and immediately followed by a MOVE |
| PlanFacts.PlanNonMovesNear | app.py:111-154 | the plan starts with a MOVE; every STITCH, TRIM and END is within 127 units of the instruction before it |
| PlanFacts.PlanMovesAxisNear | app.py:111-154 | every MOVE after the first is within 127 units per axis of the instruction before it |
| PlanFacts.EmitCounts | app.py:111-150 | the loop emits one MOVE per point and sub-step, one STITCH per short pair and one TRIM per long pair |
| PlanFacts.PlanCounts | app.py:111-154 | the length is 2 + short pairs + the sum over long pairs of (1 + steps); it holds exactly one END |
| PlanFacts.EmitPrefix | app.py:111-150 | the instructions for the first m points are a prefix of those for all points |
| PlanFacts.VisitInPlan | app.py:111-150 | each input point is reached by a MOVE or STITCH at that point, before the END |
| PlanFacts.VisitIncreasing | app.py:111-150 | later points are reached by later instructions |
| PlanFacts.InputOrderPreserved | app.py:111-154 | the plan visits the input points in input order |
| PlanFacts.CentredNearest | app.py:113-114 | each centred coordinate is within 1/2 of its offset from the box centre, and even when the offset is a tie, on both axes |
| PlanFacts.CentredOrdered | app.py:113-114 | centring keeps the order of the coordinates on each axis |
| PlanFacts.CentredExtremes | app.py:90-114 | the extreme centred coordinates belong to the extreme input points |
| PlanFacts.CentredAxis | app.py:90-114 | on each axis the least and greatest centred coordinates cancel |
| PlanFacts.CentredBoxSymmetric | app.py:90-114 | the centred bounding box is exactly symmetric about the origin on both axes |
| Export.Points | app.py:90-93 | the `x` and `y` read from each posted element, one point per element, losing nothing: each element is rebuilt from its point |
| Export.ExportPlan | app.py:61-154 | the whole conversion: `Export.ExportOutcome` states its error cases, `ExportPlanLegal`, `ExportCounts`, `ExportCentred` and `ExportOrder` its plan, and `Export.Build` computes it with the loops |
| Export.AppendJump | app.py:129-145 | the inner `for step` loop appends exactly the jump: TRIM and first MOVE, then the other MOVEs |
| Export.JumpPrefixNext | app.py:132-142 | one turn of the inner loop extends the emitted prefix of the jump by the next sub-step |
| Export.AppendSegment | app.py:122-150 | one turn of the outer loop for a later point appends the segment and reports whether it jumped |
| Export.Build | app.py:61-154 | the handler's conversion equals `ExportPlan`: both errors, or the plan and both counters |
| Export.Convert | app.py:88-154 | the outer loop with END appended yields `Plan` of the centred points, stitch_count == 1 + short pairs, jump_count == long pairs |
| Export.ProgressLast | app.py:116 | `last` is unset exactly before the first point |
| Export.ProgressFirst | app.py:116-120 | the first point gives one MOVE, counted as a stitch |
| Export.ProgressNext | app.py:121-150 | each later point appends its segment and counts a stitch or a jump |
| Export.ProgressDone | app.py:152-154 | after the loop the stream plus END is the plan |
| Export.EmitNext | app.py:111-150 | the stream for i + 1 points extends that for i points by one segment |
| Export.EmitSnoc | app.py:111-150 | the stream for a list is that for its prefix followed by the last pair's segment |
| Export.PairsNext | app.py:129-150 | each later point adds one short pair or one long pair |
| Export.ExportOutcome | app.py:61-65 | an empty list is refused with NoStitches, a point without x or y with MalformedPoint, and everything else is built |
| Export.CentredPoints | app.py:113-114 | a built plan has one centred point per posted point |
| Export.ExportPlanLegal | app.py:111-154 | a built plan starts with MOVE and ends with END, pairs every TRIM, and keeps stitches within 127 units |
| Export.ExportCounts | app.py:108-149 | jump_count equals the TRIMs; stitch_count equals 1 + the STITCHes; plus length and one END |
| Export.ExportCentred | app.py:90-114 | a built plan's design is exactly centred |
| Export.ExportOrder | app.py:111-154 | a built plan visits the posted points in posted order |
| Scenarios.TwoPointRequest | app.py:88-154 | a two-point request is built as the plan of its two centred points |
| Scenarios.TwoPoints | app.py:116-154 | a two-point plan is MOVE, one segment, END, with its pair counted once |
| Scenarios.TwoPointsCentred | app.py:90-114 | two points are centred on the midpoint of their box |
| Scenarios.PairBounds | app.py:90-93 | `min`/`max` of an ordered pair |
| Scenarios.OnePointPlan | app.py:88-154 | a single point (7,3) gives MOVE(0,0) END(0,0), with 1 stitch and no jump |
| Scenarios.ShortPairPlan | app.py:88-154 | (0,0),(10,0) gives MOVE(-5,0) STITCH(5,0) END(5,0), with 2 stitches and no jump |
| Scenarios.TiedPairPlan | app.py:113-114 | (0,0),(3,0) has tied offsets ±1.5, which round to ±2 |
| Scenarios.LongPairPlan | app.py:129-154 | (0,0),(500,0) gives TRIM then four MOVEs 125 apart, 1 stitch and 1 jump |
| Scenarios.LongPairSegment | app.py:129-145 | the segment of the 500-unit pair |
| Scenarios.LongPairJump | app.py:132-142 | the 500-unit jump's MOVEs lie 125 units apart |
| Scenarios.LongPairSteps | app.py:131 | 500 units are split into 4 sub-segments |
| Scenarios.LongPairMove | app.py:133-134 | the k-th sub-step of the 500-unit jump |
| Scenarios.InterpStill | app.py:133-134 | a coordinate the jump does not change stays put |
| Scenarios.DiagonalPairPlan | app.py:129-154 | (0,0),(235,298) gives TRIM and MOVEs to (-39,-49), (39,49), (118,149) |
| Scenarios.DiagonalCentred | app.py:113-114 | the tie -117.5/117.5 rounds to the even -118/118 |
| Scenarios.DiagonalMovesLong | app.py:132-142 | two of those truncated MOVEs cover sqrt(16241) > 127 while staying within 127 per axis |
| Scenarios.DiagonalSegment | app.py:129-145 | the segment of the diagonal pair |
| Scenarios.DiagonalJump | app.py:132-142 | the diagonal jump's instructions |
| Scenarios.DiagonalSteps | app.py:131 | the diagonal pair is split into 3 sub-segments |
| Scenarios.DiagonalMove1 | app.py:133-134 | int(-118 + 236/3) == -39 and int(-149 + 298/3) == -49 |
| Scenarios.DiagonalMove2 | app.py:133-134 | the second sub-step is (39, 49) |
| Scenarios.DiagonalMove3 | app.py:133-134 | the third sub-step is the target (118, 149) |

## Left out

- The Flask application, its routes, static-file serving, `/api/check` and `/health`: web plumbing around the conversion.
- The pyembroidery import and the availability flag (HTTP 500 when the library is missing): a foreign library.
- `EmbPattern`/`EmbThread` creation, the metadata and thread colour, `pattern.bounds()`, `write_pes`, the empty-output check, BytesIO and `send_file`: foreign library calls and I/O. The model stops at the instruction list and counters handed to the writer.
- The `print` diagnostics, the width/height in mm and the logged counters' text: logging only.
- The request body. A missing or non-JSON body makes `data.get` fail, and that is not modelled. A missing `stitches` key is the caller passing the empty list, which `ExportPlan` refuses as NoStitches.
- The catch-all exception handler. A point without `x` or `y` raises a KeyError, which becomes HTTP 500; the model returns MalformedPoint. Coordinates that are not numbers are not modelled.
- Floating point: coordinates are taken to be integers. `** 0.5`, `/ 2.0` and `/ steps` are reasoned about exactly, so float rounding artefacts are not modelled.
- PlanFacts.PlanMovesAxisNear: bounds each MOVE after a TRIM by 127 units per axis only, not by Euclidean distance. The comment at app.py:127-130 says the movement is split to stay within the 127-unit PES limit, but the truncation at app.py:133-134 can make a split MOVE longer than that (`Scenarios.DiagonalMovesLong`); only the per-axis bound holds.
