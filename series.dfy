/** The series that create_data (main.py) computes: a recurrence iterated
    from a seed, the sampling of the computed triangles and the seed
    recovered from the last stored row. The structure of a run is stated for
    any recurrence; what is particular to triangle.py is stated for Next.
    The methods of module Generation are proved against these functions. */
module Series {
  import opened Wrappers
  import opened Numeric
  import opened Triangles
  import opened Store

  /** The loop variables between two iterations: the number of the next
      triangle, the rotation so far and the previous outside right point. */
  datatype Cursor = Cursor(number: int, rotation: real, previous: Option<Point>)

  /** A cursor calculate_triangle can be called on. */
  predicate Ready(c: Cursor) {
    c.number >= 1 && (c.number != 1 ==> c.previous.Some?)
  }

  /** The loop variables after triangle `t` was computed from cursor `c`:
      the number goes up by one, the rotation and the previous point are
      taken from the triangle. */
  function Advance(c: Cursor, t: Triangle): (r: Cursor)
    ensures r.number == c.number + 1
    ensures c.number >= 0 ==> Ready(r)
  {
    Cursor(c.number + 1, t.rotation, Some(t.outsideRight))
  }

  /** Where a run starts and whether it creates the data file. */
  datatype Seed = Seed(cursor: Cursor, createNewFile: bool)

  /** Resume after the last stored row, or start at triangle 1 with rotation 0,
      no previous point, and a new file. */
  function ChooseSeed(last: Option<Row>): (s: Seed)
    requires last.Some? ==> WellFormedRow(last.value)
    ensures Ready(s.cursor)
    ensures s.createNewFile <==> last.None?
    ensures last.None? ==> s.cursor == Cursor(1, 0.0, None)
    ensures last.Some? ==> s.cursor.number > last.value[0].Floor
  {
    match last
    case Some(row) =>
      Seed(Cursor(row[0].Floor + 1, row[7], Some(Point(row[3], row[4]))), false)
    case None =>
      Seed(Cursor(1, 0.0, None), true)
  }

  /** What one iteration computes from the loop variables. */
  type Recurrence = Cursor -> Result<Triangle, Error>

  /** The triangle a recurrence computes carries the cursor's number. */
  ghost predicate KeepsNumber(next: Recurrence) {
    forall c :: next(c).Ok? ==> next(c).value.number == c.number
  }

  /** The recurrence of triangle.py: calculate_triangle on the loop
      variables. It is only ever applied to ready cursors (RunReady), and it
      labels its triangle with the number it was asked for. */
  function Next(b: Backend, cfg: Config): (next: Recurrence)
    requires ValidConfig(cfg) && SqrtPositive(b)
    ensures KeepsNumber(next)
  {
    (c: Cursor) =>
      if Ready(c) then CalculateTriangle(b, cfg, c.number, c.rotation, c.previous)
      else Err(NotRightTriangle(c.number))
  }

  /** One iteration of triangle.py fails exactly when the custom hypotenuse
      is no longer than the outside leg, and the error names the triangle. */
  lemma NextOutcome(b: Backend, cfg: Config, c: Cursor)
    requires ValidConfig(cfg) && SqrtPositive(b)
    ensures Next(b, cfg)(c).Err? ==> Next(b, cfg)(c).error == NotRightTriangle(c.number)
    ensures Ready(c) ==>
              (Next(b, cfg)(c).Err? <==>
                 cfg.customHypotenuse.Some? && cfg.customHypotenuse.value(c.number) <= cfg.outsideLeg)
  {
  }

  /** The triangles computed so far, the loop variables after them, and the
      error that stopped the loop, if any. */
  datatype Outcome = Outcome(computed: seq<Triangle>, cursor: Cursor, error: Option<Error>)

  /** One iteration of the generation loop: compute the triangle the cursor
      points at and move the cursor past it; a stopped loop stays stopped. */
  function Step(next: Recurrence, o: Outcome): (s: Outcome)
    ensures o.error.Some? ==> s == o
    ensures |o.computed| <= |s.computed| && s.computed[..|o.computed|] == o.computed
    ensures s.error.None? <==> |s.computed| == |o.computed| + 1
  {
    if o.error.Some? then
      o
    else
      match next(o.cursor)
      case Err(e) => o.(error := Some(e))
      case Ok(t) => Outcome(o.computed + [t], Advance(o.cursor, t), None)
  }

  /** The first k iterations of the generation loop from cursor c. An
      iteration that raises an error ends the loop. */
  function Run(next: Recurrence, c: Cursor, k: nat): (o: Outcome)
    ensures |o.computed| <= k
    ensures o.error.None? ==> |o.computed| == k
    ensures o.error.Some? ==> |o.computed| < k
    ensures o.cursor.number == c.number + |o.computed|
  {
    if k == 0 then Outcome([], c, None) else Step(next, Run(next, c, k - 1))
  }

  /** After a run the loop variables are the seed's when nothing was
      computed, and otherwise come from the last triangle computed. */
  lemma {:induction false} RunCursor(next: Recurrence, c: Cursor, k: nat)
    ensures var o := Run(next, c, k);
            (o.computed == [] ==> o.cursor == c)
            && (o.computed != [] ==>
                  var last := o.computed[|o.computed| - 1];
                  o.cursor == Cursor(c.number + |o.computed|, last.rotation, Some(last.outsideRight)))
  {
    if k > 0 {
      RunCursor(next, c, k - 1);
      var o := Run(next, c, k - 1);
      if o.error.None? && next(o.cursor).Ok? {
        assert Run(next, c, k).computed == o.computed + [next(o.cursor).value];
      }
    }
  }

  /** A run from a ready cursor only reaches ready cursors. */
  lemma RunReady(next: Recurrence, c: Cursor, k: nat)
    requires Ready(c)
    ensures Ready(Run(next, c, k).cursor)
  {
    RunCursor(next, c, k);
  }

  /** Triangle i of `ts` is triangle number first + i. */
  predicate NumberedFrom(ts: seq<Triangle>, first: int) {
    forall i :: 0 <= i < |ts| ==> ts[i].number == first + i
  }

  /** Triangle i of a run is triangle number c.number + i, so the sampling
      test on the loop counter is a test on the triangle's own number. */
  lemma {:induction false} RunNumbers(next: Recurrence, c: Cursor, k: nat)
    requires KeepsNumber(next)
    ensures NumberedFrom(Run(next, c, k).computed, c.number)
  {
    if k > 0 {
      RunNumbers(next, c, k - 1);
      StepKeepsNumbers(next, c, Run(next, c, k - 1));
    }
  }

  /** One iteration keeps the numbering of RunNumbers. */
  lemma StepKeepsNumbers(next: Recurrence, c: Cursor, o: Outcome)
    requires KeepsNumber(next)
    requires o.cursor.number == c.number + |o.computed|
    requires NumberedFrom(o.computed, c.number)
    ensures NumberedFrom(Step(next, o).computed, c.number)
  {
    var ts, ts' := o.computed, Step(next, o).computed;
    if o.error.None? && next(o.cursor).Ok? {
      assert ts' == ts + [next(o.cursor).value];
      forall i | 0 <= i < |ts'| ensures ts'[i].number == c.number + i {
        if i < |ts| {
          assert ts'[i] == ts[i];
        }
      }
    }
  }

  /** Once the loop has stopped on an error, more iterations change nothing. */
  lemma {:induction false} RunStopsAtError(next: Recurrence, c: Cursor, k: nat, k': nat)
    requires k <= k' && Run(next, c, k).error.Some?
    ensures Run(next, c, k') == Run(next, c, k)
  {
    if k < k' {
      RunStopsAtError(next, c, k, k' - 1);
    }
  }

  /** `o` with `prefix` computed before it. */
  function After(prefix: seq<Triangle>, o: Outcome): Outcome {
    Outcome(prefix + o.computed, o.cursor, o.error)
  }

  /** An iteration does not look at the triangles already computed. */
  lemma StepAfter(next: Recurrence, prefix: seq<Triangle>, o: Outcome)
    ensures Step(next, After(prefix, o)) == After(prefix, Step(next, o))
  {
    if o.error.None? && next(o.cursor).Ok? {
      var t := next(o.cursor).value;
      assert prefix + (o.computed + [t]) == (prefix + o.computed) + [t];
    }
  }

  /** Running j iterations and then k more from where they ended is running
      j + k iterations: stopping and resuming does not change the series. */
  lemma {:induction false} RunSplit(next: Recurrence, c: Cursor, j: nat, k: nat)
    requires Run(next, c, j).error.None?
    ensures var o1 := Run(next, c, j);
            Run(next, c, j + k) == After(o1.computed, Run(next, o1.cursor, k))
  {
    var o1 := Run(next, c, j);
    if k > 0 {
      var rest := Run(next, o1.cursor, k - 1);
      calc {
        Run(next, c, j + k);
        { RunUnfold(next, c, j + k); assert j + k - 1 == j + (k - 1); }
        Step(next, Run(next, c, j + (k - 1)));
        { RunSplit(next, c, j, k - 1); }
        Step(next, After(o1.computed, rest));
        { StepAfter(next, o1.computed, rest); }
        After(o1.computed, Step(next, rest));
        { RunUnfold(next, o1.cursor, k); }
        After(o1.computed, Run(next, o1.cursor, k));
      }
    } else {
      assert o1.computed + [] == o1.computed;
    }
  }

  /** One more iteration is one more Step. */
  lemma RunUnfold(next: Recurrence, c: Cursor, k: nat)
    requires k > 0
    ensures Run(next, c, k) == Step(next, Run(next, c, k - 1))
  {
  }

  /** A run that has not stopped by iteration m is the first m triangles of
      every longer run. */
  lemma RunPrefix(next: Recurrence, c: Cursor, m: nat, j: nat)
    requires m <= j && Run(next, c, m).error.None?
    ensures |Run(next, c, j).computed| >= m
    ensures Run(next, c, j).computed[..m] == Run(next, c, m).computed
  {
    var om := Run(next, c, m);
    var rest := j - m;
    RunSplit(next, c, m, rest);
    assert m + rest == j;
    var oj := Run(next, c, j);
    assert oj == After(om.computed, Run(next, om.cursor, rest));
    assert oj.computed[..m] == om.computed;
  }

  /** A run that computed at least m triangles had not stopped by
      iteration m. */
  lemma RunNotStopped(next: Recurrence, c: Cursor, m: nat, j: nat)
    requires m <= j && m <= |Run(next, c, j).computed|
    ensures Run(next, c, m).error.None?
  {
    if Run(next, c, m).error.Some? {
      RunStopsAtError(next, c, m, j);
    }
  }

  /** Each triangle of `ts` starts where the one before it ended: its
      outside left point is the previous outside right point. */
  predicate Chained(ts: seq<Triangle>) {
    forall i :: 0 < i < |ts| ==> ts[i].outsideLeft == ts[i - 1].outsideRight
  }

  /** Consecutive triangles of triangle.py share a vertex, and the first one
      starts at the seed's previous point unless it is triangle 1. */
  lemma {:induction false} RunContinuity(b: Backend, cfg: Config, c: Cursor, k: nat)
    requires ValidConfig(cfg) && SqrtPositive(b) && Ready(c)
    ensures var ts := Run(Next(b, cfg), c, k).computed;
            Chained(ts) && (ts != [] && c.number != 1 ==> ts[0].outsideLeft == c.previous.value)
  {
    if k > 0 {
      RunContinuity(b, cfg, c, k - 1);
      StepKeepsChain(b, cfg, c, k);
    }
  }

  /** One iteration keeps the shared vertices of RunContinuity. */
  lemma StepKeepsChain(b: Backend, cfg: Config, c: Cursor, k: nat)
    requires ValidConfig(cfg) && SqrtPositive(b) && Ready(c) && k > 0
    requires var ts := Run(Next(b, cfg), c, k - 1).computed;
             Chained(ts) && (ts != [] && c.number != 1 ==> ts[0].outsideLeft == c.previous.value)
    ensures var ts' := Run(Next(b, cfg), c, k).computed;
            Chained(ts') && (ts' != [] && c.number != 1 ==> ts'[0].outsideLeft == c.previous.value)
  {
    var o := Run(Next(b, cfg), c, k - 1);
    RunReady(Next(b, cfg), c, k - 1);
    RunCursor(Next(b, cfg), c, k - 1);
    var ts := o.computed;
    var r := CalculateTriangle(b, cfg, o.cursor.number, o.cursor.rotation, o.cursor.previous);
    StepOfNext(b, cfg, o);
    if o.error.None? && r.Ok? {
      if o.cursor.number != 1 {
        NextTriangle(b, cfg, o.cursor.number, o.cursor.rotation, o.cursor.previous.value);
      }
      ChainedAppend(ts, r.value);
    }
  }

  /** A triangle that starts at the last outside right point keeps Chained. */
  lemma ChainedAppend(ts: seq<Triangle>, t: Triangle)
    requires Chained(ts)
    requires ts != [] ==> t.outsideLeft == ts[|ts| - 1].outsideRight
    ensures Chained(ts + [t])
    ensures (ts + [t])[0] == if ts == [] then t else ts[0]
  {
    var ts' := ts + [t];
    forall i | 0 < i < |ts'| ensures ts'[i].outsideLeft == ts'[i - 1].outsideRight {
      assert ts'[i - 1] == ts[i - 1];
      if i < |ts| {
        assert ts'[i] == ts[i];
      }
    }
  }

  /** An iteration of triangle.py's recurrence from a ready cursor: on
      success the triangle calculate_triangle returns is appended and the
      loop variables advance past it; otherwise nothing is computed. */
  lemma StepOfNext(b: Backend, cfg: Config, o: Outcome)
    requires ValidConfig(cfg) && SqrtPositive(b) && Ready(o.cursor)
    ensures var r := CalculateTriangle(b, cfg, o.cursor.number, o.cursor.rotation, o.cursor.previous);
            var o' := Step(Next(b, cfg), o);
            if o.error.None? && r.Ok? then
              o' == Outcome(o.computed + [r.value], Advance(o.cursor, r.value), None)
            else
              o' == if o.error.Some? then o else o.(error := Some(r.error))
  {
    assert Next(b, cfg)(o.cursor)
           == CalculateTriangle(b, cfg, o.cursor.number, o.cursor.rotation, o.cursor.previous);
  }

  /** How much triangle m turns the series: nothing for triangle 1,
      atan(L / inside leg) for every later triangle. */
  function Increment(b: Backend, cfg: Config, m: int): (r: real)
    requires m >= 1 && ValidConfig(cfg) && SqrtPositive(b)
    ensures AtanPositive(b) && cfg.outsideLeg > 0.0 ==> r >= 0.0
    ensures AtanPositive(b) && cfg.outsideLeg > 0.0 ==> (r > 0.0 <==> m > 1 && InsideLeg(b, cfg, m).Ok?)
  {
    if m == 1 then 0.0
    else match InsideLeg(b, cfg, m)
      case Ok(leg) => b.atan(cfg.outsideLeg / leg)
      case Err(_) => 0.0
  }

  /** The sum of the increments of the `count` triangles from `from` on. */
  function Gain(b: Backend, cfg: Config, from: int, count: nat): (r: real)
    requires from >= 1 && ValidConfig(cfg) && SqrtPositive(b)
    ensures AtanPositive(b) && cfg.outsideLeg > 0.0 ==> r >= 0.0
  {
    if count == 0 then 0.0 else Gain(b, cfg, from, count - 1) + Increment(b, cfg, from + count - 1)
  }

  /** Triangle i of `ts` has rotation `rotation` plus the increments of the
      i + 1 triangles from `first` on. */
  ghost predicate RotatedFrom(b: Backend, cfg: Config, ts: seq<Triangle>, rotation: real, first: int)
    requires first >= 1 && ValidConfig(cfg) && SqrtPositive(b)
  {
    forall i :: 0 <= i < |ts| ==> ts[i].rotation == rotation + Gain(b, cfg, first, i + 1)
  }

  /** Rotation accumulates: triangle i of a run has the seed rotation plus the
      increments of every triangle up to and including itself, and so has
      the cursor after the run. */
  lemma {:induction false} RunRotation(b: Backend, cfg: Config, c: Cursor, k: nat)
    requires ValidConfig(cfg) && SqrtPositive(b) && Ready(c)
    ensures var o := Run(Next(b, cfg), c, k);
            RotatedFrom(b, cfg, o.computed, c.rotation, c.number)
            && o.cursor.rotation == c.rotation + Gain(b, cfg, c.number, |o.computed|)
  {
    if k > 0 {
      RunRotation(b, cfg, c, k - 1);
      RunReady(Next(b, cfg), c, k - 1);
      StepKeepsRotation(b, cfg, c, Run(Next(b, cfg), c, k - 1));
    }
  }

  /** One iteration keeps the accumulated rotation of RunRotation. */
  lemma StepKeepsRotation(b: Backend, cfg: Config, c: Cursor, o: Outcome)
    requires ValidConfig(cfg) && SqrtPositive(b) && Ready(c) && Ready(o.cursor)
    requires o.cursor.number == c.number + |o.computed|
    requires RotatedFrom(b, cfg, o.computed, c.rotation, c.number)
    requires o.cursor.rotation == c.rotation + Gain(b, cfg, c.number, |o.computed|)
    ensures var o' := Step(Next(b, cfg), o);
            RotatedFrom(b, cfg, o'.computed, c.rotation, c.number)
            && o'.cursor.rotation == c.rotation + Gain(b, cfg, c.number, |o'.computed|)
  {
    var ts := o.computed;
    var n := o.cursor.number;
    var r := CalculateTriangle(b, cfg, n, o.cursor.rotation, o.cursor.previous);
    StepOfNext(b, cfg, o);
    if o.error.None? && r.Ok? {
      TriangleTurn(b, cfg, n, o.cursor.rotation, o.cursor.previous);
      assert Gain(b, cfg, c.number, |ts| + 1) == Gain(b, cfg, c.number, |ts|) + Increment(b, cfg, n);
      RotatedFromAppend(b, cfg, ts, r.value, c.rotation, c.number);
    }
  }

  /** A triangle with the next accumulated rotation keeps RotatedFrom. */
  lemma RotatedFromAppend(b: Backend, cfg: Config, ts: seq<Triangle>, t: Triangle,
                          rotation: real, first: int)
    requires first >= 1 && ValidConfig(cfg) && SqrtPositive(b)
    requires RotatedFrom(b, cfg, ts, rotation, first)
    requires t.rotation == rotation + Gain(b, cfg, first, |ts| + 1)
    ensures RotatedFrom(b, cfg, ts + [t], rotation, first)
  {
    var ts' := ts + [t];
    forall i | 0 <= i < |ts'|
      ensures ts'[i].rotation == rotation + Gain(b, cfg, first, i + 1)
    {
      if i < |ts| {
        assert ts'[i] == ts[i];
      }
    }
  }

  /** Triangle n turns the series by Increment(n). */
  lemma TriangleTurn(b: Backend, cfg: Config, n: int, rotation: real, previous: Option<Point>)
    requires n >= 1 && ValidConfig(cfg) && SqrtPositive(b)
    requires n != 1 ==> previous.Some?
    ensures var r := CalculateTriangle(b, cfg, n, rotation, previous);
            r.Ok? ==> r.value.rotation == rotation + Increment(b, cfg, n)
  {
    if n == 1 {
      FirstTriangle(b, cfg, rotation, previous);
    } else {
      NextTriangle(b, cfg, n, rotation, previous.value);
    }
  }

  /** Each triangle of `ts` is turned further than the ones before it. */
  predicate RotationIncreases(ts: seq<Triangle>) {
    forall i, j :: 0 <= i < j < |ts| ==> ts[i].rotation < ts[j].rotation
  }

  /** With a positive outside leg and atan positive on positive numbers, the
      rotation strictly increases along a run (from triangle 1 to 2 too,
      because triangle 2 adds its own increment). */
  lemma {:induction false} RunRotationIncreases(b: Backend, cfg: Config, c: Cursor, k: nat)
    requires ValidConfig(cfg) && SqrtPositive(b) && Ready(c)
    requires cfg.outsideLeg > 0.0 && AtanPositive(b)
    ensures RotationIncreases(Run(Next(b, cfg), c, k).computed)
  {
    if k > 0 {
      RunRotationIncreases(b, cfg, c, k - 1);
      StepKeepsIncreasing(b, cfg, c, k);
    }
  }

  /** One iteration keeps the order of RunRotationIncreases: a triangle
      after triangle 1 turns the series by a positive amount. */
  lemma StepKeepsIncreasing(b: Backend, cfg: Config, c: Cursor, k: nat)
    requires ValidConfig(cfg) && SqrtPositive(b) && Ready(c) && k > 0
    requires cfg.outsideLeg > 0.0 && AtanPositive(b)
    requires RotationIncreases(Run(Next(b, cfg), c, k - 1).computed)
    ensures RotationIncreases(Run(Next(b, cfg), c, k).computed)
  {
    var o := Run(Next(b, cfg), c, k - 1);
    RunReady(Next(b, cfg), c, k - 1);
    RunCursor(Next(b, cfg), c, k - 1);
    StepKeepsIncreasingAt(b, cfg, c, o);
  }

  /** StepKeepsIncreasing on the outcome of the earlier iterations. */
  lemma StepKeepsIncreasingAt(b: Backend, cfg: Config, c: Cursor, o: Outcome)
    requires ValidConfig(cfg) && SqrtPositive(b) && Ready(c) && Ready(o.cursor)
    requires cfg.outsideLeg > 0.0 && AtanPositive(b)
    requires o.cursor.number == c.number + |o.computed|
    requires o.computed != [] ==> o.cursor.rotation == o.computed[|o.computed| - 1].rotation
    requires RotationIncreases(o.computed)
    ensures RotationIncreases(Step(Next(b, cfg), o).computed)
  {
    var ts := o.computed;
    var n := o.cursor.number;
    var r := CalculateTriangle(b, cfg, n, o.cursor.rotation, o.cursor.previous);
    StepOfNext(b, cfg, o);
    if o.error.None? && r.Ok? {
      if ts != [] {
        TriangleTurn(b, cfg, n, o.cursor.rotation, o.cursor.previous);
        var leg := InsideLeg(b, cfg, n).value;
        assert cfg.outsideLeg / leg > 0.0 by {
          MulPositive(cfg.outsideLeg, 1.0 / leg);
        }
        assert Increment(b, cfg, n) > 0.0;
      }
      IncreasingAppend(ts, r.value);
    }
  }

  /** A triangle turned further than the last one keeps RotationIncreases. */
  lemma IncreasingAppend(ts: seq<Triangle>, t: Triangle)
    requires RotationIncreases(ts)
    requires ts != [] ==> t.rotation > ts[|ts| - 1].rotation
    ensures RotationIncreases(ts + [t])
  {
    var ts' := ts + [t];
    forall i, j | 0 <= i < j < |ts'| ensures ts'[i].rotation < ts'[j].rotation {
      assert ts'[i] == ts[i];
      if j < |ts| {
        assert ts'[j] == ts[j];
      } else if i < |ts| - 1 {
        assert ts[i].rotation < ts[|ts| - 1].rotation;
      }
    }
  }

  /** Python's `%`: n minus d times the quotient rounded down, so the
      remainder has the sign of the divisor. Dafny's own `%` is Euclidean:
      its remainder is never negative. The two agree on which numbers are
      multiples of d. */
  function FloorMod(n: int, d: int): (r: int)
    requires d != 0
    ensures d > 0 ==> 0 <= r < d
    ensures d < 0 ==> d < r <= 0
    ensures (n - r) % d == 0
    ensures r == 0 <==> n % d == 0
  {
    var q := if d > 0 || n % d == 0 then n / d else n / d - 1;
    MultipleMod(d, q);
    assert n - q * d == if d > 0 || n % d == 0 then n % d else n % d + d;
    n - q * d
  }

  /** A multiple of d leaves no remainder. */
  lemma MultipleMod(d: int, q: int)
    requires d != 0
    ensures (q * d) % d == 0
  {
    var e := q - (q * d) / d;
    assert (q * d) % d == d * e;
    NonZeroMultiple(d, e);
  }

  /** A non-zero multiple of d is at least as far from 0 as d. */
  lemma NonZeroMultiple(d: int, e: int)
    requires d != 0
    ensures e == 0 || d * e >= d * 1 || d * e <= d * -1
  {
    if e > 0 {
      if d > 0 { assert d * e >= d * 1; } else { assert d * e <= d * 1; }
    } else if e < 0 {
      if d > 0 { assert d * e <= d * -1; } else { assert d * e >= d * -1; }
    }
  }

  /** The sampling test of the generation loop: triangle n is saved when n
      is a multiple of `every`. The lemmas below hold for any test `keep`. */
  function Sampling(every: int): (keep: int -> bool)
    requires every != 0
    ensures forall n :: keep(n) <==> FloorMod(n, every) == 0
  {
    n => n % every == 0
  }

  /** The triangles the sampling keeps: those whose number passes `keep`,
      in the order they were computed. */
  function Kept(ts: seq<Triangle>, keep: int -> bool): (ks: seq<Triangle>)
    ensures |ks| <= |ts|
  {
    if ts == [] then []
    else
      var t := ts[|ts| - 1];
      Kept(ts[..|ts| - 1], keep) + if keep(t.number) then [t] else []
  }

  /** One more computed triangle adds itself to the kept ones exactly when
      its number passes the sampling test. */
  lemma KeptAppend(ts: seq<Triangle>, t: Triangle, keep: int -> bool)
    ensures Kept(ts + [t], keep) == Kept(ts, keep) + if keep(t.number) then [t] else []
  {
    assert (ts + [t])[..|ts|] == ts;
  }

  /** A triangle is kept exactly when it was computed and its number passes
      `keep`. */
  lemma {:induction false} KeptExactly(ts: seq<Triangle>, keep: int -> bool)
    ensures forall t :: t in Kept(ts, keep) <==> t in ts && keep(t.number)
  {
    if ts != [] {
      KeptExactly(ts[..|ts| - 1], keep);
      assert ts == ts[..|ts| - 1] + [ts[|ts| - 1]];
    }
  }

  /** Numbers strictly increasing along `ts`. */
  predicate NumbersIncrease(ts: seq<Triangle>) {
    forall i, j :: 0 <= i < j < |ts| ==> ts[i].number < ts[j].number
  }

  /** The kept triangles keep the order they were computed in. */
  lemma {:induction false} KeptInOrder(ts: seq<Triangle>, keep: int -> bool)
    requires NumbersIncrease(ts)
    ensures NumbersIncrease(Kept(ts, keep))
  {
    if ts != [] {
      var init, t := ts[..|ts| - 1], ts[|ts| - 1];
      assert NumbersIncrease(init) by {
        forall i, j | 0 <= i < j < |init| ensures init[i].number < init[j].number {
          assert init[i] == ts[i] && init[j] == ts[j];
        }
      }
      KeptInOrder(init, keep);
      KeptExactly(init, keep);
      var ks := Kept(init, keep);
      forall u | u in ks ensures u.number < t.number {
        var i :| 0 <= i < |init| && init[i] == u;
        assert ts[i] == u;
      }
      if keep(t.number) {
        var ks' := ks + [t];
        forall i, j | 0 <= i < j < |ks'| ensures ks'[i].number < ks'[j].number {
          assert ks'[i] == ks[i] && ks[i] in ks;
          if j < |ks| {
            assert ks'[j] == ks[j];
          }
        }
      }
    }
  }

  /** The rows written for a sequence of triangles, in order. */
  function RowsOf(ts: seq<Triangle>): (rows: seq<Row>)
    ensures |rows| == |ts|
    ensures forall i :: 0 <= i < |ts| ==> rows[i] == ts[i].Fields()
  {
    seq(|ts|, i requires 0 <= i < |ts| => ts[i].Fields())
  }

  /** The numbers saved by a run are exactly the numbers passing `keep` among
      the numbers it computed, each once and in increasing order. */
  lemma SavedNumbers(next: Recurrence, c: Cursor, k: nat, keep: int -> bool)
    requires KeepsNumber(next)
    ensures var o := Run(next, c, k);
            var ks := Kept(o.computed, keep);
            (forall m :: (exists t :: t in ks && t.number == m)
                         <==> c.number <= m < o.cursor.number && keep(m))
            && NumbersIncrease(ks)
  {
    var o := Run(next, c, k);
    RunNumbers(next, c, k);
    KeptExactly(o.computed, keep);
    KeptInOrder(o.computed, keep);
    forall m | c.number <= m < o.cursor.number && keep(m)
      ensures exists t :: t in Kept(o.computed, keep) && t.number == m
    {
      assert o.computed[m - c.number] in o.computed;
    }
  }

  /** Every triangle kept by a run carries a number from the run's first
      number on, and the kept numbers strictly increase. */
  lemma KeptFrom(next: Recurrence, c: Cursor, k: nat, keep: int -> bool)
    requires KeepsNumber(next)
    ensures var ks := Kept(Run(next, c, k).computed, keep);
            && (forall i :: 0 <= i < |ks| ==> ks[i].number >= c.number)
            && NumbersIncrease(ks)
  {
    var ts := Run(next, c, k).computed;
    var ks := Kept(ts, keep);
    RunNumbers(next, c, k);
    KeptExactly(ts, keep);
    KeptInOrder(ts, keep);
    forall i | 0 <= i < |ks| ensures ks[i].number >= c.number {
      assert ks[i] in ks;
    }
  }

  /** The rows of triangles numbered from 1 on in increasing order make a
      well-formed file. */
  lemma RowsWellFormed(header: Option<seq<string>>, ks: seq<Triangle>)
    requires NumbersIncrease(ks) && forall i :: 0 <= i < |ks| ==> ks[i].number >= 1
    ensures WellFormedFile(CsvFile(header, RowsOf(ks)))
  {
    var rows := RowsOf(ks);
    forall i | 0 <= i < |rows| ensures WellFormedRow(rows[i]) {
      ResumeFromRow(ks[i]);
    }
    forall i, j | 0 <= i < j < |rows| ensures rows[i][0] < rows[j][0] {
      assert ks[i].number < ks[j].number;
    }
  }

  /** A session keeps the data file well formed: whether it creates the
      file or appends to it, every stored row is well formed and no
      triangle number is stored twice or out of order, because a resumed
      session starts right after the last stored triangle. */
  lemma SessionKeepsFileWellFormed(next: Recurrence, disk: Option<CsvFile>, headers: seq<string>,
                                   k: nat, keep: int -> bool)
    requires KeepsNumber(next)
    requires LastRow(disk).Some? ==> WellFormedRow(LastRow(disk).value)
    requires disk.Some? ==> WellFormedFile(disk.value)
    ensures var seed := ChooseSeed(LastRow(disk));
            var batch := RowsOf(Kept(Run(next, seed.cursor, k).computed, keep));
            WellFormedFile(Written(disk, headers, batch, seed.createNewFile))
  {
    var seed := ChooseSeed(LastRow(disk));
    var ks := Kept(Run(next, seed.cursor, k).computed, keep);
    KeptFrom(next, seed.cursor, k, keep);
    RowsWellFormed(Some(headers), ks);
    if !seed.createNewFile {
      var f := disk.value;
      RowsWellFormed(f.header, ks);
      if ks != [] {
        var last := f.rows[|f.rows| - 1];
        assert last[0] < RowsOf(ks)[0][0] by {
          assert last[0] == last[0].Floor as real;
          assert last[0].Floor < seed.cursor.number <= ks[0].number;
        }
      }
      AppendKeepsWellFormed(f, RowsOf(ks));
    }
  }

  /** The loop variables after triangle t: the next number, t's rotation
      and t's outside right point. */
  function Resumed(t: Triangle): (r: Cursor)
    ensures t.number >= 0 ==> Ready(r)
    ensures forall c: Cursor :: c.number == t.number ==> Advance(c, t) == r
  {
    Cursor(t.number + 1, t.rotation, Some(t.outsideRight))
  }

  /** A stored row gives back the loop variables after its triangle. */
  lemma ResumeFromRow(t: Triangle)
    requires t.number >= 1
    ensures WellFormedRow(t.Fields())
    ensures ChooseSeed(Some(t.Fields())) == Seed(Resumed(t), false)
  {
  }


  /** Every row create_data accepts is some triangle's row, so a session
      resumes right after that triangle, in append mode. */
  lemma ResumeFromAnyRow(r: Row)
    requires WellFormedRow(r)
    ensures var t := Triangle(Point(r[1], r[2]), Point(r[3], r[4]), Point(r[5], r[6]), r[0].Floor, r[7]);
            t.Fields() == r && ChooseSeed(Some(r)) == Seed(Resumed(t), false)
  {
    var t := Triangle(Point(r[1], r[2]), Point(r[3], r[4]), Point(r[5], r[6]), r[0].Floor, r[7]);
    assert t.Fields() == r;
    ResumeFromRow(t);
  }

  /** How many triangles of `ts` go up to and including the last kept one
      (0 when none is kept). */
  function LastKeptAt(ts: seq<Triangle>, keep: int -> bool): (m: nat)
    ensures m <= |ts|
  {
    if ts == [] then 0
    else if keep(ts[|ts| - 1].number) then |ts|
    else LastKeptAt(ts[..|ts| - 1], keep)
  }

  /** When something is kept, the first m triangles of `ts`, for m its
      LastKeptAt, end with the last kept triangle and keep all that `ts`
      keeps. */
  lemma {:induction false} LastKeptAtIsLast(ts: seq<Triangle>, m: nat, keep: int -> bool)
    requires Kept(ts, keep) != [] && m == LastKeptAt(ts, keep)
    ensures var ks := Kept(ts, keep);
            && 1 <= m <= |ts|
            && ts[m - 1] == ks[|ks| - 1]
            && Kept(ts[..m], keep) == ks
  {
    var init := ts[..|ts| - 1];
    if keep(ts[|ts| - 1].number) {
      assert ts[..|ts|] == ts;
    } else {
      assert Kept(ts, keep) == Kept(init, keep) + [];
      LastKeptAtIsLast(init, m, keep);
      assert ts[..m] == init[..m];
    }
  }

  /** The last kept triangle of a run carries the number of its place in
      the run: it is triangle m of the run for m its LastKeptAt. */
  lemma LastKept(next: Recurrence, c: Cursor, j: nat, m: nat, keep: int -> bool)
    requires KeepsNumber(next)
    requires Kept(Run(next, c, j).computed, keep) != []
    requires m == LastKeptAt(Run(next, c, j).computed, keep)
    ensures var ks := Kept(Run(next, c, j).computed, keep);
            m >= 1 && ks[|ks| - 1].number == c.number + m - 1
  {
    var ts := Run(next, c, j).computed;
    var ks := Kept(ts, keep);
    assert 1 <= m <= |ts| && ts[m - 1] == ks[|ks| - 1] by {
      LastKeptAtIsLast(ts, m, keep);
    }
    assert ts[m - 1].number == c.number + (m - 1) by {
      RunNumbers(next, c, j);
    }
  }

  /** Triangle m of a run that has not stopped leaves the loop variables
      Resumed of it, and carrying on from there continues the run exactly. */
  lemma ResumeAfter(next: Recurrence, c: Cursor, m: nat, k: nat)
    requires KeepsNumber(next) && m >= 1
    requires Run(next, c, m).error.None?
    ensures var om := Run(next, c, m);
            var t := om.computed[m - 1];
            && om.cursor == Resumed(t)
            && Run(next, c, m + k) == After(om.computed, Run(next, Resumed(t), k))
  {
    var om := Run(next, c, m);
    var t := om.computed[m - 1];
    RunNumbers(next, c, m);
    assert t.number == c.number + m - 1;
    RunCursor(next, c, m);
    RunSplit(next, c, m, k);
  }

  /** Carrying on from the loop variables after triangle m of a run
      continues the run: nothing is repeated and nothing is skipped. */
  lemma ResumeAt(next: Recurrence, c: Cursor, j: nat, m: nat, k: nat)
    requires KeepsNumber(next) && 1 <= m <= |Run(next, c, j).computed|
    ensures var ts := Run(next, c, j).computed;
            Run(next, c, m + k).computed == ts[..m] + Run(next, Resumed(ts[m - 1]), k).computed
  {
    RunNotStopped(next, c, m, j);
    RunPrefix(next, c, m, j);
    ResumeAfter(next, c, m, k);
  }

  /** Carrying on from the loop variables after triangle m of a run stops
      on an error exactly when the run continued for as long does. */
  lemma ResumeAtError(next: Recurrence, c: Cursor, j: nat, m: nat, k: nat)
    requires KeepsNumber(next) && 1 <= m <= |Run(next, c, j).computed|
    ensures var ts := Run(next, c, j).computed;
            Run(next, c, m + k).error == Run(next, Resumed(ts[m - 1]), k).error
  {
    RunNotStopped(next, c, m, j);
    RunPrefix(next, c, m, j);
    ResumeAfter(next, c, m, k);
  }

  /** Keeping from two pieces one after the other keeps from each piece. */
  lemma {:induction false} KeptConcat(a: seq<Triangle>, b: seq<Triangle>, keep: int -> bool)
    ensures Kept(a + b, keep) == Kept(a, keep) + Kept(b, keep)
  {
    if b == [] {
      assert a + b == a;
    } else {
      var init, x := b[..|b| - 1], b[|b| - 1];
      KeptConcat(a, init, keep);
      assert b == init + [x];
      assert a + b == (a + init) + [x];
      KeptAppend(a + init, x, keep);
      KeptAppend(init, x, keep);
    }
  }

  /** Resuming from the last saved row repeats nothing and skips nothing.
      The triangles kept in a run of j iterations, followed by those kept
      in k iterations resumed from the last kept triangle, are the
      triangles a single run of m + k iterations keeps, for m the place of
      that triangle in the run. */
  lemma ResumeMatchesOneRun(next: Recurrence, c: Cursor, j: nat, m: nat, k: nat, keep: int -> bool)
    requires KeepsNumber(next)
    requires Kept(Run(next, c, j).computed, keep) != []
    requires m == LastKeptAt(Run(next, c, j).computed, keep)
    ensures var ks := Kept(Run(next, c, j).computed, keep);
            Kept(Run(next, c, m + k).computed, keep)
            == ks + Kept(Run(next, Resumed(ks[|ks| - 1]), k).computed, keep)
  {
    var ts := Run(next, c, j).computed;
    var ks := Kept(ts, keep);
    assert 1 <= m <= |ts| && ts[m - 1] == ks[|ks| - 1] && Kept(ts[..m], keep) == ks by {
      LastKeptAtIsLast(ts, m, keep);
    }
    assert Run(next, c, m + k).computed == ts[..m] + Run(next, Resumed(ks[|ks| - 1]), k).computed by {
      ResumeAt(next, c, j, m, k);
    }
    KeptConcat(ts[..m], Run(next, Resumed(ks[|ks| - 1]), k).computed, keep);
  }


  /** The rows of two pieces one after the other are the rows of each. */
  lemma RowsOfConcat(a: seq<Triangle>, b: seq<Triangle>)
    ensures RowsOf(a + b) == RowsOf(a) + RowsOf(b)
  {
    assert forall i :: 0 <= i < |a| ==> (a + b)[i] == a[i];
    assert forall i :: |a| <= i < |a| + |b| ==> (a + b)[i] == b[i - |a|];
  }

  /** Creating a file with the rows of `first` and then appending the rows
      of `second` gives the file created with the rows of both. */
  lemma CreateThenAppend(headers: seq<string>, first: seq<Triangle>, second: seq<Triangle>)
    ensures Written(Some(Written(None, headers, RowsOf(first), true)), headers, RowsOf(second), false)
            == Written(None, headers, RowsOf(first + second), true)
  {
    RowsOfConcat(first, second);
  }

  /** A file created with the rows of some triangles ends with the row of
      the last of them, and a session started on that file resumes right
      after that triangle and appends to the file. */
  lemma ResumeFromCreated(headers: seq<string>, ks: seq<Triangle>)
    requires ks != [] && ks[|ks| - 1].number >= 1
    ensures var f := Written(None, headers, RowsOf(ks), true);
            && LastRow(Some(f)) == Some(ks[|ks| - 1].Fields())
            && WellFormedRow(ks[|ks| - 1].Fields())
            && ChooseSeed(LastRow(Some(f))) == Seed(Resumed(ks[|ks| - 1]), false)
  {
    ResumeFromRow(ks[|ks| - 1]);
  }

  /** Stopping and restarting create_data loses and repeats nothing. A first
      session on a new data file runs j iterations and stores the sampled
      rows; a second session resumes from the last stored row, triangle m of
      the first run, and runs k iterations. The file then holds exactly the
      rows one session of m + k iterations would have stored, and the second
      session stops on an error exactly when that one session does.
      It needs the first session to have kept at least one row, so that the
      second one resumes from a stored row. The files it speaks of are the
      ones the unbounded branch of create_data leaves, header first and then
      each kept row as it is computed, even when a session stops on an
      error. The bounded branch leaves the same files only for sessions
      that raise no error: a failing bounded session writes nothing. The
      lemma holds for any recurrence that keeps numbers, and Next's contract
      says that Next does. */
  lemma TwoSessionsMatchOne(next: Recurrence, headers: seq<string>, j: nat, m: nat, k: nat, keep: int -> bool)
    requires KeepsNumber(next)
    requires var ts := Run(next, ChooseSeed(None).cursor, j).computed;
             Kept(ts, keep) != [] && m == LastKeptAt(ts, keep)
    ensures var first := ChooseSeed(None);
            var f1 := Written(None, headers, RowsOf(Kept(Run(next, first.cursor, j).computed, keep)), first.createNewFile);
            var single := Run(next, first.cursor, m + k);
            && LastRow(Some(f1)).Some?
            && WellFormedRow(LastRow(Some(f1)).value)
            && var second := ChooseSeed(LastRow(Some(f1)));
               var o2 := Run(next, second.cursor, k);
               && !second.createNewFile
               && o2.error == single.error
               && Written(Some(f1), headers, RowsOf(Kept(o2.computed, keep)), second.createNewFile)
                  == Written(None, headers, RowsOf(Kept(single.computed, keep)), true)
  {
    var first := ChooseSeed(None);
    var ts := Run(next, first.cursor, j).computed;
    var ks := Kept(ts, keep);
    assert ks[|ks| - 1].number >= 1 by {
      LastKept(next, first.cursor, j, m, keep);
    }
    ResumeFromCreated(headers, ks);
    var o2 := Run(next, Resumed(ks[|ks| - 1]), k);
    assert Kept(Run(next, first.cursor, m + k).computed, keep) == ks + Kept(o2.computed, keep) by {
      ResumeMatchesOneRun(next, first.cursor, j, m, k, keep);
    }
    assert Run(next, first.cursor, m + k).error == o2.error by {
      LastKeptAtIsLast(ts, m, keep);
      ResumeAtError(next, first.cursor, j, m, k);
    }
    CreateThenAppend(headers, ks, Kept(o2.computed, keep));
  }
}
