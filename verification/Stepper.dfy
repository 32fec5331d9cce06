/** The idle air stepper: homing, then dead reckoning in whole four-phase sequences. */
module Stepper {
  import opened Arithmetic
  import opened Words

  const LEARN_COUNTS := 400
  const NO_MINIMUM: uint32 := 0xffff_ffff

  datatype Calibration = Calibration(homeSteps: uint32, openCold: uint16, openHot: uint16)

  /** What one call reads: coolant temperature, control mode, idle speed target, engine speed. */
  datatype Inputs = Inputs(temperature: sint32, closedLoop: bool, idleTarget: uint16, rpm: uint32)

  datatype Direction = Unset | Close | Open

  /** One energising of the coils: entry `index` of the table for a direction. */
  datatype Phase = Phase(direction: Direction, index: nat)

  datatype State = State(homing: bool, counter: uint32, limit: uint32, table: Direction,
                         norm: uint32, target: uint32, feedback: uint32,
                         learnedMin: uint32, learned: uint32, tuned: uint32)

  const INITIAL := State(true, 0, 0, Unset, 0, 0, 0, 0, 0, 0)

  // ---------- Targets ----------

  function Clip(temperature: sint32): nat {
    if temperature < 0 then 0 else Min(temperature, 100000)
  }

  /** Steps open as a fraction of 256, between 255 when cold and 50 when hot. */
  function OpenNorm(t: nat): uint32
    requires t <= 100000
  {
    ((100000 - t) * 255 + t * 50) / 100000
  }

  lemma OpenNormFalls(t: nat, u: nat)
    requires t <= u <= 100000
    ensures 50 <= OpenNorm(u) <= OpenNorm(t) <= 255
  {
    assert (100000 - u) * 255 + u * 50 <= (100000 - t) * 255 + t * 50;
  }

  /** n is the open-loop target at temperature t: 255 to 0 degrees, 50 from 100 on, in thousandths,
      and on the line between these two points rounded down. */
  ghost predicate OpensTo(n: int, t: int) {
    && (t <= 0 ==> n == 255)
    && (t >= 100000 ==> n == 50)
    && (0 < t < 100000 ==> 100000 * n <= 25500000 - 205 * t < 100000 * (n + 1))
  }

  lemma OpenNormInPlain(t: sint32)
    ensures OpensTo(OpenNorm(Clip(t)), t)
  {
    if 0 < t < 100000 {
      var x := (100000 - t) * 255 + t * 50;
      assert x == 25500000 - 205 * t;
    }
  }

  lemma OpensToOne(n: int, m: int, t: int)
    requires OpensTo(n, t) && OpensTo(m, t)
    ensures n == m && 50 <= n <= 255
  {
  }

  function Steps(openCold: uint16, norm: uint32): uint32 {
    ToU32(norm * openCold) / 0x100
  }

  function MaxSteps(openCold: uint16): nat {
    255 * openCold / 0x100
  }

  lemma StepsBounded(openCold: uint16, norm: uint32)
    requires norm <= 255
    ensures Steps(openCold, norm) <= MaxSteps(openCold) <= 0xffff
    ensures Steps(openCold, norm) == norm * openCold / 0x100
  {
    Larger(openCold, norm, 255);
    NoWrap(norm * openCold);
  }

  function Tick(c: uint32): uint32 {
    ToU32(c + 1)
  }

  function Lower(x: uint32): uint32 {
    if x > 0 then x - 1 else x
  }

  function Abs32(x: int): sint32 {
    ToS32(if x < 0 then -x else x)
  }

  /** How rarely the target is lowered, by how far the engine is too fast. */
  function LowerEvery(fast: bool, underMinimum: bool): nat {
    if fast then (if underMinimum then 16 else 8) else if underMinimum then 64 else 16
  }

  /** The learned minimum at the end of a stretch of calm idling. */
  function Learn(learnedMin: uint32, feedback: uint32, openHot: uint16): uint32 {
    if learnedMin == NO_MINIMUM then feedback
    else if feedback < learnedMin then
      (if learnedMin - feedback > openHot / 2 then learnedMin - openHot / 2 else learnedMin - 1)
    else feedback
  }

  /** Closed loop, engine off its target. */
  function Tune(cal: Calibration, s: State, i: Inputs, open: uint32, error: sint32): State {
    var n := Tick(s.tuned);
    var u := s.(tuned := n, learned := 0);
    if i.idleTarget > i.rpm then
      (if n % 4 == 0 && open > s.norm then u.(norm := Tick(s.norm)) else u)
    else if cal.openHot > ToU32(s.norm * cal.openHot) / 0x100 then
      (if n % LowerEvery(250 < error, s.learnedMin >= s.target) == 0 then u.(norm := Lower(s.norm)) else u)
    else if n % 16 == 0 then u.(target := Lower(s.target)) else u
  }

  /** Closed loop, engine on its target. */
  function Settle(cal: Calibration, s: State): State {
    var n := Tick(s.learned);
    var u := s.(tuned := 0, learned := n);
    if n % LEARN_COUNTS == LEARN_COUNTS - 1 then u.(learnedMin := Learn(s.learnedMin, s.feedback, cal.openHot)) else u
  }

  /** The normalised target for the next sequence. */
  function Retarget(cal: Calibration, s: State, i: Inputs): State {
    var open := OpenNorm(Clip(i.temperature));
    var error := Abs32(ToS32(i.idleTarget - ToS32(i.rpm)));
    if !i.closedLoop then s.(norm := open, learned := 0)
    else if 60 < error then Tune(cal, s, i, open, error)
    else Settle(cal, s)
  }

  /** A sequence is begun if the target is more than one step away. */
  function Aim(cal: Calibration, s: State): State {
    var target := Steps(cal.openCold, s.norm);
    var u := s.(target := target);
    if Distance(target, s.feedback) <= 1 then u
    else u.(table := if target < s.feedback then Close else Open, limit := 4, counter := 0)
  }

  function Home(cal: Calibration, s: State, i: Inputs): State {
    if s.limit == 0 then
      s.(counter := 0, norm := 0, target := 0, limit := ToU32(4 * cal.homeSteps),
         learnedMin := NO_MINIMUM, learned := 0, table := Close)
    else if s.limit == s.counter then
      var norm := OpenNorm(Clip(i.temperature));
      var target := Steps(cal.openCold, norm);
      s.(counter := 0, norm := norm, target := target, feedback := 0,
         limit := ToU32(4 * target), table := Open, homing := false)
    else s
  }

  /** The first part of a call decides, the second emits a phase. */
  function Decide(cal: Calibration, s: State, i: Inputs): State {
    if s.homing then Home(cal, s, i)
    else if s.limit == s.counter then Aim(cal, Retarget(cal, s, i))
    else s
  }

  function Emit(s: State): State {
    if s.limit <= s.counter then s
    else
      var counter := s.counter + 1;
      var feedback := if counter % 4 != 0 || s.feedback == s.target then s.feedback
                      else if s.feedback > s.target then s.feedback - 1 else s.feedback + 1;
      s.(counter := counter, feedback := feedback)
  }

  function Emitted(s: State): seq<Phase> {
    if s.limit <= s.counter then [] else [Phase(s.table, s.counter % 4)]
  }

  function Next(cal: Calibration, s: State, i: Inputs): State {
    Emit(Decide(cal, s, i))
  }

  function Output(cal: Calibration, s: State, i: Inputs): seq<Phase> {
    Emitted(Decide(cal, s, i))
  }

  function Run(cal: Calibration, s: State, inputs: seq<Inputs>): State {
    if inputs == [] then s else Next(cal, Run(cal, s, inputs[..|inputs| - 1]), inputs[|inputs| - 1])
  }

  /** The phases emitted over a run. */
  function Phases(cal: Calibration, s: State, inputs: seq<Inputs>): seq<Phase> {
    if inputs == [] then []
    else
      Phases(cal, s, inputs[..|inputs| - 1])
      + Output(cal, Run(cal, s, inputs[..|inputs| - 1]), inputs[|inputs| - 1])
  }

  // ---------- Dead reckoning ----------

  /** Phases 0, 1, 2, 3 over and over, the direction changing only between sequences. */
  ghost predicate WholeSequences(ps: seq<Phase>) {
    forall i :: 0 <= i < |ps| ==>
      && ps[i].index == i % 4 && ps[i].direction in {Close, Open}
      && (i % 4 != 0 ==> ps[i].direction == ps[i - 1].direction)
  }

  /** Completed open sequences minus completed close sequences. */
  function Net(ps: seq<Phase>): int {
    if ps == [] then 0
    else
      var last := ps[|ps| - 1];
      Net(ps[..|ps| - 1]) + if last.index != 3 then 0 else if last.direction == Open then 1 else -1
  }

  /** Number of homing phases. */
  function HomePhases(cal: Calibration): uint32 {
    ToU32(4 * cal.homeSteps)
  }

  ghost predicate AllClose(ps: seq<Phase>) {
    forall p <- ps :: p.direction == Close
  }

  /** While homing: the phases so far are the counter's worth of closing ones. */
  ghost predicate Homing(cal: Calibration, s: State, ps: seq<Phase>) {
    && s.homing && s.feedback == 0 && s.target == 0 && s.norm == 0
    && s.limit in {0, HomePhases(cal)} && s.counter <= s.limit
    && |ps| == s.counter && AllClose(ps)
    && (s.limit != 0 ==> s.table == Close)
  }

  /** The current sequence brings the feedback towards the target. */
  ghost predicate Approaching(s: State) {
    s.counter < s.limit ==>
      match s.table
      case Unset => false
      case Open => s.feedback + (s.limit - s.counter + 3) / 4 <= s.target
      case Close => s.limit == 4 && s.feedback > s.target
  }

  /** After homing: the phases since then account for the feedback. */
  ghost predicate Reckoning(cal: Calibration, s: State, ps: seq<Phase>) {
    var h := HomePhases(cal);
    && !s.homing && 0 < h <= |ps|
    && AllClose(ps[..h])
    && s.norm <= 255 && s.target == Steps(cal.openCold, s.norm)
    && s.counter <= s.limit && s.limit % 4 == 0 && s.counter % 4 == |ps| % 4
    && Approaching(s)
    && (s.counter % 4 != 0 ==> ps[|ps| - 1].direction == s.table)
    && s.feedback == Net(ps[h..]) && s.feedback <= MaxSteps(cal.openCold)
  }

  ghost predicate Tracked(cal: Calibration, s: State, ps: seq<Phase>) {
    WholeSequences(ps) && (Homing(cal, s, ps) || Reckoning(cal, s, ps))
  }

  // ---------- Every call keeps track ----------

  /** All of a state that a new target leaves alone. */
  ghost predicate SameSequence(s: State, u: State) {
    && u.homing == s.homing && u.counter == s.counter && u.limit == s.limit && u.table == s.table
    && u.feedback == s.feedback
  }

  lemma TuneBounds(cal: Calibration, s: State, i: Inputs, open: uint32, error: sint32)
    requires s.norm <= 255 && open <= 255
    ensures Tune(cal, s, i, open, error).norm <= 255 && SameSequence(s, Tune(cal, s, i, open, error))
  {
  }

  lemma RetargetBounds(cal: Calibration, s: State, i: Inputs)
    requires s.norm <= 255
    ensures Retarget(cal, s, i).norm <= 255 && SameSequence(s, Retarget(cal, s, i))
  {
    var t := Clip(i.temperature);
    OpenNormFalls(0, t);
    TuneBounds(cal, s, i, OpenNorm(t), Abs32(ToS32(i.idleTarget - ToS32(i.rpm))));
  }

  /** In closed loop a sequence changes the target by at most one: up, and no further than the
      open-loop target, only if the engine is more than 60 too slow; down only if it is more than
      60 too fast. */
  lemma ClosedLoopSlews(cal: Calibration, s: State, i: Inputs)
    requires i.closedLoop && s.norm <= 255 && i.rpm <= 0x7fff_ffff
    ensures var u := Retarget(cal, s, i);
      && s.norm - 1 <= u.norm <= s.norm + 1
      && (u.norm > s.norm ==> i.idleTarget > i.rpm + 60 && u.norm <= OpenNorm(Clip(i.temperature)))
      && (u.norm < s.norm ==> i.rpm > i.idleTarget + 60)
  {
    var rpm: int, goal: int := i.rpm, i.idleTarget;
    assert ToS32(rpm) == rpm && ToS32(goal - rpm) == goal - rpm;
    assert Abs32(goal - rpm) == Distance(goal, rpm);
  }

  /** In open loop a sequence takes over the open-loop target. */
  lemma OpenLoopInPlain(cal: Calibration, s: State, i: Inputs)
    requires !i.closedLoop
    ensures var u := Retarget(cal, s, i);
      OpensTo(u.norm, i.temperature) && u == s.(norm := u.norm, learned := 0)
  {
    OpenNormInPlain(i.temperature);
  }

  /** In closed loop, more than 60 too slow: every fourth such sequence raises the target, up to the
      open-loop target n. */
  lemma TooSlowInPlain(cal: Calibration, s: State, i: Inputs, n: int)
    requires i.closedLoop && i.idleTarget > i.rpm + 60 && OpensTo(n, i.temperature)
    ensures var u, count := Retarget(cal, s, i), (s.tuned + 1) % 0x1_0000_0000;
      && u == s.(norm := u.norm, tuned := count, learned := 0)
      && u.norm == if count % 4 == 0 && s.norm < n then s.norm + 1 else s.norm
  {
    ErrorInPlain(i);
    OpenNormInPlain(i.temperature);
    OpensToOne(n, OpenNorm(Clip(i.temperature)), i.temperature);
  }

  lemma ErrorInPlain(i: Inputs)
    requires i.rpm <= 0x7fff_ffff
    ensures Abs32(ToS32(i.idleTarget - ToS32(i.rpm)))
         == if i.idleTarget > i.rpm then i.idleTarget - i.rpm else i.rpm - i.idleTarget
  {
    var rpm: int, goal: int := i.rpm, i.idleTarget;
    assert ToS32(rpm) == rpm && ToS32(goal - rpm) == goal - rpm;
  }

  /** More than 60 too fast: every sixteenth such sequence lowers the target, every eighth if it is
      more than 250, half or a quarter as often if the learned minimum is not below the steps aimed
      at. Without any steps calibrated for a hot engine those steps are lowered instead. */
  lemma TooFastInPlain(cal: Calibration, s: State, i: Inputs)
    requires i.closedLoop && i.rpm > i.idleTarget + 60 && i.rpm <= 0x7fff_ffff && s.norm <= 255
    ensures var u, count := Retarget(cal, s, i), (s.tuned + 1) % 0x1_0000_0000;
      var every := if i.rpm > i.idleTarget + 250 then (if s.learnedMin < s.target then 8 else 16)
                   else if s.learnedMin < s.target then 16 else 64;
      && u == s.(norm := u.norm, target := u.target, tuned := count, learned := 0)
      && u.norm == (if cal.openHot > 0 && count % every == 0 && s.norm > 0 then s.norm - 1 else s.norm)
      && u.target == if cal.openHot == 0 && count % 16 == 0 && s.target > 0 then s.target - 1 else s.target
  {
    ErrorInPlain(i);
    HotInPlain(cal.openHot, s.norm);
  }

  lemma HotInPlain(openHot: uint16, norm: uint32)
    requires norm <= 255
    ensures openHot > ToU32(norm * openHot) / 0x100 <==> openHot > 0
  {
    Larger(openHot, norm, 255);
    NoWrap(norm * openHot);
  }

  /** Within 60: the target stays, and at the end of every 400 such sequences the learned minimum
      becomes the feedback if that is higher or the first one learned; otherwise it falls by one, or
      by half the steps for a hot engine if the feedback is even further below. */
  lemma OnTargetInPlain(cal: Calibration, s: State, i: Inputs)
    requires i.closedLoop && i.rpm <= i.idleTarget + 60 && i.idleTarget <= i.rpm + 60
    ensures var u, count := Retarget(cal, s, i), (s.learned + 1) % 0x1_0000_0000;
      && u == s.(tuned := 0, learned := count, learnedMin := u.learnedMin)
      && u.learnedMin
         == if count % 400 != 399 then s.learnedMin
            else if s.learnedMin == 0xffff_ffff || s.feedback >= s.learnedMin then s.feedback
            else if s.learnedMin - s.feedback > cal.openHot / 2 then s.learnedMin - cal.openHot / 2
            else s.learnedMin - 1
  {
    ErrorInPlain(i);
  }

  /** A sequence begins exactly if the target is at least two steps away. */
  lemma AimInPlain(cal: Calibration, s: State, target: uint32)
    requires s.norm <= 255 && target == s.norm * cal.openCold / 0x100
    ensures var u := Aim(cal, s);
      u == if target > s.feedback + 1 then s.(target := target, table := Open, limit := 4, counter := 0)
           else if s.feedback > target + 1 then s.(target := target, table := Close, limit := 4, counter := 0)
           else s.(target := target)
  {
    StepsBounded(cal.openCold, s.norm);
  }

  /** Homing begins with four closing phases for each calibrated step, modulo 2^32, and ends with the
      valve counted as closed and four opening phases ahead for each step of its open-loop target. */
  lemma HomeInPlain(cal: Calibration, s: State, i: Inputs, n: uint32, target: uint32)
    requires s.homing && OpensTo(n, i.temperature) && target == n * cal.openCold / 0x100
    ensures var u := Home(cal, s, i);
      if s.limit == 0 then
        u == State(true, 0, 4 * cal.homeSteps % 0x1_0000_0000, Close, 0, 0, s.feedback, 0xffff_ffff, 0, s.tuned)
      else if s.limit == s.counter then
        && u.limit == 4 * target
        && u == State(false, 0, u.limit, Open, n, target, 0, s.learnedMin, s.learned, s.tuned)
      else u == s
  {
    OpenNormInPlain(i.temperature);
    OpensToOne(n, OpenNorm(Clip(i.temperature)), i.temperature);
    StepsBounded(cal.openCold, n);
    QuadrupleFits(Steps(cal.openCold, n));
  }

  lemma DecideKeepsTrack(cal: Calibration, s: State, i: Inputs, ps: seq<Phase>)
    requires Tracked(cal, s, ps)
    ensures Tracked(cal, Decide(cal, s, i), ps)
  {
    if s.homing {
      HomeKeepsTrack(cal, s, i, ps);
    } else if s.limit == s.counter {
      RetargetBounds(cal, s, i);
      AimKeepsTrack(cal, Retarget(cal, s, i), ps);
    }
  }

  lemma HomeKeepsTrack(cal: Calibration, s: State, i: Inputs, ps: seq<Phase>)
    requires WholeSequences(ps) && Homing(cal, s, ps)
    ensures Tracked(cal, Home(cal, s, i), ps)
  {
    if s.limit == 0 {
      assert Homing(cal, Home(cal, s, i), ps);
    } else if s.limit == s.counter {
      HomeDone(cal, s, i, ps);
    }
  }

  /** The valve is closed; it is opened in one go to its target. */
  lemma HomeDone(cal: Calibration, s: State, i: Inputs, ps: seq<Phase>)
    requires Homing(cal, s, ps) && s.limit == s.counter != 0
    ensures Reckoning(cal, Home(cal, s, i), ps)
  {
    var t := Clip(i.temperature);
    OpenNormFalls(t, 100000);
    OpenNormFalls(0, t);
    StepsBounded(cal.openCold, OpenNorm(t));
    QuadrupleFits(Steps(cal.openCold, OpenNorm(t)));
    FourFold(cal.homeSteps);
    assert ps[..|ps|] == ps && ps[|ps|..] == [];
  }

  lemma QuadrupleFits(x: nat)
    requires x <= 0xffff
    ensures ToU32(4 * x) == 4 * x && 4 * x % 4 == 0 && (4 * x + 3) / 4 == x
  {
  }

  lemma FourFold(x: uint32)
    ensures ToU32(4 * x) % 4 == 0
  {
    var r, q := ToU32(4 * x), 4 * x / U32_MODULUS;
    assert r == 4 * (x - q * 0x4000_0000);
  }

  /** At the end of a sequence, whatever the target has become. */
  ghost predicate Rested(cal: Calibration, s: State, ps: seq<Phase>) {
    var h := HomePhases(cal);
    && !s.homing && 0 < h <= |ps| && AllClose(ps[..h])
    && s.norm <= 255 && s.limit == s.counter && s.limit % 4 == 0 == |ps| % 4
    && s.feedback == Net(ps[h..]) && s.feedback <= MaxSteps(cal.openCold)
  }

  lemma AimKeepsTrack(cal: Calibration, s: State, ps: seq<Phase>)
    requires WholeSequences(ps) && Rested(cal, s, ps)
    ensures Reckoning(cal, Aim(cal, s), ps)
  {
    StepsBounded(cal.openCold, s.norm);
    AimApproaches(cal, s);
  }

  lemma AimApproaches(cal: Calibration, s: State)
    requires s.limit == s.counter && s.limit % 4 == 0
    ensures var u := Aim(cal, s);
      Approaching(u) && u.counter <= u.limit && u.limit % 4 == u.counter % 4 == 0 && u.feedback == s.feedback
  {
  }

  lemma OneMorePhase(ps: seq<Phase>, p: Phase)
    requires WholeSequences(ps) && p.index == |ps| % 4 && p.direction in {Close, Open}
    requires |ps| % 4 != 0 ==> p.direction == ps[|ps| - 1].direction
    ensures WholeSequences(ps + [p])
  {
  }

  lemma NetAppend(ps: seq<Phase>, h: nat, p: Phase)
    requires h <= |ps|
    ensures (ps + [p])[..h] == ps[..h]
    ensures Net((ps + [p])[h..])
         == Net(ps[h..]) + if p.index != 3 then 0 else if p.direction == Open then 1 else -1
  {
    assert (ps + [p])[h..] == ps[h..] + [p];
    var qs := ps[h..] + [p];
    assert qs[..|qs| - 1] == ps[h..];
  }

  lemma HomeEmit(cal: Calibration, s: State, ps: seq<Phase>)
    requires WholeSequences(ps) && Homing(cal, s, ps) && s.counter < s.limit
    ensures Tracked(cal, Emit(s), ps + Emitted(s))
  {
    OneMorePhase(ps, Phase(s.table, s.counter % 4));
  }

  /** A feedback step is one towards the target, at the last phase of a sequence. */
  lemma ApproachStep(s: State)
    requires Approaching(s) && s.counter < s.limit && s.limit % 4 == 0
    ensures Approaching(Emit(s)) && s.table in {Close, Open}
    ensures Emit(s).feedback == s.feedback + if s.counter % 4 != 3 then 0 else if s.table == Open then 1 else -1
    ensures Emit(s).feedback <= Max(s.feedback, s.target)
  {
    SequencesLeft(s.counter, s.limit);
  }

  lemma SequencesLeft(counter: nat, limit: nat)
    requires counter < limit && limit % 4 == 0
    ensures (counter + 1) % 4 == 0 <==> counter % 4 == 3
    ensures (limit - counter + 3) / 4 >= 1
    ensures (limit - (counter + 1) + 3) / 4 + (if counter % 4 == 3 then 1 else 0) <= (limit - counter + 3) / 4
  {
    var n, q, r := limit / 4, counter / 4, counter % 4;
    assert limit - counter == 4 * (n - q) - r;
  }

  lemma SamePhase(a: nat, b: nat)
    requires a % 4 == b % 4
    ensures (a + 1) % 4 == (b + 1) % 4
  {
  }

  lemma RunEmit(cal: Calibration, s: State, ps: seq<Phase>)
    requires WholeSequences(ps) && Reckoning(cal, s, ps) && s.counter < s.limit
    ensures WholeSequences(ps + Emitted(s)) && Reckoning(cal, Emit(s), ps + Emitted(s))
  {
    ApproachStep(s);
    Reckoned(cal, s, Emit(s), Phase(s.table, s.counter % 4), ps);
  }

  /** The account of phases, given how the feedback steps. */
  lemma Reckoned(cal: Calibration, s: State, u: State, p: Phase, ps: seq<Phase>)
    requires WholeSequences(ps) && Reckoning(cal, s, ps) && s.counter < s.limit
    requires p == Phase(s.table, s.counter % 4) && s.table in {Close, Open} && Approaching(u)
    requires u == s.(counter := s.counter + 1, feedback := u.feedback) && u.feedback <= Max(s.feedback, s.target)
    requires u.feedback == s.feedback + if p.index != 3 then 0 else if s.table == Open then 1 else -1
    ensures WholeSequences(ps + [p]) && Reckoning(cal, u, ps + [p])
  {
    StepsBounded(cal.openCold, s.norm);
    OneMorePhase(ps, p);
    NetAppend(ps, HomePhases(cal), p);
    SamePhase(s.counter, |ps|);
  }

  lemma EmitKeepsTrack(cal: Calibration, s: State, ps: seq<Phase>)
    requires Tracked(cal, s, ps)
    ensures Tracked(cal, Emit(s), ps + Emitted(s))
  {
    if s.limit <= s.counter {
      assert ps + [] == ps;
    } else if s.homing {
      HomeEmit(cal, s, ps);
    } else {
      RunEmit(cal, s, ps);
    }
  }

  lemma {:induction false} RunKeepsTrack(cal: Calibration, inputs: seq<Inputs>)
    ensures Tracked(cal, Run(cal, INITIAL, inputs), Phases(cal, INITIAL, inputs))
  {
    if inputs != [] {
      var front, i := inputs[..|inputs| - 1], inputs[|inputs| - 1];
      RunKeepsTrack(cal, front);
      var s, ps := Run(cal, INITIAL, front), Phases(cal, INITIAL, front);
      DecideKeepsTrack(cal, s, i, ps);
      EmitKeepsTrack(cal, Decide(cal, s, i), ps);
    }
  }

  /** Over every run: whole sequences only; homing is closing phases only, four for each homing
      step; afterwards the feedback is the net number of completed open sequences, within the
      calibrated range. */
  lemma DeadReckoning(cal: Calibration, inputs: seq<Inputs>)
    ensures var s, ps := Run(cal, INITIAL, inputs), Phases(cal, INITIAL, inputs);
      var h := 4 * cal.homeSteps % 0x1_0000_0000;
      && WholeSequences(ps) && s.norm <= 255
      && if s.homing then |ps| <= h && AllClose(ps) && s.feedback == 0
         else h <= |ps| && AllClose(ps[..h]) && 0 <= Net(ps[h..]) == s.feedback <= 255 * cal.openCold / 0x100
  {
    RunKeepsTrack(cal, inputs);
  }

  lemma HomingStep(cal: Calibration, s: State, i: Inputs)
    requires s.homing && s.counter <= s.limit
    ensures var t := Next(cal, s, i);
      && (t.homing <==> s.limit == 0 || s.counter < s.limit)
      && (t.homing ==> t.limit == if s.limit == 0 then HomePhases(cal) else s.limit)
  {
  }

  lemma StaysNormal(cal: Calibration, s: State, i: Inputs)
    requires !s.homing && s.norm <= 255
    ensures !Next(cal, s, i).homing
  {
    RetargetBounds(cal, s, i);
  }

  /** Homing ends, with the call after its last phase, exactly if 4 * homeSteps is no multiple of
      2^32. */
  lemma {:induction false} HomingEnds(cal: Calibration, inputs: seq<Inputs>)
    ensures var s, ps, h := Run(cal, INITIAL, inputs), Phases(cal, INITIAL, inputs), HomePhases(cal);
      && (s.homing <==> h == 0 || |inputs| <= h)
      && (s.homing ==> |ps| == Min(|inputs|, h) && s.limit == (if inputs == [] then 0 else h))
  {
    RunKeepsTrack(cal, inputs);
    if inputs != [] {
      var front, i := inputs[..|inputs| - 1], inputs[|inputs| - 1];
      HomingEnds(cal, front);
      RunKeepsTrack(cal, front);
      var s := Run(cal, INITIAL, front);
      if s.homing {
        HomingStep(cal, s, i);
      } else {
        StaysNormal(cal, s, i);
      }
    }
  }

  lemma HomingNeverEndsIff(cal: Calibration)
    ensures HomePhases(cal) == 0 <==> cal.homeSteps % 0x4000_0000 == 0
    ensures cal.homeSteps < 0x4000_0000 ==> HomePhases(cal) == 4 * cal.homeSteps
  {
    var q := cal.homeSteps / 0x4000_0000;
    assert 4 * cal.homeSteps == q * 0x1_0000_0000 + 4 * (cal.homeSteps % 0x4000_0000);
  }

  // ---------- Convergence ----------

  ghost predicate OpenLoop(inputs: seq<Inputs>, temperature: sint32) {
    forall i <- inputs :: !i.closedLoop && i.temperature == temperature
  }

  function Goal(cal: Calibration, temperature: sint32): uint32 {
    Steps(cal.openCold, OpenNorm(Clip(temperature)))
  }

  lemma GoalInPlain(cal: Calibration, temperature: sint32, n: int)
    requires OpensTo(n, temperature)
    ensures Goal(cal, temperature) == n * cal.openCold / 0x100
  {
    OpenNormInPlain(temperature);
    OpensToOne(n, OpenNorm(Clip(temperature)), temperature);
    StepsBounded(cal.openCold, n);
  }

  /** Between sequences, or within one towards the goal. */
  ghost predicate Cruising(s: State, goal: uint32) {
    && !s.homing
    && (|| s.limit == s.counter
        || (&& s.limit == 4 && 0 < s.counter < 4 && s.target == goal && Distance(goal, s.feedback) > 1
            && s.table == if goal < s.feedback then Close else Open))
  }

  /** Phases still to emit. */
  function ToGo(s: State, goal: uint32): int {
    var d := Distance(goal, s.feedback);
    if s.limit != s.counter then 4 * (d - 1) - s.counter else if d <= 1 then 0 else 4 * (d - 1)
  }

  lemma CruiseStep(cal: Calibration, s: State, i: Inputs)
    requires Cruising(s, Goal(cal, i.temperature)) && !i.closedLoop
    ensures var t, g := Next(cal, s, i), Goal(cal, i.temperature);
      && Cruising(t, g) && ToGo(s, g) >= 0
      && ToGo(t, g) == Max(ToGo(s, g) - 1, 0)
      && |Output(cal, s, i)| == Min(ToGo(s, g), 1)
      && Min(Distance(g, t.feedback), 1) == Min(Distance(g, s.feedback), 1)
  {
  }

  lemma {:induction false} Cruise(cal: Calibration, s: State, inputs: seq<Inputs>, temperature: sint32)
    requires Cruising(s, Goal(cal, temperature)) && OpenLoop(inputs, temperature)
    ensures var t, g := Run(cal, s, inputs), Goal(cal, temperature);
      && Cruising(t, g) && ToGo(s, g) >= 0
      && ToGo(t, g) == Max(ToGo(s, g) - |inputs|, 0)
      && |Phases(cal, s, inputs)| == Min(ToGo(s, g), |inputs|)
      && Min(Distance(g, t.feedback), 1) == Min(Distance(g, s.feedback), 1)
  {
    if inputs == [] {
      assert ToGo(s, Goal(cal, temperature)) >= 0;
    } else {
      var front, i := inputs[..|inputs| - 1], inputs[|inputs| - 1];
      Cruise(cal, s, front, temperature);
      CruiseStep(cal, Run(cal, s, front), i);
    }
  }

  /** In open loop at a constant temperature the distance to the target falls by one with every
      fourth call until it is at most one; from then on no phase is emitted. */
  lemma Converges(cal: Calibration, s: State, inputs: seq<Inputs>, temperature: sint32, n: int)
    requires !s.homing && s.limit == s.counter && OpenLoop(inputs, temperature) && OpensTo(n, temperature)
    ensures var t, g := Run(cal, s, inputs), n * cal.openCold / 0x100;
      var d := Distance(g, s.feedback);
      var moves := Min(|inputs|, 4 * Max(d - 1, 0));
      && |Phases(cal, s, inputs)| == moves
      && Distance(g, t.feedback) == d - moves / 4
  {
    Cruise(cal, s, inputs, temperature);
    GoalInPlain(cal, temperature, n);
  }

  /** m phases of the first opening are done, the others are opening ones as well. */
  ghost predicate Opening(s: State, goal: uint32, m: nat) {
    && !s.homing && s.feedback == m / 4
    && if m < 4 * goal then s.limit == 4 * goal && s.counter == m && s.target == goal && s.table == Open
       else s.limit == s.counter
  }

  ghost predicate AllOpen(ps: seq<Phase>) {
    forall i :: 0 <= i < |ps| ==> ps[i].direction == Open
  }

  lemma OpeningStep(cal: Calibration, s: State, i: Inputs, m: nat)
    requires !i.closedLoop && m <= 4 * Goal(cal, i.temperature) && Opening(s, Goal(cal, i.temperature), m)
    ensures var g := Goal(cal, i.temperature);
      && Opening(Next(cal, s, i), g, Min(m + 1, 4 * g))
      && |Output(cal, s, i)| == Min(m + 1, 4 * g) - m && AllOpen(Output(cal, s, i))
  {
  }

  lemma FirstOpening(cal: Calibration, s: State, i: Inputs)
    requires s.homing && s.counter == s.limit != 0
    ensures var g := Goal(cal, i.temperature);
      && Opening(Next(cal, s, i), g, Min(1, 4 * g))
      && |Output(cal, s, i)| == Min(1, 4 * g) && AllOpen(Output(cal, s, i))
  {
    var t := Clip(i.temperature);
    OpenNormFalls(t, 100000);
    OpenNormFalls(0, t);
    StepsBounded(cal.openCold, OpenNorm(t));
    QuadrupleFits(Goal(cal, i.temperature));
  }

  /** After homing the phases are opening ones, m of them. */
  ghost predicate Opened(s: State, ps: seq<Phase>, h: nat, goal: uint32, m: nat) {
    Opening(s, goal, m) && |ps| == h + m && AllOpen(ps[h..])
  }

  lemma OpenedStep(cal: Calibration, s: State, i: Inputs, ps: seq<Phase>, h: nat, m: nat)
    requires !i.closedLoop && m <= 4 * Goal(cal, i.temperature) && Opened(s, ps, h, Goal(cal, i.temperature), m)
    ensures var g := Goal(cal, i.temperature);
      Opened(Next(cal, s, i), ps + Output(cal, s, i), h, g, Min(m + 1, 4 * g))
  {
    OpeningStep(cal, s, i, m);
    OpenAppend(ps, Output(cal, s, i), h);
  }

  lemma {:induction false} OpensAfterHoming(cal: Calibration, inputs: seq<Inputs>, temperature: sint32)
    requires HomePhases(cal) < |inputs| && OpenLoop(inputs, temperature) && HomePhases(cal) > 0
    ensures var h, g := HomePhases(cal), Goal(cal, temperature);
      Opened(Run(cal, INITIAL, inputs), Phases(cal, INITIAL, inputs), h, g, Min(|inputs| - h, 4 * g))
  {
    var h, g, front, i := HomePhases(cal), Goal(cal, temperature), inputs[..|inputs| - 1], inputs[|inputs| - 1];
    var s, ps := Run(cal, INITIAL, front), Phases(cal, INITIAL, front);
    if |front| == h {
      RunKeepsTrack(cal, front);
      HomingEnds(cal, front);
      FirstOpening(cal, s, i);
      OpenAppend(ps, Output(cal, s, i), h);
    } else {
      OpensAfterHoming(cal, front, temperature);
      OpenedStep(cal, s, i, ps, h, Min(|front| - h, 4 * g));
    }
  }

  /** From reset in open loop at a constant temperature: the homing phases, then exactly four
      opening phases for each step of the open-loop target n, then none. */
  lemma FromReset(cal: Calibration, inputs: seq<Inputs>, temperature: sint32, n: int, steps: nat)
    requires OpenLoop(inputs, temperature) && OpensTo(n, temperature) && steps == n * cal.openCold / 0x100
    requires 0 < 4 * cal.homeSteps % 0x1_0000_0000 < |inputs|
    ensures var h, ps := 4 * cal.homeSteps % 0x1_0000_0000, Phases(cal, INITIAL, inputs);
      var m := Min(|inputs| - h, 4 * steps);
      && WholeSequences(ps) && |ps| == h + m && AllClose(ps[..h]) && AllOpen(ps[h..])
      && Run(cal, INITIAL, inputs).feedback == m / 4
  {
    RunKeepsTrack(cal, inputs);
    OpensAfterHoming(cal, inputs, temperature);
    GoalInPlain(cal, temperature, n);
  }

  lemma OpenAppend(ps: seq<Phase>, more: seq<Phase>, h: nat)
    requires h <= |ps| && AllOpen(ps[h..]) && AllOpen(more)
    ensures (ps + more)[..h] == ps[..h] && AllOpen((ps + more)[h..])
  {
    assert (ps + more)[h..] == ps[h..] + more;
  }

  // ---------- The module's variables ----------

  class IdleStepper {
    const cal: Calibration
    var homing: bool
    var counter: uint32
    var limit: uint32
    var table: Direction
    var norm: uint32
    var target: uint32
    var feedback: uint32
    var learnedMin: uint32
    var learned: uint32
    var tuned: uint32

    function View(): State
      reads this
    {
      State(homing, counter, limit, table, norm, target, feedback, learnedMin, learned, tuned)
    }

    /** IAC_vStart. */
    constructor (cal: Calibration)
      ensures this.cal == cal && View() == INITIAL
    {
      this.cal := cal;
      homing, counter, limit, table := true, 0, 0, Unset;
      norm, target, feedback := 0, 0, 0;
      learnedMin, learned, tuned := 0, 0, 0;
    }

    method RunHoming(i: Inputs)
      requires homing
      modifies this
      ensures View() == Home(cal, old(View()), i)
    {
      if limit == 0 {
        counter, norm, target := 0, 0, 0;
        limit := ToU32(4 * cal.homeSteps);
        learnedMin, learned := NO_MINIMUM, 0;
        table := Close;
      } else if limit == counter {
        counter := 0;
        norm := OpenNorm(Clip(i.temperature));
        target := Steps(cal.openCold, norm);
        feedback := 0;
        limit := ToU32(4 * target);
        table := Open;
        homing := false;
      }
    }

    /** The engine idles too fast: the target is lowered every eighth to sixty-fourth time. */
    method LowerTarget(error: sint32)
      modifies this`norm, this`target
      ensures norm == if cal.openHot > ToU32(old(norm) * cal.openHot) / 0x100
          && tuned % LowerEvery(250 < error, learnedMin >= old(target)) == 0 then Lower(old(norm)) else old(norm)
      ensures target == if cal.openHot <= ToU32(old(norm) * cal.openHot) / 0x100 && tuned % 16 == 0
        then Lower(old(target)) else old(target)
    {
      if cal.openHot > ToU32(norm * cal.openHot) / 0x100 {
        if 250 < error {
          if !(learnedMin >= target) {
            if tuned % 8 == 0 {
              norm := if 0 < norm then norm - 1 else norm;
            }
          } else if tuned % 16 == 0 {
            norm := if 0 < norm then norm - 1 else norm;
          }
        } else if !(learnedMin >= target) {
          if tuned % 16 == 0 {
            norm := if 0 < norm then norm - 1 else norm;
          }
        } else if tuned % 64 == 0 {
          norm := if 0 < norm then norm - 1 else norm;
        }
      } else if tuned % 16 == 0 {
        target := if 0 < target then target - 1 else target;
      }
    }

    method TuneTarget(i: Inputs, open: uint32, error: sint32)
      modifies this
      ensures View() == Tune(cal, old(View()), i, open, error)
    {
      tuned := Tick(tuned);
      learned := 0;
      if i.idleTarget > i.rpm {
        if tuned % 4 == 0 {
          norm := if open > norm then norm + 1 else norm;
        }
      } else {
        LowerTarget(error);
      }
    }

    method LearnMinimum()
      modifies this
      ensures View() == Settle(cal, old(View()))
    {
      tuned := 0;
      learned := Tick(learned);
      if learned % LEARN_COUNTS == LEARN_COUNTS - 1 {
        if learnedMin == NO_MINIMUM {
          learnedMin := feedback;
        } else if feedback < learnedMin {
          if learnedMin - feedback > cal.openHot / 2 {
            learnedMin := learnedMin - cal.openHot / 2;
          } else {
            learnedMin := learnedMin - 1;
          }
        } else if feedback > learnedMin {
          learnedMin := feedback;
        }
      }
    }

    method ChooseTarget(i: Inputs)
      modifies this
      ensures View() == Retarget(cal, old(View()), i)
    {
      var open := OpenNorm(Clip(i.temperature));
      if !i.closedLoop {
        norm := open;
        learned := 0;
      } else {
        var error := Abs32(ToS32(i.idleTarget - ToS32(i.rpm)));
        if 60 < error {
          TuneTarget(i, open, error);
        } else {
          LearnMinimum();
        }
      }
    }

    method NextSequence(i: Inputs)
      modifies this
      ensures View() == Aim(cal, Retarget(cal, old(View()), i))
    {
      ChooseTarget(i);
      target := Steps(cal.openCold, norm);
      if 1 < Distance(target, feedback) {
        table := if target < feedback then Close else Open;
        limit, counter := 4, 0;
      }
    }

    method EmitPhase() returns (phase: Option<Phase>)
      modifies this
      ensures View() == Emit(old(View()))
      ensures Emitted(old(View())) == if phase.None? then [] else [phase.value]
    {
      phase := None;
      if limit > counter {
        phase := Some(Phase(table, counter % 4));
        counter := counter + 1;
        if counter % 4 == 0 {
          if feedback > target {
            feedback := feedback - 1;
          } else if feedback < target {
            feedback := feedback + 1;
          }
        }
      }
    }

    /** The stepper part of IAC_vRun. */
    method Run(enabled: bool, i: Inputs) returns (phase: Option<Phase>)
      modifies this
      ensures View() == if enabled then Next(cal, old(View()), i) else old(View())
      ensures (if enabled then Output(cal, old(View()), i) else []) == if phase.None? then [] else [phase.value]
      ensures enabled && old(limit) == old(counter) && (if old(homing) then old(limit) != 0 else !i.closedLoop)
        ==> OpensTo(norm, i.temperature) && !homing
    {
      phase := None;
      if enabled {
        OpenNormInPlain(i.temperature);
        if homing {
          RunHoming(i);
        } else if limit == counter {
          NextSequence(i);
        }
        phase := EmitPhase();
      }
    }
  }
}
