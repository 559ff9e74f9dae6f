/** The boot state machine.

    State `s` has an entry phase, numbered `2 * s`, and an exit phase, `2 * s + 1`; the
    order of these numbers is the order in which the code compares phases.  Callbacks,
    state functions and timers are foreign code: what it does to the machine each time it
    is given control is read from a script, so that every run is the run of some script.

    Each accepted callback is given a number, in order of acceptance.  The ghost fields
    are the history of the run. */
module BootState {

  const STATES: nat := 12
  const PHASES: nat := 24
  const OS_RESUME_CHECK: nat := 7
  const OS_RESUME: nat := 8
  const WRITE_TABLES: nat := 9
  const PAYLOAD_BOOT: nat := 11

  type Phase = p: nat | p < PHASES

  datatype Op = Sched(p: Phase) | Block(p: Phase) | Unblock(p: Phase) | BlockCurrent | UnblockCurrent

  /** One stretch of foreign code; `wake` is what the resume check would find. */
  datatype Foreign = Foreign(ops: seq<Op>, wake: bool)

  /** The state that a state function names as the next one. */
  function NextState(s: nat, wake: bool): nat {
    if s == OS_RESUME_CHECK then (if wake then OS_RESUME else WRITE_TABLES)
    else if s >= PAYLOAD_BOOT then PAYLOAD_BOOT
    else s + 1
  }

  /** What foreign code can change: the queues, the blockers, and for each callback accepted
      its phase and whether it came late. */
  datatype Board = Board(queues: seq<seq<nat>>, blockers: seq<nat>, phaseOf: seq<nat>, late: seq<bool>) {
    predicate Valid() { |queues| == PHASES && |blockers| == PHASES && |phaseOf| == |late| }

    /** Nothing keeps the machine in phase `p`. */
    predicate Clear(p: nat)
      requires Valid() && p < PHASES
    {
      queues[p] == [] && blockers[p] == 0
    }
  }

  /** One call: callbacks are refused for completed states, blocking and unblocking for
      phases before `current`. */
  function Effect(b: Board, complete: seq<bool>, current: nat, op: Op): (r: Board)
    requires b.Valid() && |complete| == STATES && current < PHASES
    ensures r.Valid() && b.phaseOf <= r.phaseOf && b.late <= r.late
  {
    match op
    case Sched(p) =>
      if complete[p / 2] then b
      else Board(b.queues[p := [|b.phaseOf|] + b.queues[p]], b.blockers, b.phaseOf + [p], b.late + [p < current])
    case Block(p) => if p < current then b else b.(blockers := b.blockers[p := b.blockers[p] + 1])
    case Unblock(p) => if p < current || b.blockers[p] == 0
                       then b
                       else b.(blockers := b.blockers[p := b.blockers[p] - 1])
    case BlockCurrent => b.(blockers := b.blockers[current := b.blockers[current] + 1])
    case UnblockCurrent => if b.blockers[current] == 0
                           then b
                           else b.(blockers := b.blockers[current := b.blockers[current] - 1])
  }

  function Effects(b: Board, complete: seq<bool>, current: nat, ops: seq<Op>): (r: Board)
    requires b.Valid() && |complete| == STATES && current < PHASES
    ensures r.Valid() && b.phaseOf <= r.phaseOf && b.late <= r.late
    decreases |ops|
  {
    if ops == [] then b else Effect(Effects(b, complete, current, ops[..|ops| - 1]), complete, current, ops[|ops| - 1])
  }

  /** After state `s`, whose function found a wake vector or not, comes `t`: the resume check
      chooses between resuming and going on, every other state is followed by the next in the
      enumeration, and the last by itself. */
  predicate Names(s: nat, wake: bool, t: nat) {
    && (s == OS_RESUME_CHECK ==> (t == OS_RESUME <==> wake) && (t == WRITE_TABLES <==> !wake))
    && (s == PAYLOAD_BOOT ==> t == PAYLOAD_BOOT)
    && (s != OS_RESUME_CHECK && s != PAYLOAD_BOOT ==> t == s + 1)
  }

  /** The states run, from the first one, each named by the one before it; the last one may
      not have come to an answer yet. */
  predicate Way(states: seq<nat>, found: seq<bool>) {
    && |found| <= |states| <= |found| + 1 && (states != [] ==> states[0] == 0)
    && forall i | 0 < i < |states| :: Names(states[i - 1], found[i - 1], states[i])
  }

  /** The same, when all have answered and the machine has come to `next`. */
  predicate Path(states: seq<nat>, found: seq<bool>, next: nat) {
    && Way(states, found) && |found| == |states|
    && if states == [] then next == 0 else Names(states[|states| - 1], found[|states| - 1], next)
  }

  lemma PathStart()
    ensures Path([], [], 0)
  {}

  lemma PathMore(states: seq<nat>, found: seq<bool>, s: nat, wake: bool, next: nat)
    requires Path(states, found, s)
    ensures Way(states + [s], found) && Way(states + [s], found + [wake])
    ensures Names(s, wake, next) ==> Path(states + [s], found + [wake], next)
  {}

  lemma PathIsWay(states: seq<nat>, found: seq<bool>, next: nat)
    requires Path(states, found, next)
    ensures Way(states, found)
  {}

  /** The machine resumes only if the check has found a wake vector, and on a wake-up it goes
      through the resume state, on a normal boot past it. */
  lemma ResumeOnWake(states: seq<nat>, found: seq<bool>)
    requires Way(states, found)
    ensures OS_RESUME in states ==> exists i :: 0 <= i < |found| && states[i] == OS_RESUME_CHECK && found[i]
    ensures forall i | 0 <= i < |states| - 1 && states[i] == OS_RESUME_CHECK ::
              states[i + 1] == if found[i] then OS_RESUME else WRITE_TABLES
  {
    if OS_RESUME in states {
      var j :| 0 <= j < |states| && states[j] == OS_RESUME;
      assert Names(states[j - 1], found[j - 1], states[j]);
    }
    forall i | 0 <= i < |states| - 1 && states[i] == OS_RESUME_CHECK
      ensures states[i + 1] == if found[i] then OS_RESUME else WRITE_TABLES
    {
      assert Names(states[i + 1 - 1], found[i + 1 - 1], states[i + 1]);
    }
  }

  ghost predicate NoRepeats(s: seq<nat>) { forall i, j | 0 <= i < j < |s| :: s[i] != s[j] }

  ghost predicate Increasing(s: seq<nat>) { forall i, j | 0 <= i < j < |s| :: s[i] < s[j] }

  lemma NoRepeatsMore(s: seq<nat>, x: nat)
    requires NoRepeats(s) && x !in s
    ensures NoRepeats(s + [x]) && NoRepeats([x] + s)
  {}

  lemma NoRepeatsLess(s: seq<nat>)
    requires NoRepeats(s) && s != []
    ensures NoRepeats(s[1..]) && s[0] !in s[1..]
  {}

  lemma IncreasingMore(s: seq<nat>, x: nat)
    requires Increasing(s) && forall y | y in s :: y < x
    ensures Increasing(s + [x])
  {
    assert forall i | 0 <= i < |s| :: s[i] in s;
  }

  datatype End = Completed | ScriptOver

  class Machine {
    /** The callbacks queued for each phase, last scheduled first. */
    var queues: seq<seq<nat>>
    var blockers: seq<nat>
    var complete: seq<bool>
    var current: nat
    var script: seq<Foreign>
    /** How many callbacks have been accepted; the next one gets this number. */
    var accepted: nat

    /** For each callback accepted: its phase, and whether the machine was past that phase. */
    ghost var phaseOf: seq<nat>
    ghost var late: seq<bool>
    /** Callbacks in the order run, phases in the order left, states in the order run. */
    ghost var ran: seq<nat>
    ghost var left: seq<nat>
    ghost var states: seq<nat>
    /** For each state function that has come back, whether it found a wake vector. */
    ghost var found: seq<bool>
    /** The board each time a phase was left. */
    ghost var leftAt: seq<Board>

    ghost predicate Shape()
      reads `queues, `blockers, `complete, `current, `phaseOf, `late, `accepted
    {
      |queues| == PHASES && |blockers| == PHASES && |complete| == STATES && current < PHASES
        && |phaseOf| == |late| == accepted
    }

    ghost function Now(): Board
      reads `queues, `blockers, `phaseOf, `late
    {
      Board(queues, blockers, phaseOf, late)
    }

    /** Each phase was left with no callback queued for it and no blocker. */
    ghost predicate LeftClear()
      reads `left, `leftAt
    {
      |leftAt| == |left|
      && forall k | 0 <= k < |left| :: leftAt[k].Valid() && left[k] < PHASES && leftAt[k].Clear(left[k])
    }

    /** Each queue holds callbacks of its own phase that have not been run, each once. */
    ghost predicate Queued()
      reads `queues, `phaseOf, `ran
    {
      forall p | 0 <= p < |queues| ::
        NoRepeats(queues[p]) && forall t | t in queues[p] :: t < |phaseOf| && phaseOf[t] == p && t !in ran
    }

    /** No callback is lost: it is queued or has been run. */
    ghost predicate Kept()
      reads `queues, `phaseOf, `ran
    {
      forall t: nat | t < |phaseOf| :: phaseOf[t] < |queues| && (t in queues[phaseOf[t]] || t in ran)
    }

    /** No callback is run twice, and none that came late. */
    ghost predicate RanOnce()
      reads `ran, `late
    {
      NoRepeats(ran) && forall t | t in ran :: t < |late| && !late[t]
    }

    /** What was accepted in time for a phase has been run when the phase is left. */
    ghost predicate Served()
      reads `phaseOf, `left, `late, `ran
    {
      forall t: nat | t < |phaseOf| && t < |late| && phaseOf[t] in left && !late[t] :: t in ran
    }

    /** Phases and states come in strictly increasing order; a state is run between its two
        phases, and complete after both. */
    ghost predicate InOrder()
      reads `left, `states, `complete
    {
      && Increasing(left) && Increasing(states)
      && (forall s | 0 <= s < |complete| && complete[s] :: 2 * s in left && 2 * s + 1 in left)
      && (forall s | s in states :: 2 * s in left)
    }

    ghost predicate Valid()
      reads this
    {
      Shape() && Queued() && Kept() && RanOnce() && Served() && InOrder() && LeftClear()
    }

    /** The machine is past all that it has left, and late callbacks are for phases it is past. */
    ghost predicate Live()
      reads `left, `current, `late, `phaseOf
    {
      && (forall p | p in left :: p < current)
      && (forall t: nat | t < |late| && late[t] && t < |phaseOf| :: phaseOf[t] < current)
    }

    constructor (script: seq<Foreign>)
      ensures Valid() && Live() && current == 0 && this.script == script && phaseOf == [] && left == [] && states == []
      ensures found == []
      ensures (forall s | 0 <= s < STATES :: !complete[s]) && (forall p | 0 <= p < PHASES :: Now().Clear(p))
    {
      queues, blockers, complete := seq(PHASES, i => []), seq(PHASES, i => 0), seq(STATES, i => false);
      current, this.script, accepted := 0, script, 0;
      phaseOf, late, ran, left, states, found, leftAt := [], [], [], [], [], [], [];
    }

    // ----- what foreign code can do

    /** `boot_state_sched_callback`: refused exactly for a completed state. */
    method SchedCallback(p: Phase) returns (ok: bool)
      requires Valid() && Live()
      modifies `queues, `accepted, `phaseOf, `late
      ensures Valid() && Live()
      ensures ok <==> !complete[p / 2]
      ensures ok ==> phaseOf == old(phaseOf) + [p] && late == old(late) + [p < current]
                     && queues == old(queues)[p := [|old(phaseOf)|] + old(queues)[p]]
      ensures !ok ==> unchanged(this)
    {
      hide NoRepeats, Increasing;
      if complete[p / 2] {
        return false;
      }
      NoRepeatsMore(queues[p], accepted);
      queues := queues[p := [accepted] + queues[p]];
      phaseOf, late, accepted := phaseOf + [p], late + [p < current], accepted + 1;
      ok := true;
    }

    /** `boot_state_block`: refused exactly for a phase the machine is past. */
    method BlockPhase(p: Phase) returns (ok: bool)
      requires Shape()
      modifies `blockers
      ensures ok <==> current <= p
      ensures blockers == if ok then old(blockers)[p := old(blockers)[p] + 1] else old(blockers)
    {
      if current > p {
        return false;
      }
      blockers := blockers[p := blockers[p] + 1];
      ok := true;
    }

    /** `boot_state_unblock`: refused for a phase the machine is past, or not blocked. */
    method UnblockPhase(p: Phase) returns (ok: bool)
      requires Shape()
      modifies `blockers
      ensures ok <==> current <= p && old(blockers)[p] > 0
      ensures blockers == if ok then old(blockers)[p := old(blockers)[p] - 1] else old(blockers)
    {
      if current > p || blockers[p] == 0 {
        return false;
      }
      blockers := blockers[p := blockers[p] - 1];
      ok := true;
    }

    method Do(op: Op)
      requires Valid() && Live()
      modifies `queues, `blockers, `accepted, `phaseOf, `late
      ensures Valid() && Live()
      ensures old(Now()).Valid() && Now() == Effect(old(Now()), complete, current, op)
    {
      hide Queued, Kept, RanOnce, Served, InOrder, LeftClear;
      var ok;
      match op
      case Sched(p) => ok := SchedCallback(p);
      case Block(p) => ok := BlockPhase(p);
      case Unblock(p) => ok := UnblockPhase(p);
      case BlockCurrent => ok := BlockPhase(current);
      case UnblockCurrent => ok := UnblockPhase(current);
    }

    /** Foreign code runs, if the script goes on. */
    method RunForeign() returns (ok: bool, wake: bool)
      requires Valid() && Live()
      modifies `queues, `blockers, `accepted, `phaseOf, `late, `script
      ensures Valid() && Live()
      ensures ok <==> old(script) != []
      ensures ok ==> script == old(script)[1..] && wake == old(script)[0].wake
      ensures ok ==> old(Now()).Valid() && Now() == Effects(old(Now()), complete, current, old(script)[0].ops)
      ensures !ok ==> script == [] && Now() == old(Now())
    {
      hide Queued, Kept, RanOnce, Served, InOrder, LeftClear, Effect;
      if script == [] {
        return false, false;
      }
      var f := script[0];
      script := script[1..];
      for i := 0 to |f.ops|
        invariant Valid() && Live() && script == old(script)[1..]
        invariant old(Now()).Valid() && Now() == Effects(old(Now()), complete, current, f.ops[..i])
      {
        assert f.ops[..i + 1][..i] == f.ops[..i];
        Do(f.ops[i]);
      }
      assert f.ops[..|f.ops|] == f.ops;
      ok, wake := true, f.wake;
    }

    // ----- the walk

    /** The first callback of the current phase is taken off its queue. */
    method TakeFirst()
      requires Valid() && Live() && queues[current] != [] && current !in left
      modifies `queues, `ran
      ensures Valid() && Live()
      ensures queues == old(queues)[current := old(queues)[current][1..]] && ran == old(ran) + [old(queues)[current][0]]
    {
      hide Increasing, InOrder, NoRepeats;
      ghost var t, q := queues[current][0], queues[current];
      assert t in q && !late[t];
      NoRepeatsMore(ran, t);
      NoRepeatsLess(q);
      assert forall x | x in q :: x == t || x in q[1..];
      assert forall x | x in q[1..] :: x in q && x != t;
      ran := ran + [t];
      queues := queues[current := queues[current][1..]];
      assert Queued() && Kept();
    }

    /** `bs_call_callbacks`: when it comes back, the current phase has no callback left and
        no blocker. */
    method CallCallbacks() returns (ok: bool)
      requires Valid() && Live()
      modifies `queues, `blockers, `accepted, `phaseOf, `late, `ran, `script
      ensures Valid() && Live()
      ensures ok ==> Now().Clear(current)
      ensures !ok ==> script == []
      ensures |script| <= |old(script)| && old(phaseOf) <= phaseOf && old(late) <= late
      ensures old(Now()).Valid()
              && (old(Now()).Clear(current) ==> ok && Now() == old(Now()) && script == old(script) && ran == old(ran))
    {
      hide Queued, Kept, RanOnce, Served, InOrder, LeftClear;
      while true
        invariant Valid() && Live() && |script| <= |old(script)| && old(phaseOf) <= phaseOf && old(late) <= late
        invariant old(Now()).Clear(current) ==> Now() == old(Now()) && script == old(script) && ran == old(ran)
        decreases |script|
      {
        var wake;
        if queues[current] != [] {
          TakeFirst();
          ok, wake := RunForeign();
          if !ok {
            return;
          }
        } else if blockers[current] == 0 {
          return true;
        } else {
          ok, wake := RunForeign();
          if !ok {
            return;
          }
        }
      }
    }

    /** The current phase is left, and the machine moves on to `next`. */
    method Leave(next: nat)
      requires Valid() && Live() && Now().Clear(current)
      requires next < PHASES
      modifies `left, `leftAt, `current
      ensures Valid() && current == next && left == old(left) + [old(current)] && leftAt == old(leftAt) + [Now()]
      ensures old(current) < next ==> Live()
    {
      hide Queued, RanOnce, Increasing;
      IncreasingMore(left, current);
      leftAt := leftAt + [Now()];
      left := left + [current];
      current := next;
    }

    /** State `s` is run, after its entry phase. */
    method StartState(s: nat)
      requires Valid() && Live() && current == 2 * s + 1 && 2 * s in left && s !in states
      modifies `states
      ensures Valid() && states == old(states) + [s]
    {
      hide Queued, Kept, RanOnce, Served, Increasing;
      assert forall y | y in states :: y < s;
      IncreasingMore(states, s);
      states := states + [s];
    }

    /** State `s` is complete, after its exit phase. */
    method Finish(s: nat)
      requires Valid() && s < STATES && 2 * s in left && 2 * s + 1 in left
      modifies `complete
      ensures Valid() && complete == old(complete)[s := true]
    {
      hide Queued, Kept, RanOnce, Served, Increasing;
      complete := complete[s := true];
    }

    /** The exit phase of `s` is left, for the entry phase of `next`. */
    method Complete(s: nat, next: nat)
      requires Valid() && Live() && Now().Clear(current) && current == 2 * s + 1 && 2 * s in left && next < STATES
      requires s < next || (s == PAYLOAD_BOOT && next == PAYLOAD_BOOT)
      modifies `left, `leftAt, `current, `complete
      ensures Valid() && current == 2 * next && old(left) <= left && complete == old(complete)[s := true]
      ensures Live() || (current == 2 * PAYLOAD_BOOT && complete[PAYLOAD_BOOT])
    {
      hide Queued, Kept, RanOnce, Served, Increasing, LeftClear;
      Leave(2 * next);
      Finish(s);
    }

    /** A state that the machine has come to, moving forward, is neither run nor complete. */
    lemma NotYet()
      requires Valid() && Live() && current % 2 == 0
      ensures !complete[current / 2] && current / 2 !in states
    {
      hide Queued, Kept, RanOnce, Served, Increasing;
    }

    /** Timers, and the entry phase of a state. */
    method EntryPhase() returns (ok: bool)
      requires Valid() && Live() && current % 2 == 0
      modifies `queues, `blockers, `accepted, `phaseOf, `late, `ran, `script, `left, `leftAt, `current
      ensures Valid() && |script| <= |old(script)| && old(phaseOf) <= phaseOf && old(late) <= late && old(left) <= left
      ensures ok ==> Live() && current == old(current) + 1 && old(current) in left && |script| < |old(script)|
      ensures !ok ==> script == []
      ensures old(Now()).Valid() && (old(script) != [] ==>
                var b := Effects(old(Now()), old(complete), old(current), old(script)[0].ops);
                b.Clear(old(current)) ==> ok && Now() == b && script == old(script)[1..] && ran == old(ran))
    {
      hide Queued, Kept, RanOnce, Served, InOrder, LeftClear;
      var wake;
      ok, wake := RunForeign();
      if ok {
        ok := CallCallbacks();
      }
      if ok {
        Leave(current + 1);
      }
    }

    /** `run_state` of state `s`: foreign code, and what it names as the next state. */
    method RunFunction(s: nat) returns (ok: bool, next: nat)
      requires Valid() && Live() && current == 2 * s + 1
      modifies `queues, `blockers, `accepted, `phaseOf, `late, `script, `found
      ensures Valid() && Live() && old(phaseOf) <= phaseOf && old(late) <= late && old(Now()).Valid()
      ensures ok <==> old(script) != []
      ensures ok ==> script == old(script)[1..] && found == old(found) + [old(script)[0].wake]
                     && next < STATES && Names(s, old(script)[0].wake, next)
                     && Now() == Effects(old(Now()), complete, current, old(script)[0].ops)
      ensures !ok ==> script == [] && found == old(found) && Now() == old(Now())
    {
      hide Queued, Kept, RanOnce, Served, InOrder, LeftClear, Names, NextState, Effects;
      var wake;
      ok, wake := RunForeign();
      next := 0;
      if ok {
        found := found + [wake];
        NextNamed(s, wake);
        next := NextState(s, wake);
      }
    }

    /** The state function, and the exit phase. */
    method ExitPhase(s: nat) returns (ok: bool)
      requires Valid() && Live() && current == 2 * s + 1 && 2 * s in left
      modifies `queues, `blockers, `accepted, `phaseOf, `late, `ran, `script, `left, `leftAt, `current, `complete,
               `found
      ensures Valid() && |script| <= |old(script)| && old(phaseOf) <= phaseOf && old(late) <= late && old(left) <= left
      ensures old(script) == [] ==> !ok && found == old(found)
      ensures old(script) != [] ==> found == old(found) + [old(script)[0].wake]
      ensures ok ==>
                current % 2 == 0 && Names(s, old(script)[0].wake, current / 2) && complete == old(complete)[s := true]
      ensures ok ==> Live() || (current == 2 * PAYLOAD_BOOT && complete[PAYLOAD_BOOT])
      ensures !ok ==> script == []
      ensures old(Now()).Valid() && (old(script) != [] ==>
                var b := Effects(old(Now()), old(complete), 2 * s + 1, old(script)[0].ops);
                b.Clear(2 * s + 1) ==> ok && Now() == b && script == old(script)[1..] && ran == old(ran))
    {
      hide Queued, Kept, RanOnce, Served, InOrder, LeftClear, Names, Effects;
      var next;
      ok, next := RunFunction(s);
      if !ok {
        return;
      }
      GoesOn(s, found[|found| - 1], next);
      ok := CallCallbacks();
      if !ok {
        return;
      }
      Complete(s, next);
    }

    /** The walk goes forward, or stays in the last state. */
    lemma GoesOn(s: nat, wake: bool, next: nat)
      requires s < STATES && Names(s, wake, next)
      ensures s < next || (s == PAYLOAD_BOOT && next == PAYLOAD_BOOT)
    {}

    lemma NextNamed(s: nat, wake: bool)
      requires s < STATES
      ensures NextState(s, wake) < STATES && Names(s, wake, NextState(s, wake))
    {}

    /** One state: timers, entry phase, the state function, exit phase. */
    method RunState() returns (ok: bool)
      requires Valid() && Live() && current % 2 == 0
      modifies this
      ensures Valid() && (ok ==> current % 2 == 0 && |script| < |old(script)|)
      ensures old(phaseOf) <= phaseOf && old(late) <= late && old(left) <= left && (ok ==> old(current) in left)
      ensures ok ==> Live() || (current == 2 * PAYLOAD_BOOT && complete[PAYLOAD_BOOT])
      ensures || (states == old(states) && found == old(found))
              || (states == old(states) + [old(current) / 2] && old(found) <= found && |found| <= |old(found)| + 1)
      ensures ok ==> |states| == |old(states)| + 1 && |found| == |old(found)| + 1
                     && Names(old(current) / 2, found[|old(found)|], current / 2)
      ensures !ok ==> script == []
      ensures old(Now()).Valid() && (|old(script)| >= 2 ==>
                var b := Effects(old(Now()), old(complete), old(current), old(script)[0].ops);
                var c := Effects(b, old(complete), old(current) + 1, old(script)[1].ops);
                b.Clear(old(current)) && c.Clear(old(current) + 1) ==>
                  ok && Now() == c && ran == old(ran) && script == old(script)[2..]
                    && complete == old(complete)[old(current) / 2 := true])
    {
      hide Queued, Kept, RanOnce, Served, InOrder, Names;
      var s := current / 2;
      NotYet();
      ok := EntryPhase();
      if ok {
        StartState(s);
        ok := ExitPhase(s);
      }
    }

    /** What the history says of the callbacks for the phases that have been left. */
    lemma AllServed()
      requires Valid()
      ensures NoRepeats(ran) && Increasing(left) && Increasing(states) && LeftClear()
      ensures |phaseOf| == |late| && forall t: nat | t < |phaseOf| && phaseOf[t] in left :: t in ran <==> !late[t]
      ensures forall t: nat | t < |late| && late[t] :: t !in ran
    {
      hide Queued, Kept, NoRepeats, Increasing, LeftClear;
    }

    /** `bs_walk_state_machine`: it ends only when the last state is entered again.  At any
        time, each state run was named by the one before it; states and phases have come in
        strictly increasing order; each phase was left with no callback queued for it and no
        blocker; no callback has been run twice, and none that came late; and of those accepted
        for a phase that has been left, exactly those have been run that did not come late. */
    method Walk() returns (end: End)
      requires Valid() && Live() && current % 2 == 0 && Path(states, found, current / 2)
      modifies this
      ensures Way(states, found) && (end.Completed? ==> Path(states, found, PAYLOAD_BOOT))
      ensures OS_RESUME in states ==> exists i :: 0 <= i < |found| && states[i] == OS_RESUME_CHECK && found[i]
      ensures Valid() && NoRepeats(ran) && Increasing(left) && Increasing(states) && LeftClear()
      ensures |phaseOf| == |late| && forall t: nat | t < |phaseOf| && phaseOf[t] in left :: t in ran <==> !late[t]
      ensures forall t: nat | t < |late| && late[t] :: t !in ran
      ensures old(phaseOf) <= phaseOf && old(late) <= late && old(left) <= left
      ensures end.Completed? ==> current == 2 * PAYLOAD_BOOT && complete[PAYLOAD_BOOT]
      ensures end.ScriptOver? ==> script == []
    {
      hide Queued, Kept, RanOnce, Served, InOrder, LeftClear, NoRepeats, Increasing, Path, Effects, Way, Names;
      while true
        invariant old(phaseOf) <= phaseOf && old(late) <= late && old(left) <= left
        invariant Valid() && current % 2 == 0 && (Live() || (current == 2 * PAYLOAD_BOOT && complete[PAYLOAD_BOOT]))
        invariant Path(states, found, current / 2)
        decreases |script|
      {
        PathIsWay(states, found, current / 2);
        if complete[current / 2] {
          ResumeOnWake(states, found);
          if Live() { NotYet(); }
          AllServed();
          return Completed;
        }
        ghost var was, before, s := states, found, current / 2;
        var ok := RunState();
        PathMore(was, before, s, if |found| > |before| then found[|before|] else false, current / 2);
        assert found == before || found == before + [found[|before|]];
        if !ok {
          ResumeOnWake(states, found);
          AllServed();
          return ScriptOver;
        }
      }
    }
  }

  /** How a callback is lost, however the run goes on: the first state function schedules it
      for the entry phase of its own state.  It is accepted, because the state is not yet
      complete, but that phase has been left, and it is never run. */
  method LateCallback(rest: seq<Foreign>) returns (m: Machine, end: End)
    ensures fresh(m) && m.Valid() && |m.phaseOf| == |m.late| > 0
    ensures m.phaseOf[0] == 0 && m.late[0] && 0 in m.left && 0 !in m.ran
  {
    hide Machine.Queued, Machine.Kept, Machine.RanOnce, Machine.Served, Machine.InOrder, Machine.LeftClear, NoRepeats,
         Increasing, Path, Way;
    m := new Machine([Foreign([], false), Foreign([Sched(0)], false)] + rest);
    ghost var start, none := m.Now(), m.complete;
    assert m.script[0].ops == [] && m.script[1].ops == [Sched(0)];
    assert Effects(start, none, 0, []) == start;
    assert [Op.Sched(0)][..0] == [];
    assert Effects(start, none, 1, [Sched(0)]) == Effect(start, none, 1, Sched(0));
    assert start.Clear(0) && start.Clear(1) && !none[0];
    assert Effects(start, none, 1, m.script[1].ops).Clear(1);
    var ok := m.RunState();
    assert ok;
    PathStart();
    PathMore([], [], 0, m.found[0], m.current / 2);
    assert [] + [m.found[0]] == m.found;
    end := m.Walk();
  }
}
