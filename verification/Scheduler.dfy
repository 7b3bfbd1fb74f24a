/** The priority scheduler (arch/riscv/kernel/proc.c): `schedule` and `do_timer`, and what they give
    each task over runs of timer ticks. */
module Scheduler {
  /** What does not change from tick to tick: tasks 1 to `n`, their priorities, and whether their
      state is TASK_RUNNING.  Slot 0 is the idle task, which is never chosen. */
  datatype Config = Config(n: nat, priority: seq<nat>, running: seq<bool>)

  datatype State = State(counter: seq<nat>, current: nat)

  /** Some task can run, and priorities are at least PRIORITY_MIN. */
  ghost predicate Sound(g: Config) {
    && g.n < |g.priority| == |g.running|
    && (forall i :: 1 <= i <= g.n ==> g.priority[i] >= 1)
    && exists i :: 1 <= i <= g.n && g.running[i]
  }

  ghost predicate Fits(g: Config, s: State) {
    g.n < |g.priority| == |g.running| == |s.counter| && s.current <= g.n
  }

  /** A task that the scheduler may pick without a refill. */
  predicate Ready(g: Config, counter: seq<nat>, i: nat)
    requires g.n < |g.running| == |counter|
  {
    1 <= i <= g.n && g.running[i] && counter[i] > 0
  }

  /** The pick: the greatest counter, and of several such tasks the first. */
  ghost predicate Chosen(g: Config, counter: seq<nat>, k: nat)
    requires g.n < |g.running| == |counter|
  {
    && Ready(g, counter, k)
    && (forall i: nat :: Ready(g, counter, i) ==> counter[i] <= counter[k])
    && (forall i: nat :: Ready(g, counter, i) && i < k ==> counter[i] < counter[k])
  }

  ghost predicate NoneReady(g: Config, counter: seq<nat>)
    requires g.n < |g.running| == |counter|
  {
    forall i: nat :: !Ready(g, counter, i)
  }

  /** Every task's counter is halved and its priority added, running or not. */
  function Refilled(g: Config, counter: seq<nat>): (r: seq<nat>)
    requires g.n < |g.priority| == |counter|
    ensures |r| == |counter|
  {
    seq(|counter|, i requires 0 <= i < |counter| =>
      if 1 <= i <= g.n then counter[i] / 2 + g.priority[i] else counter[i])
  }

  /** What `schedule` does. */
  ghost predicate Schedules(g: Config, s: State, t: State)
    requires Fits(g, s)
  {
    && t.counter == (if NoneReady(g, s.counter) then Refilled(g, s.counter) else s.counter)
    && Chosen(g, t.counter, t.current)
  }

  /** What `do_timer` does. */
  ghost predicate Ticks(g: Config, s: State, t: State)
    requires Fits(g, s)
  {
    var c := s.counter[s.current];
    if c == 0 then Schedules(g, s, t)
    else
      var spent := s.(counter := s.counter[s.current := c - 1]);
      if c == 1 then Schedules(g, spent, t) else t == spent
  }

  /** What `do_fork` does to the scheduler's data. */
  ghost predicate Joins(g: Config, s: State, g': Config, s': State) {
    && Fits(g, s) && Grows(g, g')
    && s' == State(s.counter[g'.n := 0], s.current)
  }

  /** One more task, ready to run; nothing changes for the others. */
  ghost predicate Grows(g: Config, g': Config) {
    && g'.n == g.n + 1 < |g'.priority| == |g.priority| && |g'.running| == |g.running| == |g.priority|
    && g'.priority[..g'.n] == g.priority[..g'.n] && g'.running[..g'.n] == g.running[..g'.n]
    && g'.priority[g'.n] >= 1 && g'.running[g'.n]
  }

  ghost predicate IsRun(g: Config, states: seq<State>) {
    |states| > 0 && forall k :: 0 <= k < |states| - 1 ==> Fits(g, states[k]) && Ticks(g, states[k], states[k + 1])
  }

  // ---------------------------------------------------------------- the code

  class Tasks {
    var n: nat
    const priority: array<nat>
    const running: array<bool>
    const counter: array<nat>
    var current: nat

    ghost function Cfg(): Config
      reads this, priority, running
    {
      Config(n, priority[..], running[..])
    }

    ghost function Now(): State
      reads this, counter
    {
      State(counter[..], current)
    }

    ghost predicate Valid()
      reads this, priority, running, counter
    {
      counter != priority && Sound(Cfg()) && Fits(Cfg(), Now())
    }

    constructor (n: nat, priority: array<nat>, running: array<bool>, counter: array<nat>)
      requires counter != priority && Sound(Config(n, priority[..], running[..])) && counter.Length == priority.Length
      ensures this.n == n && this.priority == priority && this.running == running && this.counter == counter
              && current == 0
      ensures Valid()
    {
      this.n, this.priority, this.running, this.counter := n, priority, running, counter;
      current := 0;
    }

    /** `schedule`, with `switch_to` reduced to the change of `current`. */
    method Schedule()
      requires Valid()
      modifies this`current, counter
      ensures Valid() && Schedules(Cfg(), old(Now()), Now())
    {
      var c: nat, next: nat := 0, 0;
      ghost var was := counter[..];
      while true
        invariant Valid() && c == 0 && current == old(current)
        invariant counter[..] == was || (NoneReady(Cfg(), was) && counter[..] == Refilled(Cfg(), was))
        decreases counter[..] == was
      {
        c, next := FindMax();
        if c != 0 {
          break;
        }
        NotTwice(Cfg(), was);
        Refill();
      }
      current := next;
    }

    /** The first inner loop: the first task with the greatest counter. */
    method FindMax() returns (c: nat, next: nat)
      requires Valid()
      ensures c == 0 ==> NoneReady(Cfg(), counter[..])
      ensures c != 0 ==> Chosen(Cfg(), counter[..], next) && c == counter[next]
    {
      c, next := 0, 0;
      var i := 1;
      while i <= n
        invariant 1 <= i <= n + 1
        invariant c == 0 ==> forall j :: 1 <= j < i ==> !(running[j] && counter[j] > 0)
        invariant c != 0 ==> 1 <= next < i && running[next] && counter[next] == c
        invariant c != 0 ==> forall j :: 1 <= j < i && running[j] ==> counter[j] <= c && (j < next ==> counter[j] < c)
      {
        if running[i] && counter[i] > c {
          c := counter[i];
          next := i;
        }
        i := i + 1;
      }
    }

    /** The second inner loop. */
    method Refill()
      requires Valid()
      modifies counter
      ensures Valid() && counter[..] == Refilled(Cfg(), old(counter[..]))
    {
      var i := 1;
      while i <= n
        invariant 1 <= i <= n + 1
        invariant forall j :: 0 <= j < counter.Length ==>
          counter[j] == if 1 <= j < i then old(counter[j]) / 2 + priority[j] else old(counter[j])
      {
        counter[i] := counter[i] / 2 + priority[i];
        i := i + 1;
      }
    }

    /** `do_timer` */
    method DoTimer()
      requires Valid()
      modifies this`current, counter
      ensures Valid() && Ticks(Cfg(), old(Now()), Now())
    {
      if counter[current] == 0 {
        Schedule();
      } else {
        counter[current] := counter[current] - 1;
        assert Now() == old(Now()).(counter := old(Now()).counter[current := counter[current]]);
        if counter[current] == 0 {
          Schedule();
        }
      }
    }

    /** The part of `do_fork` that concerns the scheduler: the child takes the next place in the task
        list, with a priority of its own and no ticks. */
    method AddTask(childPriority: nat)
      requires Valid() && n + 1 < counter.Length && childPriority >= 1
      modifies this`n, priority, running, counter
      ensures Valid() && Joins(old(Cfg()), old(Now()), Cfg(), Now()) && priority[n] == childPriority
    {
      ghost var g := Cfg();
      running[n + 1] := true;
      priority[n + 1] := childPriority;
      counter[n + 1] := 0;
      n := n + 1;
      JoinKeepsSound(g, Cfg());
    }
  }

  /** After one refill somebody is ready, so the loop of `schedule` refills at most once. */
  lemma NotTwice(g: Config, counter: seq<nat>)
    requires Sound(g) && |counter| == |g.priority|
    ensures !NoneReady(g, Refilled(g, counter))
  {
    var i :| 1 <= i <= g.n && g.running[i];
    assert Ready(g, Refilled(g, counter), i);
  }

  // ---------------------------------------------------------------- ticks left in an epoch

  /** The ticks that runnable tasks up to `k` still have. */
  function Work(g: Config, counter: seq<nat>, k: nat): nat
    requires k <= g.n < |g.running| == |counter|
  {
    if k == 0 then 0 else Work(g, counter, k - 1) + if g.running[k] then counter[k] else 0
  }

  lemma {:induction false} WorkUpdate(g: Config, counter: seq<nat>, i: nat, v: nat, k: nat)
    requires k <= g.n < |g.running| == |counter| && 1 <= i <= g.n && g.running[i]
    ensures i > k ==> Work(g, counter[i := v], k) == Work(g, counter, k)
    ensures i <= k ==>
              Work(g, counter[i := v], k) == Work(g, counter, k) - counter[i] + v && Work(g, counter, k) >= counter[i]
  {
    if k > 0 { WorkUpdate(g, counter, i, v, k - 1); }
  }

  lemma {:induction false} NoWorkNoneReady(g: Config, counter: seq<nat>, k: nat)
    requires k <= g.n < |g.running| == |counter|
    ensures Work(g, counter, k) == 0 <==> forall i: nat :: i <= k ==> !Ready(g, counter, i)
  {
    if k > 0 {
      NoWorkNoneReady(g, counter, k - 1);
      assert Ready(g, counter, k) <==> g.running[k] && counter[k] > 0;
    }
  }

  lemma {:induction false} SameWork(g: Config, a: seq<nat>, b: seq<nat>, k: nat)
    requires k <= g.n < |g.running| == |a| == |b| && forall i :: 1 <= i <= k && g.running[i] ==> a[i] == b[i]
    ensures Work(g, a, k) == Work(g, b, k)
  {
    if k > 0 { SameWork(g, a, b, k - 1); }
  }

  // ---------------------------------------------------------------- runs of ticks

  /** A chosen task is running, or nothing has been chosen yet. */
  ghost predicate Live(g: Config, s: State) {
    Fits(g, s) && (s.counter[s.current] == 0 || Ready(g, s.counter, s.current))
  }

  ghost predicate Dispatched(g: Config, s: State) {
    Fits(g, s) && Ready(g, s.counter, s.current)
  }

  /** From the first tick on, `current` is a runnable task with ticks left. */
  lemma TickDispatches(g: Config, s: State, t: State)
    requires Sound(g) && Live(g, s) && Ticks(g, s, t)
    ensures Dispatched(g, t)
  {}

  lemma {:induction false} RunsStayDispatched(g: Config, states: seq<State>, k: nat)
    requires Sound(g) && IsRun(g, states) && Live(g, states[0]) && 1 <= k < |states|
    ensures Dispatched(g, states[k])
  {
    if k > 1 { RunsStayDispatched(g, states, k - 1); }
    TickDispatches(g, states[k - 1], states[k]);
  }

  /** A task that is dispatched with counter `c` has the processor for exactly `c` ticks, and nothing
      but its own counter changes while it has. */
  lemma {:induction false} KeepsProcessor(g: Config, states: seq<State>, k: nat)
    requires IsRun(g, states) && Dispatched(g, states[0]) && k < |states|
    requires k < states[0].counter[states[0].current]
    ensures var i := states[0].current;
            states[k] == State(states[0].counter[i := states[0].counter[i] - k], i)
  {
    if k > 0 {
      KeepsProcessor(g, states, k - 1);
      assert Ticks(g, states[k - 1], states[k]);
    }
  }

  /** ... and then the scheduler runs, with that counter at zero. */
  lemma GivesUpProcessor(g: Config, states: seq<State>)
    requires IsRun(g, states) && Dispatched(g, states[0])
    requires states[0].counter[states[0].current] < |states|
    ensures var i := states[0].current;
            Schedules(g, State(states[0].counter[i := 0], i), states[states[0].counter[i]])
  {
    var c := states[0].counter[states[0].current];
    KeepsProcessor(g, states, c - 1);
    assert Ticks(g, states[c - 1], states[c]);
    assert states[c - 1].counter[states[0].current := 0] == states[0].counter[states[0].current := 0];
  }

  /** Counters once every runnable task has used its ticks. */
  function Drained(g: Config, counter: seq<nat>): seq<nat>
    requires g.n < |g.running| == |counter|
  {
    seq(|counter|, i requires 0 <= i < |counter| => if 1 <= i <= g.n && g.running[i] then 0 else counter[i])
  }

  /** Task `j` has the processor in the ticks from `t` to before `t + c`, and at no other time before
      tick `w`. */
  ghost predicate HasExactly(states: seq<State>, j: nat, t: nat, c: nat, w: nat) {
    t + c <= w < |states| && forall k :: 0 <= k < w ==> (states[k].current == j <==> t <= k < t + c)
  }

  /** The ticks of the runnable tasks up to `k` that come before task `j`: those with a greater counter,
      and of equal counters those in front of it. */
  function Ahead(g: Config, counter: seq<nat>, j: nat, k: nat): nat
    requires k <= g.n < |g.running| == |counter| && j <= g.n
  {
    if k == 0 then 0
    else
      Ahead(g, counter, j, k - 1)
      + if g.running[k] && (counter[k] > counter[j] || (counter[k] == counter[j] && k < j)) then counter[k] else 0
  }

  /** The ticks before task `j` has its turn: first the current task runs to its end. */
  function Turn(g: Config, s: State, j: nat): nat
    requires Fits(g, s) && j <= g.n
  {
    if j == s.current then 0 else s.counter[s.current] + Ahead(g, s.counter[s.current := 0], j, g.n)
  }

  lemma {:induction false} SameAhead(g: Config, a: seq<nat>, b: seq<nat>, j: nat, k: nat)
    requires k <= g.n < |g.running| == |a| == |b| && forall i :: 1 <= i <= g.n && g.running[i] ==> a[i] == b[i]
    requires 1 <= j <= g.n && g.running[j]
    ensures Ahead(g, a, j, k) == Ahead(g, b, j, k)
  {
    if k > 0 { SameAhead(g, a, b, j, k - 1); }
  }

  /** Nobody comes before the scheduler's choice. */
  lemma {:induction false} NobodyAhead(g: Config, counter: seq<nat>, i: nat, k: nat)
    requires k <= g.n < |g.running| == |counter| && Chosen(g, counter, i)
    ensures Ahead(g, counter, i, k) == 0
  {
    if k > 0 {
      NobodyAhead(g, counter, i, k - 1);
      assert Ready(g, counter, k) ==> counter[k] <= counter[i] && (k < i ==> counter[k] < counter[i]);
    }
  }

  /** The scheduler's choice comes before everybody else. */
  lemma {:induction false} ChosenIsAhead(g: Config, counter: seq<nat>, i: nat, j: nat, k: nat)
    requires k <= g.n < |g.running| == |counter| && Chosen(g, counter, i)
    requires 1 <= j <= g.n && g.running[j] && j != i
    ensures Ahead(g, counter, j, k) == Ahead(g, counter[i := 0], j, k) + if i <= k then counter[i] else 0
  {
    if k > 0 {
      ChosenIsAhead(g, counter, i, j, k - 1);
      assert Ready(g, counter, j) ==> counter[j] <= counter[i] && (j < i ==> counter[j] < counter[i]);
    }
  }

  /** After a choice, turns come in the order of the counters. */
  lemma TurnAfterChoice(g: Config, s: State, j: nat)
    requires Fits(g, s) && Chosen(g, s.counter, s.current) && 1 <= j <= g.n && g.running[j]
    ensures Turn(g, s, j) == Ahead(g, s.counter, j, g.n)
  {
    hide Chosen;
    if j == s.current { NobodyAhead(g, s.counter, j, g.n); } else { ChosenIsAhead(g, s.counter, s.current, j, g.n); }
  }

  /** Until the next refill every runnable task has the processor for as many consecutive ticks as its
      counter says, in the order of the counters, and the refill comes when all of them are through. */
  lemma {:induction false} Epoch(g: Config, states: seq<State>, j: nat)
    requires Sound(g) && IsRun(g, states) && Dispatched(g, states[0])
    requires Work(g, states[0].counter, g.n) < |states| && 1 <= j <= g.n && g.running[j]
    ensures var w := Work(g, states[0].counter, g.n);
            && HasExactly(states, j, Turn(g, states[0], j), states[0].counter[j], w)
            && Dispatched(g, states[w]) && states[w].counter == Refilled(g, Drained(g, states[0].counter))
            && Chosen(g, states[w].counter, states[w].current)
    decreases Work(g, states[0].counter, g.n)
  {
    hide Ticks, Sound, Drained, Refilled, Ahead;
    var s, i := states[0], states[0].current;
    var c, z := s.counter[i], s.counter[i := 0];
    WorkUpdate(g, s.counter, i, 0, g.n);
    NoWorkNoneReady(g, z, g.n);
    GivesUpProcessor(g, states);
    forall k | 0 <= k < c
      ensures states[k].current == i
    {
      KeepsProcessor(g, states, k);
    }
    if NoneReady(g, z) {
      AllDrained(g, s.counter, i);
      NothingAhead(g, z, j, g.n);
    } else {
      SuffixIsRun(g, states, c);
      Epoch(g, states[c..], j);
      TurnAfterChoice(g, states[c], j);
      DrainAfter(g, s.counter, i);
      Joined(states, i, c, j, Turn(g, states[c], j), s.counter, Work(g, s.counter, g.n));
    }
  }

  lemma {:induction false} NothingAhead(g: Config, counter: seq<nat>, j: nat, k: nat)
    requires k <= g.n < |g.running| == |counter| && j <= g.n && NoneReady(g, counter)
    ensures Ahead(g, counter, j, k) == 0
  {
    if k > 0 {
      NothingAhead(g, counter, j, k - 1);
      assert !Ready(g, counter, k);
    }
  }

  lemma SuffixIsRun(g: Config, states: seq<State>, c: nat)
    requires IsRun(g, states) && c < |states|
    ensures IsRun(g, states[c..]) && states[c..][0] == states[c]
  {
    hide Ticks;
    var rest := states[c..];
    forall k | 0 <= k < |rest| - 1
      ensures Fits(g, rest[k]) && Ticks(g, rest[k], rest[k + 1])
    {
      assert rest[k] == states[c + k] && rest[k + 1] == states[c + k + 1];
    }
  }

  /** The current task's ticks, followed by what the rest of the epoch looks like. */
  lemma Joined(states: seq<State>, i: nat, c: nat, j: nat, u: nat, counter: seq<nat>, w: nat)
    requires i < |counter| && j < |counter| && c == counter[i] <= w < |states|
    requires forall k :: 0 <= k < c ==> states[k].current == i
    requires HasExactly(states[c..], j, u, counter[i := 0][j], w - c)
    ensures HasExactly(states, j, if j == i then 0 else c + u, counter[j], w)
  {
    forall k | 0 <= k < w
      ensures states[k].current == j
         <==> (if j == i then 0 else c + u) <= k < (if j == i then 0 else c + u) + counter[j]
    {
      if k >= c { assert states[k] == states[c..][k - c]; }
    }
  }

  lemma DrainAfter(g: Config, counter: seq<nat>, i: nat)
    requires g.n < |g.running| == |counter| && 1 <= i <= g.n && g.running[i]
    ensures Drained(g, counter[i := 0]) == Drained(g, counter)
  {}

  lemma AllDrained(g: Config, counter: seq<nat>, i: nat)
    requires g.n < |g.running| == |counter| && 1 <= i <= g.n && g.running[i] && NoneReady(g, counter[i := 0])
    ensures Drained(g, counter) == counter[i := 0]
    ensures forall j :: 1 <= j <= g.n && g.running[j] && j != i ==> counter[j] == 0
  {
    forall j: nat | 1 <= j <= g.n && g.running[j] && j != i
      ensures counter[j] == 0
    {
      assert !Ready(g, counter[i := 0], j);
    }
  }

  /** The ticks of a full epoch: the sum of the priorities of the runnable tasks. */
  function Period(g: Config): nat
    requires g.n < |g.priority| == |g.running|
  {
    Work(g, g.priority, g.n)
  }

  /** Where epochs start: the scheduler has just chosen, with every runnable task's counter at its
      priority. */
  ghost predicate EpochStarts(g: Config, s: State) {
    && Dispatched(g, s) && Chosen(g, s.counter, s.current) && |g.priority| == |s.counter|
    && forall i :: 1 <= i <= g.n && g.running[i] ==> s.counter[i] == g.priority[i]
  }

  /** Every epoch gives each runnable task exactly `priority` consecutive ticks, in the order of the
      priorities, lasts as long as they add up to, and is followed by the next epoch. */
  lemma EpochGivesPriority(g: Config, states: seq<State>, j: nat)
    requires Sound(g) && IsRun(g, states) && EpochStarts(g, states[0]) && Period(g) < |states|
    requires 1 <= j <= g.n && g.running[j]
    ensures HasExactly(states, j, Ahead(g, g.priority, j, g.n), g.priority[j], Period(g))
    ensures EpochStarts(g, states[Period(g)])
  {
    hide Ticks, Chosen, Ahead;
    SameWork(g, states[0].counter, g.priority, g.n);
    Epoch(g, states, j);
    TurnAfterChoice(g, states[0], j);
    SameAhead(g, states[0].counter, g.priority, j, g.n);
  }

  /** Before the first `schedule` nobody has a tick, and the idle task is current. */
  ghost predicate Boot(g: Config, s: State) {
    Fits(g, s) && s.current == 0 && forall i :: 0 <= i < |s.counter| ==> s.counter[i] == 0
  }

  /** The first `schedule` starts the first epoch. */
  lemma BootStartsEpoch(g: Config, boot: State, s: State)
    requires Sound(g) && Boot(g, boot) && Schedules(g, boot, s)
    ensures EpochStarts(g, s)
  {
    assert forall i: nat :: Ready(g, boot.counter, i) ==> boot.counter[i] > 0;
  }

  /** Epochs follow each other without a gap: number `e` starts at tick `e * Period`. */
  lemma {:induction false} EpochsFollow(g: Config, states: seq<State>, e: nat)
    requires Sound(g) && IsRun(g, states) && EpochStarts(g, states[0]) && e * Period(g) < |states|
    ensures EpochStarts(g, states[e * Period(g)])
  {
    hide Ticks, Chosen, Period;
    if e > 0 {
      var p := Period(g);
      assert e * p == (e - 1) * p + p;
      EpochsFollow(g, states, e - 1);
      SuffixIsRun(g, states, (e - 1) * p);
      var j :| 1 <= j <= g.n && g.running[j];
      EpochGivesPriority(g, states[(e - 1) * p..], j);
    }
  }

  /** The whole timetable.  From the first `schedule` on, for ever: task `j` has the processor at tick
      `k` of a run exactly if `k`, counted within its epoch, lies behind the ticks of those that come
      before `j` and within `j`'s own `priority` many. */
  lemma Timetable(g: Config, boot: State, states: seq<State>, j: nat, e: nat, r: nat)
    requires Sound(g) && Boot(g, boot) && IsRun(g, states) && Schedules(g, boot, states[0])
    requires 1 <= j <= g.n && g.running[j]
    requires r < Period(g) && (e + 1) * Period(g) < |states|
    ensures states[e * Period(g) + r].current == j
       <==> Ahead(g, g.priority, j, g.n) <= r < Ahead(g, g.priority, j, g.n) + g.priority[j]
  {
    hide Ticks, Chosen, Period, Schedules, Ahead;
    var p := Period(g);
    assert (e + 1) * p == e * p + p;
    BootStartsEpoch(g, boot, states[0]);
    EpochsFollow(g, states, e);
    SuffixIsRun(g, states, e * p);
    var rest := states[e * p..];
    EpochGivesPriority(g, rest, j);
    assert rest[r] == states[e * p + r];
  }

  /** Bounded waiting: from any moment on, every runnable task has the processor again after at most
      the ticks left in this epoch plus the priorities of the others. */
  lemma BoundedWaiting(g: Config, states: seq<State>, j: nat) returns (k: nat)
    requires Sound(g) && IsRun(g, states) && Dispatched(g, states[0])
    requires Work(g, states[0].counter, g.n) + Period(g) < |states|
    requires 1 <= j <= g.n && g.running[j]
    ensures k <= Work(g, states[0].counter, g.n) + Period(g) - g.priority[j] && k < |states| && states[k].current == j
  {
    hide Ticks, Chosen, Ahead;
    var w := Work(g, states[0].counter, g.n);
    Epoch(g, states, j);
    SuffixIsRun(g, states, w);
    EpochGivesPriority(g, states[w..], j);
    k := w + Ahead(g, g.priority, j, g.n);
    assert states[w..][k - w].current == j;
  }

  // ---------------------------------------------------------------- runs in which tasks are created

  /** A run of ticks and forks; the tasks may differ from step to step. */
  ghost predicate IsGrowingRun(configs: seq<Config>, states: seq<State>) {
    && |configs| == |states| > 0
    && forall k :: 0 <= k < |states| - 1 ==> GrowingStep(configs[k], states[k], configs[k + 1], states[k + 1])
  }

  ghost predicate GrowingStep(g: Config, s: State, g': Config, s': State) {
    Fits(g, s) && ((g' == g && Ticks(g, s, s')) || Joins(g, s, g', s'))
  }

  /** The ticks among the steps of a run: a fork changes the number of tasks, a tick does not. */
  function TickCount(configs: seq<Config>): nat {
    if |configs| <= 1 then 0 else (if configs[0] == configs[1] then 1 else 0) + TickCount(configs[1..])
  }

  lemma JoinKeepsSound(g: Config, g': Config)
    requires Sound(g) && Grows(g, g')
    ensures Sound(g')
  {
    var i :| 1 <= i <= g.n && g.running[i];
    assert g'.priority[..g'.n][i] == g'.priority[i] && g'.running[..g'.n][i] == g'.running[i];
    forall i | 1 <= i <= g'.n
      ensures g'.priority[i] >= 1
    {
      if i < g'.n { assert g'.priority[..g'.n][i] == g.priority[..g'.n][i]; }
    }
  }

  /** How many ticks task `j` waits at most, if no epoch is longer than `p`. */
  function Wait(g: Config, s: State, j: nat, p: nat): int
    requires Fits(g, s) && j <= g.n
  {
    Work(g, s.counter, g.n) + if s.counter[j] > 0 then -s.counter[j] else p - g.priority[j]
  }

  lemma {:induction false} WorkHolds(g: Config, counter: seq<nat>, i: nat, k: nat)
    requires k <= g.n < |g.running| == |counter| && 1 <= i <= k && g.running[i]
    ensures Work(g, counter, k) >= counter[i]
  {
    if i < k { WorkHolds(g, counter, i, k - 1); }
  }

  /** Whoever is not running waits for at least one tick. */
  lemma WaitIsPositive(g: Config, s: State, j: nat, p: nat)
    requires Dispatched(g, s) && 1 <= j <= g.n && g.running[j] && j != s.current && p >= Period(g)
    ensures Wait(g, s, j, p) >= 1
  {
    WorkUpdate(g, s.counter, s.current, 0, g.n);
    WorkHolds(g, s.counter[s.current := 0], j, g.n);
    WorkHolds(g, g.priority, j, g.n);
  }

  /** Every tick that another task has brings `j` one tick nearer. */
  lemma TickShortensWait(g: Config, s: State, t: State, j: nat, p: nat)
    requires Sound(g) && Dispatched(g, s) && Ticks(g, s, t) && p >= Period(g)
    requires 1 <= j <= g.n && g.running[j] && j != s.current
    ensures Dispatched(g, t) && Wait(g, t, j, p) <= Wait(g, s, j, p) - 1
  {
    var i, c := s.current, s.counter[s.current];
    var spent := s.counter[i := c - 1];
    TickDispatches(g, s, t);
    WorkUpdate(g, s.counter, i, c - 1, g.n);
    if t.counter != spent {
      NoWorkNoneReady(g, spent, g.n);
      assert !Ready(g, spent, j);
      RefillIsPeriod(g, spent, g.n);
    }
  }

  /** With no ticks left, the refill hands out the priorities. */
  lemma {:induction false} RefillIsPeriod(g: Config, counter: seq<nat>, k: nat)
    requires k <= g.n < |g.running| == |counter| == |g.priority| && NoneReady(g, counter)
    ensures Work(g, Refilled(g, counter), k) == Work(g, g.priority, k)
  {
    if k > 0 {
      RefillIsPeriod(g, counter, k - 1);
      assert !Ready(g, counter, k);
    }
  }

  /** A fork leaves every wait as it is, and makes epochs longer. */
  lemma JoinKeepsWait(g: Config, s: State, g': Config, s': State, j: nat, p: nat)
    requires Sound(g) && Dispatched(g, s) && Joins(g, s, g', s') && 1 <= j <= g.n && g.running[j]
    ensures Sound(g') && Dispatched(g', s') && g'.running[j] && Wait(g', s', j, p) == Wait(g, s, j, p)
    ensures Period(g') >= Period(g)
  {
    JoinKeepsSound(g, g');
    assert g'.running[..g'.n][j] == g.running[..g'.n][j] && g'.priority[..g'.n][j] == g.priority[..g'.n][j];
    assert g'.running[..g'.n][s.current] == g.running[..g'.n][s.current];
    WorkOfOthers(g, s.counter, g', s'.counter, g.n);
    WorkOfOthers(g, g.priority, g', g'.priority, g.n);
  }

  lemma {:induction false} WorkOfOthers(g: Config, a: seq<nat>, g': Config, b: seq<nat>, k: nat)
    requires Grows(g, g') && k <= g.n && |a| == |b| == |g.running| && a[..g'.n] == b[..g'.n]
    ensures Work(g', b, k) == Work(g, a, k)
  {
    if k > 0 {
      WorkOfOthers(g, a, g', b, k - 1);
      assert a[..g'.n][k] == b[..g'.n][k] && g'.running[..g'.n][k] == g.running[..g'.n][k];
    }
  }

  /** Epochs get longer along a run. */
  lemma {:induction false} PeriodsGrow(configs: seq<Config>, states: seq<State>)
    requires IsGrowingRun(configs, states) && Sound(configs[0]) && Dispatched(configs[0], states[0])
    ensures Sound(configs[|configs| - 1]) && Period(configs[|configs| - 1]) >= Period(configs[0])
    decreases |configs|
  {
    hide Ticks, Sound, Work;
    if |configs| > 1 {
      GrowingStepFacts(configs[0], states[0], configs[1], states[1]);
      GrowingSuffix(configs, states);
      PeriodsGrow(configs[1..], states[1..]);
    }
  }

  lemma GrowingStepFacts(g: Config, s: State, g': Config, s': State)
    requires Sound(g) && Dispatched(g, s) && GrowingStep(g, s, g', s')
    ensures Sound(g') && Dispatched(g', s') && Period(g') >= Period(g)
  {
    if Joins(g, s, g', s') {
      JoinKeepsWait(g, s, g', s', s.current, 0);
    } else {
      TickDispatches(g, s, s');
    }
  }

  lemma GrowingSuffix(configs: seq<Config>, states: seq<State>)
    requires IsGrowingRun(configs, states) && |configs| > 1
    ensures IsGrowingRun(configs[1..], states[1..])
  {
    hide GrowingStep;
    var gs, ss := configs[1..], states[1..];
    forall k | 0 <= k < |ss| - 1
      ensures GrowingStep(gs[k], ss[k], gs[k + 1], ss[k + 1])
    {
      assert gs[k] == configs[k + 1] && gs[k + 1] == configs[k + 2];
      assert ss[k] == states[k + 1] && ss[k + 1] == states[k + 2];
    }
  }

  /** Bounded waiting while tasks are created: every runnable task, one just created included, has the
      processor after at most the ticks left in this epoch plus the priorities of all others that exist by
      the end of the run. */
  lemma {:induction false} BoundedWaitingWithForks(configs: seq<Config>, states: seq<State>, j: nat, p: nat)
    returns (k: nat)
    requires IsGrowingRun(configs, states) && Sound(configs[0]) && Dispatched(configs[0], states[0])
    requires 1 <= j <= configs[0].n && configs[0].running[j]
    requires Sound(configs[|configs| - 1]) && p == Period(configs[|configs| - 1])
    requires TickCount(configs) >= Wait(configs[0], states[0], j, p)
    ensures k < |states| && states[k].current == j
    ensures TickCount(configs[..k + 1]) <= Wait(configs[0], states[0], j, p)
    decreases |configs|
  {
    hide Ticks, Sound, Work, Joins;
    var g, s := configs[0], states[0];
    PeriodsGrow(configs, states);
    if s.current == j {
      k := 0;
      WaitIsNatural(g, s, j, p);
    } else {
      WaitIsPositive(g, s, j, p);
      GrowingSuffix(configs, states);
      OneStepNearer(g, s, configs[1], states[1], j, p);
      k := BoundedWaitingWithForks(configs[1..], states[1..], j, p);
      assert configs[..k + 2][1..] == configs[1..][..k + 1];
      k := k + 1;
    }
  }

  lemma WaitIsNatural(g: Config, s: State, j: nat, p: nat)
    requires Dispatched(g, s) && 1 <= j <= g.n && g.running[j] && p >= Period(g)
    ensures Wait(g, s, j, p) >= 0
  {
    WorkHolds(g, s.counter, j, g.n);
    WorkHolds(g, g.priority, j, g.n);
  }

  lemma OneStepNearer(g: Config, s: State, g': Config, s': State, j: nat, p: nat)
    requires Sound(g) && Dispatched(g, s) && GrowingStep(g, s, g', s') && p >= Period(g)
    requires 1 <= j <= g.n && g.running[j] && j != s.current
    ensures Sound(g') && Dispatched(g', s') && j <= g'.n && g'.running[j]
    ensures Wait(g', s', j, p) <= Wait(g, s, j, p) - if g == g' then 1 else 0
  {
    if Joins(g, s, g', s') {
      JoinKeepsWait(g, s, g', s', j, p);
    } else {
      TickShortensWait(g, s, s', j, p);
    }
  }

  /** The bound, spelled out. */
  lemma WaitIsBounded(g: Config, s: State, j: nat, p: nat)
    requires Dispatched(g, s) && 1 <= j <= g.n && g.running[j] && p >= Period(g)
    ensures Wait(g, s, j, p) <= Work(g, s.counter, g.n) + p - g.priority[j]
  {
    WorkHolds(g, g.priority, j, g.n);
  }

  // ---------------------------------------------------------------- the counters

  /** A refill leaves a task half of the ticks it has not used, rounded down, on top of its priority. */
  lemma RefillKeepsHalf(g: Config, counter: seq<nat>, i: nat)
    requires g.n < |g.priority| == |counter| && 1 <= i <= g.n
    ensures var kept := Refilled(g, counter)[i] - g.priority[i];
            counter[i] == kept + kept || counter[i] == kept + kept + 1
  {}

  /** Counters stay below twice the greatest priority, so 64 bits never overflow. */
  lemma CountersAreBounded(g: Config, s: State, t: State, m: nat)
    requires Sound(g) && Fits(g, s) && Ticks(g, s, t)
    requires forall i :: 1 <= i <= g.n ==> g.priority[i] <= m
    requires forall i :: 0 <= i < |s.counter| ==> s.counter[i] <= 2 * m
    ensures forall i :: 0 <= i < |t.counter| ==> t.counter[i] <= 2 * m
  {
    var spent := if s.counter[s.current] == 0 then s
      else s.(counter := s.counter[s.current := s.counter[s.current] - 1]);
    assert t.counter == spent.counter || t.counter == Refilled(g, spent.counter);
  }
}
