/**
 Several service instances maintaining one group's rows and counter at the same time. Each table operation
 is atomic, but one appended event is two or three of them, and an instance can stop between any two.

 A start event puts the row on condition that it is absent, then adds one to the counter; if the row is
 present it puts it again without a condition. An end event deletes the row on condition that it is present,
 then subtracts one.
 */
module MembershipRace {

  /** A join or a leave. */
  type Change = d: int | d == 1 || d == -1 witness 1

  /** What an instance does next. */
  datatype Task = Idle | Bump(delta: Change) | Refresh(member: string)

  /**
   `resurrected` counts the unconditional puts that found their row gone again; `lost` sums the counter
   changes of instances that stopped before making them. Neither is stored anywhere: they say what happened.
   */
  datatype State = State(rows: set<string>, count: int, tasks: seq<Task>, resurrected: nat, lost: int)

  datatype Step =
    | BeginStart(who: nat, member: string)
    | BeginEnd(who: nat, member: string)
    | FinishBump(who: nat)
    | FinishRefresh(who: nat)
    | Stop(who: nat)

  /** An instance takes a step of its own kind, or the step is not possible and nothing changes. */
  function Next(s: State, step: Step): State {
    if step.who >= |s.tasks| then s
    else
      var task := s.tasks[step.who];
      match step
      case BeginStart(who, m) =>
        if !task.Idle? then s
        else if m in s.rows then s.(tasks := s.tasks[who := Refresh(m)])
        else s.(rows := s.rows + {m}, tasks := s.tasks[who := Bump(1)])
      case BeginEnd(who, m) =>
        if !task.Idle? || m !in s.rows then s
        else s.(rows := s.rows - {m}, tasks := s.tasks[who := Bump(-1)])
      case FinishBump(who) =>
        if !task.Bump? then s
        else s.(count := s.count + task.delta, tasks := s.tasks[who := Idle])
      case FinishRefresh(who) =>
        if !task.Refresh? then s
        else s.(rows := s.rows + {task.member}, tasks := s.tasks[who := Idle],
                resurrected := s.resurrected + (if task.member in s.rows then 0 else 1))
      case Stop(who) =>
        s.(tasks := s.tasks[who := Idle], lost := s.lost + Owed(task))
  }

  function Owed(t: Task): int {
    if t.Bump? then t.delta else 0
  }

  function Outstanding(tasks: seq<Task>): int {
    if tasks == [] then 0 else Outstanding(tasks[..|tasks| - 1]) + Owed(tasks[|tasks| - 1])
  }

  function Run(s: State, steps: seq<Step>): State {
    if steps == [] then s else Next(Run(s, steps[..|steps| - 1]), steps[|steps| - 1])
  }

  lemma {:induction false} OutstandingUpdate(tasks: seq<Task>, i: nat, t: Task)
    requires i < |tasks|
    ensures Outstanding(tasks[i := t]) == Outstanding(tasks) - Owed(tasks[i]) + Owed(t)
  {
    var n := |tasks| - 1;
    if i == n {
      assert tasks[i := t][..n] == tasks[..n];
    } else {
      assert tasks[i := t][..n] == tasks[..n][i := t];
      OutstandingUpdate(tasks[..n], i, t);
    }
  }

  /** Counter, outstanding changes, lost changes and resurrected rows account for every row. */
  ghost predicate Balanced(s: State) {
    s.count + Outstanding(s.tasks) + s.lost + s.resurrected == |s.rows|
  }

  lemma StepKeepsBalance(s: State, step: Step)
    requires Balanced(s)
    ensures Balanced(Next(s, step))
  {
    if step.who < |s.tasks| {
      OutstandingUpdate(s.tasks, step.who, Next(s, step).tasks[step.who]);
      if step.FinishRefresh? && s.tasks[step.who].Refresh? && s.tasks[step.who].member in s.rows {
        assert s.rows + {s.tasks[step.who].member} == s.rows;
      }
    }
  }

  /** Over every interleaving, with any number of instances stopping anywhere. */
  lemma {:induction false} EveryRunBalances(s: State, steps: seq<Step>)
    requires Balanced(s)
    ensures Balanced(Run(s, steps))
  {
    if steps != [] {
      EveryRunBalances(s, steps[..|steps| - 1]);
      StepKeepsBalance(Run(s, steps[..|steps| - 1]), steps[|steps| - 1]);
    }
  }

  ghost predicate Quiet(s: State) {
    forall i | 0 <= i < |s.tasks| :: s.tasks[i].Idle?
  }

  lemma {:induction false} QuietOwesNothing(tasks: seq<Task>)
    requires forall i | 0 <= i < |tasks| :: tasks[i].Idle?
    ensures Outstanding(tasks) == 0
  {
    if tasks != [] {
      QuietOwesNothing(tasks[..|tasks| - 1]);
    }
  }

  // ---------- When the counter is exact ----------

  /** The counter is the number of rows as soon as the changes still to be made are made. */
  ghost predicate Exact(s: State) {
    s.count + Outstanding(s.tasks) == |s.rows|
  }

  /** An instance stops before its counter change, or a row is put again after it was deleted. */
  predicate Lossy(s: State, step: Step) {
    step.who < |s.tasks|
    && ((step.Stop? && s.tasks[step.who].Bump?)
        || (step.FinishRefresh? && s.tasks[step.who].Refresh? && s.tasks[step.who].member !in s.rows))
  }

  lemma ExactStepExactlyWhen(s: State, step: Step)
    requires Exact(s)
    ensures Exact(Next(s, step)) <==> !Lossy(s, step)
  {
    if step.who < |s.tasks| {
      OutstandingUpdate(s.tasks, step.who, Next(s, step).tasks[step.who]);
      if step.FinishRefresh? && s.tasks[step.who].Refresh? && s.tasks[step.who].member in s.rows {
        assert s.rows + {s.tasks[step.who].member} == s.rows;
      }
    }
  }

  /** No instance has a put of that member's row ahead of it. */
  ghost predicate NoRefreshAhead(s: State, member: string) {
    forall i | 0 <= i < |s.tasks| :: s.tasks[i] != Refresh(member)
  }

  /**
   The guards under which a drift begins: an instance stops between a row and its counter change, or
   deletes a row that another instance is about to put again.
   */
  ghost predicate Risky(s: State, step: Step) {
    step.who < |s.tasks|
    && ((step.Stop? && s.tasks[step.who].Bump?)
        || (step.BeginEnd? && s.tasks[step.who].Idle? && step.member in s.rows && !NoRefreshAhead(s, step.member)))
  }

  /** Every row about to be put again is still there. */
  ghost predicate RefreshesHaveRows(s: State) {
    forall i | 0 <= i < |s.tasks| && s.tasks[i].Refresh? :: s.tasks[i].member in s.rows
  }

  ghost predicate Sound(s: State) {
    Exact(s) && RefreshesHaveRows(s)
  }

  lemma SoundStep(s: State, step: Step)
    requires Sound(s) && !Risky(s, step)
    ensures Sound(Next(s, step))
  {
    ExactStepExactlyWhen(s, step);
  }

  /** No step of the schedule is risky where it is taken. */
  ghost predicate NoRisk(s: State, steps: seq<Step>) {
    steps != [] ==>
      NoRisk(s, steps[..|steps| - 1]) && !Risky(Run(s, steps[..|steps| - 1]), steps[|steps| - 1])
  }

  /** Over every schedule without a risky step the counter is exact, and equal to the rows once all are idle. */
  lemma {:induction false} CounterExactWithoutRisk(s: State, steps: seq<Step>)
    requires Sound(s) && NoRisk(s, steps)
    ensures Sound(Run(s, steps))
    ensures Quiet(Run(s, steps)) ==> Run(s, steps).count == |Run(s, steps).rows|
  {
    if steps != [] {
      CounterExactWithoutRisk(s, steps[..|steps| - 1]);
      SoundStep(Run(s, steps[..|steps| - 1]), steps[|steps| - 1]);
    }
    if Quiet(Run(s, steps)) {
      QuietOwesNothing(Run(s, steps).tasks);
    }
  }

  /** The counter is exact from `s` on, however the service goes on without a risky step. */
  ghost predicate StaysExact(s: State) {
    forall more | NoRisk(s, more) :: Exact(Run(s, more))
  }

  /** A step can be followed by a drift exactly when it is risky: the next step after it can already be the drift. */
  lemma StaysExactExactlyWhenNotRisky(s: State, step: Step)
    requires Sound(s)
    ensures StaysExact(Next(s, step)) <==> !Risky(s, step)
  {
    var t := Next(s, step);
    if !Risky(s, step) {
      SoundStep(s, step);
      forall more | NoRisk(t, more)
        ensures Exact(Run(t, more))
      {
        CounterExactWithoutRisk(t, more);
      }
    } else if step.Stop? {
      ExactStepExactlyWhen(s, step);
      assert NoRisk(t, []) && Run(t, []) == t;
    } else {
      var i :| 0 <= i < |s.tasks| && s.tasks[i] == Refresh(step.member);
      var more := [FinishRefresh(i)];
      ExactStepExactlyWhen(s, step);
      assert t.tasks[i] == Refresh(step.member) && step.member !in t.rows;
      ExactStepExactlyWhen(t, FinishRefresh(i));
      assert more[..0] == [] && Run(t, []) == t && NoRisk(t, []);
      assert NoRisk(t, more) && Run(t, more) == Next(t, FinishRefresh(i));
    }
  }

  /** After each step of the schedule. */
  ghost predicate StaysExactThroughout(s: State, steps: seq<Step>) {
    StaysExact(Run(s, steps)) && (steps != [] ==> StaysExactThroughout(s, steps[..|steps| - 1]))
  }

  /**
   Along a schedule the counter is exact, and stays so however the service goes on without a risky step, exactly
   when the schedule has no risky step. (Afterwards two drifts may still happen to cancel.)
   */
  lemma {:induction false} ExactThroughoutExactlyWhenNoRisk(s: State, steps: seq<Step>)
    requires Sound(s)
    ensures StaysExactThroughout(s, steps) <==> NoRisk(s, steps)
  {
    if steps == [] {
      forall more | NoRisk(s, more)
        ensures Exact(Run(s, more))
      {
        CounterExactWithoutRisk(s, more);
      }
    } else {
      var front := steps[..|steps| - 1];
      ExactThroughoutExactlyWhenNoRisk(s, front);
      if NoRisk(s, front) {
        CounterExactWithoutRisk(s, front);
        StaysExactExactlyWhenNotRisky(Run(s, front), steps[|steps| - 1]);
      }
    }
  }

  /**
   The race is possible without any instance stopping: a repeated join that finds its row, a leave that
   deletes it, then the join's refresh. A row is left that the counter does not know.
   */
  lemma LateRefreshDrifts()
    ensures var s := State({"m"}, 1, [Idle, Idle], 0, 0);
            var t := Run(s, [BeginStart(0, "m"), BeginEnd(1, "m"), FinishBump(1), FinishRefresh(0)]);
            Balanced(s) && Quiet(t) && t.lost == 0 && |t.rows| == 1 && t.count == 0
  {
    var s := State({"m"}, 1, [Idle, Idle], 0, 0);
    var steps := [BeginStart(0, "m"), BeginEnd(1, "m"), FinishBump(1), FinishRefresh(0)];
    QuietOwesNothing(s.tasks);
    var s1 := Next(s, steps[0]);
    var s2 := Next(s1, steps[1]);
    var s3 := Next(s2, steps[2]);
    var s4 := Next(s3, steps[3]);
    assert steps[..1] == [steps[0]] && steps[..2] == [steps[0], steps[1]];
    assert steps[..3] == [steps[0], steps[1], steps[2]] && steps[..3][..2] == steps[..2] && steps[..2][..1] == steps[..1];
    assert Run(s, steps[..1]) == s1;
    assert Run(s, steps[..2]) == s2;
    assert Run(s, steps[..3]) == s3;
    assert Run(s, steps) == s4;
    assert s1.tasks == [Refresh("m"), Idle];
    assert s2.tasks == [Refresh("m"), Bump(-1)] && s2.rows == {};
    assert s3.tasks == [Refresh("m"), Idle] && s3.count == 0;
    assert s4.tasks == [Idle, Idle] && s4.rows == {"m"};
  }
}
