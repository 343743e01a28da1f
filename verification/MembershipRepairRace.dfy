/**
 The repair tool (`backfill_group_members.py`) at work on one group while the service's instances keep
 maintaining it. The tool has read the log and then the rows; it writes and removes rows one at a time and ends
 by setting the counter to the number of members the log named.
 */
module MembershipRepairRace {
  import opened MembershipRace

  /**
   `members` is what the log named and `before` the rows the tool read. `begun` are the instances' tasks that
   started after that reading, `Idle` standing for the others; it says what happened and is stored nowhere.
   */
  datatype Repair = Repair(live: State, members: set<string>, before: set<string>, toWrite: set<string>,
                           toRemove: set<string>, begun: seq<Task>, finished: bool)

  datatype Move = Live(step: Step) | WriteRow(member: string) | RemoveRow(member: string) | SetCounter

  /** The tool has read the rows; those without a search key are written again. */
  function Begin(s: State, members: set<string>, keyless: set<string>): Repair {
    Repair(s, members, s.rows, members - s.rows + members * keyless, s.rows - members,
           seq(|s.tasks|, _ => Idle), false)
  }

  function Advance(r: Repair, move: Move): Repair {
    match move
    case Live(step) =>
      var t := Next(r.live, step);
      r.(live := t, begun := if t.tasks == r.live.tasks || step.who >= |r.begun| || step.who >= |t.tasks| then r.begun
                             else r.begun[step.who := t.tasks[step.who]])
    case WriteRow(m) =>
      if r.finished || m !in r.toWrite then r
      else r.(live := r.live.(rows := r.live.rows + {m}), toWrite := r.toWrite - {m})
    case RemoveRow(m) =>
      if r.finished || r.toWrite != {} || m !in r.toRemove then r
      else r.(live := r.live.(rows := r.live.rows - {m}), toRemove := r.toRemove - {m})
    case SetCounter =>
      if r.finished || r.toWrite != {} || r.toRemove != {} then r
      else r.(live := r.live.(count := |r.members|), finished := true)
  }

  function AdvanceAll(r: Repair, moves: seq<Move>): Repair {
    if moves == [] then r else Advance(AdvanceAll(r, moves[..|moves| - 1]), moves[|moves| - 1])
  }

  // ---------- What an instance or the tool can spoil ----------

  /**
   By how many rows the counter will be short once the tool and the instances are done, if from here on nothing
   more goes wrong.
   */
  ghost function Drift(r: Repair): int {
    if r.finished then |r.live.rows| - r.live.count - Outstanding(r.live.tasks)
    else |r.live.rows| + |r.toWrite - r.before| - |r.toRemove| - |r.members| - Outstanding(r.begun)
  }

  function One(b: bool): int {
    if b then 1 else 0
  }

  /** The counter change an instance makes, or stops before making, in this step. */
  function Settled(tasks: seq<Task>, step: Step): int {
    if (step.FinishBump? || step.Stop?) && step.who < |tasks| then Owed(tasks[step.who]) else 0
  }

  predicate Revives(s: State, step: Step) {
    step.FinishRefresh? && step.who < |s.tasks| && s.tasks[step.who].Refresh? && s.tasks[step.who].member !in s.rows
  }

  /**
   What a move spoils. While the tool is at work: a counter change that began after the tool's reading is made
   before the counter is set, which overwrites it; the tool finds a row it meant to add, or misses one it meant
   to write again or to remove; when the counter is set, a change begun before the reading is still to come. At
   any time: a deleted row is put again. Afterwards: an instance stops before its counter change.
   */
  function Spoils(r: Repair, move: Move): int {
    match move
    case Live(step) =>
      One(Revives(r.live, step))
      + (if !r.finished then Settled(r.begun, step) else if step.Stop? then Settled(r.live.tasks, step) else 0)
    case WriteRow(m) =>
      if r.finished || m !in r.toWrite then 0 else One(m !in r.live.rows) - One(m !in r.before)
    case RemoveRow(m) =>
      if r.finished || r.toWrite != {} || m !in r.toRemove then 0 else One(m !in r.live.rows)
    case SetCounter =>
      if r.finished || r.toWrite != {} || r.toRemove != {} then 0
      else Outstanding(r.begun) - Outstanding(r.live.tasks)
  }

  function SpoiledBy(r: Repair, moves: seq<Move>): int {
    if moves == [] then 0
    else SpoiledBy(r, moves[..|moves| - 1]) + Spoils(AdvanceAll(r, moves[..|moves| - 1]), moves[|moves| - 1])
  }

  // ---------- Every move ----------

  /** Each task is one begun since the reading or has `Idle` in its place. */
  ghost predicate Tracked(r: Repair) {
    |r.begun| == |r.live.tasks|
    && forall i | 0 <= i < |r.begun| :: r.begun[i] == r.live.tasks[i] || r.begun[i] == Idle
  }

  lemma AdvanceKeepsTracked(r: Repair, move: Move)
    requires Tracked(r)
    ensures Tracked(Advance(r, move))
  {
  }

  lemma AddRow(rows: set<string>, m: string)
    ensures |rows + {m}| == |rows| + One(m !in rows)
  {
    if m in rows {
      assert rows + {m} == rows;
    }
  }

  lemma DropRow(rows: set<string>, m: string)
    ensures |rows - {m}| == |rows| - One(m in rows)
  {
    if m !in rows {
      assert rows - {m} == rows;
    }
  }

  /** What an instance's step does to the rows: it owes the counter the change, or puts a deleted row again. */
  lemma RowsStep(s: State, step: Step)
    ensures step.who < |s.tasks| ==>
              |Next(s, step).rows| == |s.rows| + One(Revives(s, step))
                                      + Owed(Next(s, step).tasks[step.who]) - Owed(s.tasks[step.who]) + Settled(s.tasks, step)
    ensures step.who >= |s.tasks| ==> Next(s, step) == s
  {
    if step.who < |s.tasks| {
      if step.BeginStart? {
        AddRow(s.rows, step.member);
      } else if step.BeginEnd? {
        DropRow(s.rows, step.member);
      } else if step.FinishRefresh? && s.tasks[step.who].Refresh? {
        AddRow(s.rows, s.tasks[step.who].member);
      }
    }
  }

  lemma LiveSpoils(r: Repair, step: Step)
    requires Tracked(r)
    ensures Drift(Advance(r, Live(step))) == Drift(r) + Spoils(r, Live(step))
  {
    RowsStep(r.live, step);
    if step.who < |r.live.tasks| {
      var t := Next(r.live, step);
      OutstandingUpdate(r.live.tasks, step.who, t.tasks[step.who]);
      OutstandingUpdate(r.begun, step.who, t.tasks[step.who]);
      assert t.tasks == r.live.tasks[step.who := t.tasks[step.who]];
    }
  }

  lemma WriteSpoils(r: Repair, m: string)
    requires !r.finished && m in r.toWrite
    ensures Drift(Advance(r, WriteRow(m))) == Drift(r) + Spoils(r, WriteRow(m))
  {
    AddRow(r.live.rows, m);
    DropRow(r.toWrite - r.before, m);
    assert r.toWrite - {m} - r.before == r.toWrite - r.before - {m};
  }

  /** Each move changes the drift by what it spoils and by nothing else. */
  lemma MoveSpoils(r: Repair, move: Move)
    requires Tracked(r)
    ensures Drift(Advance(r, move)) == Drift(r) + Spoils(r, move)
  {
    match move
    case Live(step) => LiveSpoils(r, step);
    case WriteRow(m) =>
      if !r.finished && m in r.toWrite {
        WriteSpoils(r, m);
      }
    case RemoveRow(m) =>
      DropRow(r.live.rows, m);
      DropRow(r.toRemove, m);
    case SetCounter =>
      assert r.toWrite == {} ==> r.toWrite - r.before == {};
  }

  // ---------- Every run ----------

  lemma {:induction false} IdleOwesNothing(n: nat)
    ensures Outstanding(seq(n, _ => Idle)) == 0
  {
    QuietOwesNothing(seq(n, _ => Idle));
  }

  /** Whatever the table looked like before, the tool sets out to leave an exact counter. */
  lemma BeginsWithoutDrift(s: State, members: set<string>, keyless: set<string>)
    ensures Tracked(Begin(s, members, keyless)) && Drift(Begin(s, members, keyless)) == 0
  {
    var r := Begin(s, members, keyless);
    IdleOwesNothing(|s.tasks|);
    assert r.toWrite - r.before == members - s.rows;
    assert s.rows - members + members * s.rows == s.rows && members - s.rows + members * s.rows == members;
    assert (s.rows - members) !! (members * s.rows) && (members - s.rows) !! (members * s.rows);
  }

  /** The drift is the sum of what was spoilt, over every run from any table, however the instances interfere. */
  lemma {:induction false} EveryRepairAccounts(s: State, members: set<string>, keyless: set<string>, moves: seq<Move>)
    ensures var r := AdvanceAll(Begin(s, members, keyless), moves);
            Tracked(r) && Drift(r) == SpoiledBy(Begin(s, members, keyless), moves)
  {
    BeginsWithoutDrift(s, members, keyless);
    if moves != [] {
      var front := moves[..|moves| - 1];
      EveryRepairAccounts(s, members, keyless, front);
      MoveSpoils(AdvanceAll(Begin(s, members, keyless), front), moves[|moves| - 1]);
      AdvanceKeepsTracked(AdvanceAll(Begin(s, members, keyless), front), moves[|moves| - 1]);
    }
  }

  /** No move of the run spoils anything. */
  ghost predicate Undisturbed(r: Repair, moves: seq<Move>) {
    moves != [] ==>
      Undisturbed(r, moves[..|moves| - 1]) && Spoils(AdvanceAll(r, moves[..|moves| - 1]), moves[|moves| - 1]) == 0
  }

  /** After every move of the run. */
  ghost predicate NeverDrifts(r: Repair, moves: seq<Move>) {
    Drift(AdvanceAll(r, moves)) == 0 && (moves != [] ==> NeverDrifts(r, moves[..|moves| - 1]))
  }

  /** From any table, the repair and the service stay on course to an exact counter exactly while no move spoils it. */
  lemma {:induction false} OnCourseExactlyWhenUndisturbed(s: State, members: set<string>, keyless: set<string>,
                                                          moves: seq<Move>)
    ensures NeverDrifts(Begin(s, members, keyless), moves) <==> Undisturbed(Begin(s, members, keyless), moves)
  {
    var r := Begin(s, members, keyless);
    BeginsWithoutDrift(s, members, keyless);
    if moves != [] {
      var front := moves[..|moves| - 1];
      OnCourseExactlyWhenUndisturbed(s, members, keyless, front);
      EveryRepairAccounts(s, members, keyless, front);
      MoveSpoils(AdvanceAll(r, front), moves[|moves| - 1]);
    }
  }

  /**
   So a finished repair has left an exact counter, on any table, exactly when what was spoilt cancels out; and if
   nothing was, the counter is the number of rows as soon as all instances are idle.
   */
  lemma RepairExactExactlyWhen(s: State, members: set<string>, keyless: set<string>, moves: seq<Move>)
    requires AdvanceAll(Begin(s, members, keyless), moves).finished
    ensures var r := AdvanceAll(Begin(s, members, keyless), moves);
            (Exact(r.live) <==> SpoiledBy(Begin(s, members, keyless), moves) == 0)
            && (Undisturbed(Begin(s, members, keyless), moves) ==>
                  Exact(r.live) && (Quiet(r.live) ==> r.live.count == |r.live.rows|))
  {
    var r := AdvanceAll(Begin(s, members, keyless), moves);
    EveryRepairAccounts(s, members, keyless, moves);
    OnCourseExactlyWhenUndisturbed(s, members, keyless, moves);
    if Quiet(r.live) {
      QuietOwesNothing(r.live.tasks);
    }
  }

  /** A finished repair has written every named member without a row or a search key and removed every other row. */
  lemma {:induction false} FinishedMeansWritten(s: State, members: set<string>, keyless: set<string>, moves: seq<Move>)
    ensures var r := AdvanceAll(Begin(s, members, keyless), moves);
            (forall m | m in members && (m !in s.rows || m in keyless) :: m in r.toWrite || WriteRow(m) in moves)
            && (forall m | m in s.rows && m !in members :: m in r.toRemove || RemoveRow(m) in moves)
            && (r.finished ==> r.toWrite == {} && r.toRemove == {})
  {
    if moves != [] {
      FinishedMeansWritten(s, members, keyless, moves[..|moves| - 1]);
      assert moves[|moves| - 1] in moves;
    }
  }

  /** What is written and not yet removed, with what is still to be written, are the named members. */
  ghost predicate TowardsMembers(r: Repair) {
    r.toWrite <= r.members && r.toRemove !! r.members && r.live.rows - r.toRemove + r.toWrite == r.members
    && (r.finished ==> r.live.rows == r.members && r.live.count == |r.members|)
  }

  lemma ToolMovesTowardsMembers(r: Repair, move: Move)
    requires TowardsMembers(r) && !move.Live?
    ensures TowardsMembers(Advance(r, move)) && Advance(r, move).members == r.members
  {
  }

  /** Alone, the tool leaves exactly the named members' rows and their number, whatever was there before. */
  lemma {:induction false} AloneRestores(s: State, members: set<string>, keyless: set<string>, moves: seq<Move>)
    requires forall i | 0 <= i < |moves| :: !moves[i].Live?
    ensures var r := AdvanceAll(Begin(s, members, keyless), moves);
            TowardsMembers(r) && r.members == members
            && (r.finished ==> r.live.rows == members && r.live.count == |members|)
  {
    if moves != [] {
      AloneRestores(s, members, keyless, moves[..|moves| - 1]);
      ToolMovesTowardsMembers(AdvanceAll(Begin(s, members, keyless), moves[..|moves| - 1]), moves[|moves| - 1]);
    }
  }

  /** A join completed while the tool is at work: its row stays, its counter change is overwritten. */
  lemma JoinDuringRepairIsNotCounted(m: string)
    ensures var s := State({}, 0, [Idle], 0, 0);
            var r := AdvanceAll(Begin(s, {}, {}), [Live(BeginStart(0, m)), Live(FinishBump(0)), SetCounter]);
            r.finished && Quiet(r.live) && r.live.rows == {m} && r.live.count == 0
  {
    var r0 := Begin(State({}, 0, [Idle], 0, 0), {}, {});
    var moves := [Live(BeginStart(0, m)), Live(FinishBump(0)), SetCounter];
    assert moves[..2][..1] == moves[..1] && moves[..1][..0] == [] && moves[..1] == [moves[0]];
    var r1 := Advance(r0, moves[0]);
    var r2 := Advance(r1, moves[1]);
    assert AdvanceAll(r0, moves[..1]) == r1;
    assert AdvanceAll(r0, moves[..2]) == r2;
    assert r0.live.tasks == [Idle] && r1.live.tasks == [Bump(1)] && r2.live.tasks == [Idle];
    assert r2.toWrite == {} && r2.toRemove == {};
  }
}
