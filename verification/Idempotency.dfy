/**
 Consumer idempotency (`platform/reference/idempotency.py`): a conditional put of the event id gates the
 action. First one consumer at a time, then any number of them with crashes, failed puts and expiry.
 */
module Idempotency {

  // ---------- One consumer ----------

  class IdempotencyStore {
    const ttl: nat
    var table: map<string, nat>

    constructor (ttl: nat)
      ensures this.ttl == ttl && table == map[]
    {
      this.ttl, table := ttl, map[];
    }

    /** Records the id; true if it was recorded before. */
    method Seen(id: string, now: nat) returns (seen: bool)
      modifies this`table
      ensures seen <==> id in old(table)
      ensures table == if seen then old(table) else old(table)[id := now + ttl]
    {
      if id in table {
        return true;
      }
      table := table[id := now + ttl];
      return false;
    }

    method RunOnce<S>(id: string, now: nat, state: S, action: (string, S) -> S) returns (executed: bool, after: S)
      modifies this`table
      ensures executed <==> id !in old(table)
      ensures table == if executed then old(table)[id := now + ttl] else old(table)
      ensures after == if executed then action(id, state) else state
    {
      var seen := Seen(id, now);
      if seen {
        return false, state;
      }
      return true, action(id, state);
    }

    /** Feeds a sequence of deliveries, duplicates included, through `RunOnce`. */
    method Consume<S>(deliveries: seq<string>, times: seq<nat>, state: S, action: (string, S) -> S)
      returns (after: S, executed: seq<bool>)
      requires |times| == |deliveries|
      modifies this`table
      ensures after == ApplyAll(action, FirstDeliveries(deliveries, old(table).Keys), state)
      ensures executed == FirstFlags(deliveries, old(table).Keys)
      ensures table.Keys == Recorded(deliveries, old(table).Keys)
    {
      ghost var recorded := table.Keys;
      after, executed := state, [];
      for i := 0 to |deliveries|
        invariant after == ApplyAll(action, FirstDeliveries(deliveries[..i], recorded), state)
        invariant executed == FirstFlags(deliveries[..i], recorded)
        invariant table.Keys == Recorded(deliveries[..i], recorded)
      {
        RecordedStep(deliveries, i, recorded);
        FlagsStep(deliveries, i, recorded);
        ApplyStep(deliveries, i, recorded, action, state);
        var ran: bool;
        ran, after := RunOnce(deliveries[i], times[i], after, action);
        executed := executed + [ran];
      }
      assert deliveries[..|deliveries|] == deliveries;
    }
  }

  /** The delivery is of an id neither recorded before nor delivered earlier. */
  predicate IsFirst(ids: seq<string>, i: nat, recorded: set<string>)
    requires i < |ids|
  {
    ids[i] !in recorded && ids[i] !in ids[..i]
  }

  /** For each delivery whether its action runs. */
  function FirstFlags(ids: seq<string>, recorded: set<string>): seq<bool> {
    if ids == [] then [] else FirstFlags(ids[..|ids| - 1], recorded) + [IsFirst(ids, |ids| - 1, recorded)]
  }

  /** `RunOnce` answers true exactly for the first delivery of an id that was not recorded. */
  lemma {:induction false} FlagsMarkFirstDeliveries(ids: seq<string>, recorded: set<string>, i: nat)
    requires i < |ids|
    ensures |FirstFlags(ids, recorded)| == |ids|
    ensures FirstFlags(ids, recorded)[i] <==> IsFirst(ids, i, recorded)
  {
    var front := ids[..|ids| - 1];
    if i < |front| {
      assert front[..i] == ids[..i];
      FlagsMarkFirstDeliveries(front, recorded, i);
    } else if front != [] {
      FlagsMarkFirstDeliveries(front, recorded, 0);
    }
  }

  /** The recorded ids after some deliveries. */
  function Recorded(ids: seq<string>, recorded: set<string>): set<string> {
    recorded + set id | id in ids
  }

  lemma RecordedStep(ids: seq<string>, i: nat, recorded: set<string>)
    requires i < |ids|
    ensures ids[i] !in Recorded(ids[..i], recorded) <==> IsFirst(ids, i, recorded)
    ensures Recorded(ids[..i + 1], recorded) == Recorded(ids[..i], recorded) + {ids[i]}
  {
    assert ids[..i + 1] == ids[..i] + [ids[i]];
  }

  lemma FlagsStep(ids: seq<string>, i: nat, recorded: set<string>)
    requires i < |ids|
    ensures FirstFlags(ids[..i + 1], recorded) == FirstFlags(ids[..i], recorded) + [IsFirst(ids, i, recorded)]
  {
    assert ids[..i + 1][..i] == ids[..i];
  }

  lemma ApplyStep<S>(ids: seq<string>, i: nat, recorded: set<string>, action: (string, S) -> S, state: S)
    requires i < |ids|
    ensures ApplyAll(action, FirstDeliveries(ids[..i + 1], recorded), state) ==
            var before := ApplyAll(action, FirstDeliveries(ids[..i], recorded), state);
            if IsFirst(ids, i, recorded) then action(ids[i], before) else before
  {
    assert ids[..i + 1] == ids[..i] + [ids[i]];
    FirstDeliveriesSnoc(ids[..i], ids[i], recorded);
    ApplyAllSnoc(action, FirstDeliveries(ids[..i], recorded), ids[i], state);
  }

  /** The ids not recorded before, each once, in the order of their first delivery. */
  function FirstDeliveries(ids: seq<string>, recorded: set<string>): seq<string> {
    if ids == [] then []
    else
      var rest, id := ids[..|ids| - 1], ids[|ids| - 1];
      FirstDeliveries(rest, recorded) + (if id in recorded || id in rest then [] else [id])
  }

  function ApplyAll<S>(action: (string, S) -> S, ids: seq<string>, state: S): S {
    if ids == [] then state else action(ids[|ids| - 1], ApplyAll(action, ids[..|ids| - 1], state))
  }

  lemma FirstDeliveriesSnoc(ids: seq<string>, id: string, recorded: set<string>)
    ensures FirstDeliveries(ids + [id], recorded) ==
            FirstDeliveries(ids, recorded) + (if id in recorded || id in ids then [] else [id])
  {
    assert (ids + [id])[..|ids|] == ids;
  }

  lemma ApplyAllSnoc<S>(action: (string, S) -> S, ids: seq<string>, id: string, state: S)
    ensures ApplyAll(action, ids + [id], state) == action(id, ApplyAll(action, ids, state))
    ensures ApplyAll(action, ids + [], state) == ApplyAll(action, ids, state)
  {
    assert (ids + [id])[..|ids|] == ids;
    assert ids + [] == ids;
  }

  /** No id twice, and exactly the delivered ids that were not recorded: the action runs once per such id. */
  lemma {:induction false} FirstDeliveriesAreDistinct(ids: seq<string>, recorded: set<string>)
    ensures var firsts := FirstDeliveries(ids, recorded);
            (forall i, j | 0 <= i < j < |firsts| :: firsts[i] != firsts[j])
            && (forall id :: id in firsts <==> id in ids && id !in recorded)
  {
    if ids != [] {
      FirstDeliveriesAreDistinct(ids[..|ids| - 1], recorded);
    }
  }

  // ---------- Many consumers ----------

  /** What a consumer has in hand: nothing, or the claim whose action it is about to run. */
  datatype Task = Free | Holding(claim: nat)

  /** A recorded put. */
  datatype Claim = Claim(id: string, at: nat)

  /** An action that ran, for which claim and when. */
  datatype Execution = Execution(claim: nat, at: nat)

  /**
   The table maps an id to the time after which its record may be deleted. `claims`, `executions` and
   `expired` record what happened so far.
   */
  datatype State = State(now: nat, table: map<string, nat>, tasks: seq<Task>,
                         claims: seq<Claim>, executions: seq<Execution>, expired: seq<string>)

  datatype Step =
    | Tick(seconds: nat)
    | Put(who: nat, id: string)
    | PutUnanswered(who: nat, id: string)  // recorded, but the consumer sees an error and gives up
    | Act(who: nat)
    | Crash(who: nat)
    | Expire(id: string)

  function Record(s: State, id: string, ttl: nat): State {
    s.(table := s.table[id := s.now + ttl], claims := s.claims + [Claim(id, s.now)])
  }

  function Next(ttl: nat, s: State, step: Step): State {
    match step
    case Tick(seconds) => s.(now := s.now + seconds)
    case Put(who, id) =>
      if who >= |s.tasks| || !s.tasks[who].Free? || id in s.table then s
      else Record(s, id, ttl).(tasks := s.tasks[who := Holding(|s.claims|)])
    case PutUnanswered(who, id) =>
      if who >= |s.tasks| || !s.tasks[who].Free? || id in s.table then s else Record(s, id, ttl)
    case Act(who) =>
      if who >= |s.tasks| || s.tasks[who].Free? then s
      else s.(tasks := s.tasks[who := Free], executions := s.executions + [Execution(s.tasks[who].claim, s.now)])
    case Crash(who) =>
      if who >= |s.tasks| then s else s.(tasks := s.tasks[who := Free])
    case Expire(id) =>
      if id in s.table && s.table[id] <= s.now then s.(table := s.table - {id}, expired := s.expired + [id]) else s
  }

  function Run(ttl: nat, s: State, steps: seq<Step>): State {
    if steps == [] then s else Next(ttl, Run(ttl, s, steps[..|steps| - 1]), steps[|steps| - 1])
  }

  function Start(consumers: nat, now: nat): State {
    State(now, map[], seq(consumers, _ => Free), [], [], [])
  }

  function ClaimsOf(claims: seq<Claim>, id: string): nat {
    if claims == [] then 0
    else ClaimsOf(claims[..|claims| - 1], id) + (if claims[|claims| - 1].id == id then 1 else 0)
  }

  function Occurrences(ids: seq<string>, id: string): nat {
    if ids == [] then 0 else Occurrences(ids[..|ids| - 1], id) + (if ids[|ids| - 1] == id then 1 else 0)
  }

  /** How many of the executions ran the action of `id`. */
  function ExecutionsOf(s: State, executions: seq<Execution>, id: string): nat
    requires forall e | e in executions :: e.claim < |s.claims|
  {
    if executions == [] then 0
    else
      var e := executions[|executions| - 1];
      assert e in executions;
      ExecutionsOf(s, executions[..|executions| - 1], id) + (if s.claims[e.claim].id == id then 1 else 0)
  }

  // ---------- Invariants of every run ----------

  /** No claim is executed twice, or executed while still held, or held twice. */
  ghost predicate ClaimsUsedOnce(s: State) {
    (forall i | 0 <= i < |s.executions| :: s.executions[i].claim < |s.claims|)
    && (forall w | 0 <= w < |s.tasks| && s.tasks[w].Holding? :: s.tasks[w].claim < |s.claims|)
    && (forall i, j | 0 <= i < j < |s.executions| :: s.executions[i].claim != s.executions[j].claim)
    && (forall i, w | 0 <= i < |s.executions| && 0 <= w < |s.tasks| && s.tasks[w].Holding? ::
          s.executions[i].claim != s.tasks[w].claim)
    && (forall v, w | 0 <= v < w < |s.tasks| && s.tasks[v].Holding? && s.tasks[w].Holding? ::
          s.tasks[v].claim != s.tasks[w].claim)
  }

  /** Claims of one id are a full lifetime apart, and a record still in the table outlives its last claim. */
  ghost predicate ClaimsSpaced(ttl: nat, s: State) {
    (forall i | 0 <= i < |s.claims| :: s.claims[i].at <= s.now)
    && (forall i, j | 0 <= i < j < |s.claims| && s.claims[i].id == s.claims[j].id ::
          s.claims[i].at + ttl <= s.claims[j].at)
    && (forall i | 0 <= i < |s.claims| && s.claims[i].id !in s.table :: s.claims[i].at + ttl <= s.now)
    && (forall i | 0 <= i < |s.claims| && s.claims[i].id in s.table :: s.claims[i].at + ttl <= s.table[s.claims[i].id])
  }

  /** An action runs at or after its claim. */
  ghost predicate RunsFollowClaims(s: State) {
    forall i | 0 <= i < |s.executions| ::
      s.executions[i].claim < |s.claims| && s.claims[s.executions[i].claim].at <= s.executions[i].at <= s.now
  }

  /** Every claim is either still in the table or was followed by an expiry. */
  ghost predicate ClaimsAccounted(s: State) {
    forall id :: AccountedFor(s, id)
  }

  ghost predicate Consistent(ttl: nat, s: State) {
    ClaimsUsedOnce(s) && ClaimsSpaced(ttl, s) && RunsFollowClaims(s) && ClaimsAccounted(s)
  }

  lemma StepKeepsUse(ttl: nat, s: State, step: Step)
    requires ClaimsUsedOnce(s)
    ensures ClaimsUsedOnce(Next(ttl, s, step))
  {
  }

  lemma StepKeepsSpacing(ttl: nat, s: State, step: Step)
    requires ClaimsSpaced(ttl, s)
    ensures ClaimsSpaced(ttl, Next(ttl, s, step))
  {
  }

  lemma StepKeepsRunTimes(ttl: nat, s: State, step: Step)
    requires RunsFollowClaims(s) && ClaimsUsedOnce(s) && ClaimsSpaced(ttl, s)
    ensures RunsFollowClaims(Next(ttl, s, step))
  {
  }

  lemma ClaimsSnoc(claims: seq<Claim>, c: Claim, id: string)
    ensures ClaimsOf(claims + [c], id) == ClaimsOf(claims, id) + (if c.id == id then 1 else 0)
  {
    assert (claims + [c])[..|claims|] == claims;
  }

  lemma OccurrencesSnoc(ids: seq<string>, x: string, id: string)
    ensures Occurrences(ids + [x], id) == Occurrences(ids, id) + (if x == id then 1 else 0)
  {
    assert (ids + [x])[..|ids|] == ids;
  }

  /** The claims of one id are accounted for. */
  ghost predicate AccountedFor(s: State, id: string) {
    ClaimsOf(s.claims, id) == Occurrences(s.expired, id) + (if id in s.table then 1 else 0)
  }

  lemma RecordKeepsAccount(ttl: nat, s: State, claimed: string, id: string)
    requires AccountedFor(s, id) && claimed !in s.table
    ensures AccountedFor(Record(s, claimed, ttl), id)
  {
    ClaimsSnoc(s.claims, Claim(claimed, s.now), id);
  }

  lemma StepKeepsAccount(ttl: nat, s: State, step: Step)
    requires ClaimsAccounted(s)
    ensures ClaimsAccounted(Next(ttl, s, step))
  {
    forall id
      ensures AccountedFor(Next(ttl, s, step), id)
    {
      assert AccountedFor(s, id);
      if (step.Put? || step.PutUnanswered?) && step.id !in s.table {
        RecordKeepsAccount(ttl, s, step.id, id);
      } else if step.Expire? {
        OccurrencesSnoc(s.expired, step.id, id);
      }
    }
  }

  lemma {:induction false} EveryRunIsConsistent(ttl: nat, consumers: nat, now: nat, steps: seq<Step>)
    ensures Consistent(ttl, Run(ttl, Start(consumers, now), steps))
  {
    if steps != [] {
      var s, step := Run(ttl, Start(consumers, now), steps[..|steps| - 1]), steps[|steps| - 1];
      EveryRunIsConsistent(ttl, consumers, now, steps[..|steps| - 1]);
      StepKeepsUse(ttl, s, step);
      StepKeepsSpacing(ttl, s, step);
      StepKeepsRunTimes(ttl, s, step);
      StepKeepsAccount(ttl, s, step);
    }
  }

  // ---------- At most once ----------

  /** The positions of the claims of `id`. */
  ghost function ClaimSet(claims: seq<Claim>, id: string): set<nat> {
    set i: nat | i < |claims| && claims[i].id == id
  }

  ghost function ExecutedClaims(s: State, executions: seq<Execution>, id: string): set<nat>
    requires forall e | e in executions :: e.claim < |s.claims|
  {
    set i | 0 <= i < |executions| && s.claims[executions[i].claim].id == id :: executions[i].claim
  }

  lemma {:induction false} ClaimSetSize(claims: seq<Claim>, id: string)
    ensures |ClaimSet(claims, id)| == ClaimsOf(claims, id)
  {
    if claims == [] {
      assert ClaimSet(claims, id) == {};
    } else {
      var n := |claims| - 1;
      ClaimSetSize(claims[..n], id);
      assert ClaimSet(claims, id) == ClaimSet(claims[..n], id) + (if claims[n].id == id then {n} else {});
    }
  }

  lemma {:induction false} ExecutedSize(s: State, executions: seq<Execution>, id: string)
    requires forall e | e in executions :: e.claim < |s.claims|
    requires forall i, j | 0 <= i < j < |executions| :: executions[i].claim != executions[j].claim
    ensures |ExecutedClaims(s, executions, id)| == ExecutionsOf(s, executions, id)
  {
    if executions == [] {
      assert ExecutedClaims(s, executions, id) == {};
    } else {
      var n := |executions| - 1;
      var front, c := executions[..n], executions[n].claim;
      ExecutedSize(s, front, id);
      ExecutedOneMore(s, executions, id);
    }
  }

  lemma ExecutedOneMore(s: State, executions: seq<Execution>, id: string)
    requires executions != [] && forall e | e in executions :: e.claim < |s.claims|
    requires forall i | 0 <= i < |executions| - 1 :: executions[i].claim != executions[|executions| - 1].claim
    ensures executions[|executions| - 1] in executions
    ensures var front, c := executions[..|executions| - 1], executions[|executions| - 1].claim;
            c !in ExecutedClaims(s, front, id)
            && ExecutedClaims(s, executions, id) ==
               ExecutedClaims(s, front, id) + (if s.claims[c].id == id then {c} else {})
  {
  }

  lemma SubsetSize(a: set<nat>, b: set<nat>)
    requires a <= b
    ensures |a| <= |b|
    decreases a
  {
    if a != {} {
      var x :| x in a;
      SubsetSize(a - {x}, b - {x});
    }
  }

  lemma ExecutionsWithinClaims(s: State, id: string)
    requires ClaimsUsedOnce(s)
    ensures forall e | e in s.executions :: e.claim < |s.claims|
    ensures ExecutionsOf(s, s.executions, id) <= ClaimsOf(s.claims, id)
  {
    ClaimSetSize(s.claims, id);
    ExecutedSize(s, s.executions, id);
    SubsetSize(ExecutedClaims(s, s.executions, id), ClaimSet(s.claims, id));
  }

  lemma ClaimsWithinExpiries(s: State, id: string)
    requires ClaimsAccounted(s)
    ensures ClaimsOf(s.claims, id) <= 1 + Occurrences(s.expired, id)
  {
    assert AccountedFor(s, id);
  }

  /** Under any interleaving the action of an id runs at most once, plus once per expiry of its record. */
  lemma AtMostOncePerLifetime(ttl: nat, consumers: nat, now: nat, steps: seq<Step>, id: string)
    ensures var s := Run(ttl, Start(consumers, now), steps);
            (forall e | e in s.executions :: e.claim < |s.claims|)
            && ExecutionsOf(s, s.executions, id) <= 1 + Occurrences(s.expired, id)
  {
    var s := Run(ttl, Start(consumers, now), steps);
    EveryRunIsConsistent(ttl, consumers, now, steps);
    ExecutionsWithinClaims(s, id);
    ClaimsWithinExpiries(s, id);
  }

  // ---------- How far apart two runs are ----------

  /** How long a consumer took from its claim to its action. */
  function Delay(s: State, e: Execution): int
    requires e.claim < |s.claims|
  {
    e.at - s.claims[e.claim].at
  }

  /**
   Two runs of one id are at least the lifetime apart, less the time the earlier one waited between its claim
   and its action: exactly the lifetime for a consumer that acts at once.
   */
  lemma RunsSpacedByLifetimeLessDelay(ttl: nat, consumers: nat, now: nat, steps: seq<Step>, i: nat, j: nat)
    requires var s := Run(ttl, Start(consumers, now), steps);
             i < |s.executions| && j < |s.executions|
             && s.executions[i].claim < s.executions[j].claim < |s.claims|
             && s.claims[s.executions[i].claim].id == s.claims[s.executions[j].claim].id
    ensures var s := Run(ttl, Start(consumers, now), steps);
            s.executions[j].at - s.executions[i].at >= ttl - Delay(s, s.executions[i])
  {
    EveryRunIsConsistent(ttl, consumers, now, steps);
  }

  /** Every consumer acted at most `d` after its claim. */
  ghost predicate Prompt(s: State, d: nat) {
    forall i | 0 <= i < |s.executions| :: s.executions[i].claim < |s.claims| && Delay(s, s.executions[i]) <= d
  }

  /** Any two runs of one id are at least `gap` apart. */
  ghost predicate RunsApart(s: State, gap: nat) {
    forall i, j | 0 <= i < |s.executions| && 0 <= j < |s.executions| && i != j
                  && s.executions[i].claim < |s.claims| && s.executions[j].claim < |s.claims|
                  && s.claims[s.executions[i].claim].id == s.claims[s.executions[j].claim].id ::
      s.executions[i].at + gap <= s.executions[j].at || s.executions[j].at + gap <= s.executions[i].at
  }

  /** Whatever the interleaving, consumers that act within `d` keep the runs of an id `gap` apart. */
  ghost predicate AlwaysApart(ttl: nat, d: nat, gap: nat) {
    forall consumers: nat, now: nat, steps: seq<Step> ::
      Prompt(Run(ttl, Start(consumers, now), steps), d) ==> RunsApart(Run(ttl, Start(consumers, now), steps), gap)
  }

  /**
   How far apart two runs are guaranteed to be: the lifetime less the longest delay, and not a second more.
   A guarantee of `gap` seconds holds over all runs exactly when the delay and the gap fit into the lifetime.
   */
  lemma GapGuaranteedExactlyWhen(ttl: nat, d: nat, gap: nat)
    ensures AlwaysApart(ttl, d, gap) <==> gap == 0 || d + gap <= ttl
  {
    if gap == 0 || d + gap <= ttl {
      forall consumers: nat, now: nat, steps: seq<Step> | Prompt(Run(ttl, Start(consumers, now), steps), d)
        ensures RunsApart(Run(ttl, Start(consumers, now), steps), gap)
      {
        PromptRunsApart(ttl, d, gap, consumers, now, steps);
      }
    } else {
      var wait := if d <= ttl then d else ttl;
      var s := SlowConsumerBringsRunsTogether(ttl, wait, "e");
      assert s.executions[0].at + gap > s.executions[1].at;
      assert Prompt(s, d) && !RunsApart(s, gap);
    }
  }

  /** Two runs of an id are a lifetime apart exactly for consumers that act at the moment of their claim. */
  lemma LifetimeApartExactlyWhenPrompt(ttl: nat, d: nat)
    requires ttl > 0
    ensures AlwaysApart(ttl, d, ttl) <==> d == 0
  {
    GapGuaranteedExactlyWhen(ttl, d, ttl);
  }

  lemma PromptRunsApart(ttl: nat, d: nat, gap: nat, consumers: nat, now: nat, steps: seq<Step>)
    requires gap == 0 || d + gap <= ttl
    requires Prompt(Run(ttl, Start(consumers, now), steps), d)
    ensures RunsApart(Run(ttl, Start(consumers, now), steps), gap)
  {
    var s := Run(ttl, Start(consumers, now), steps);
    EveryRunIsConsistent(ttl, consumers, now, steps);
    forall i, j | 0 <= i < |s.executions| && 0 <= j < |s.executions| && s.executions[i].claim < s.executions[j].claim
                  && s.claims[s.executions[i].claim].id == s.claims[s.executions[j].claim].id
      ensures s.executions[i].at + gap <= s.executions[j].at || s.executions[j].at + gap <= s.executions[i].at
    {
      RunsSpacedByLifetimeLessDelay(ttl, consumers, now, steps, i, j);
      assert Delay(s, s.executions[i]) <= d;
    }
  }

  /**
   Every delay counts: a consumer that waits `d` after its claim runs `ttl - d` before its successor, who claims
   the moment the record expires and acts at once.
   */
  lemma SlowConsumerBringsRunsTogether(ttl: nat, d: nat, id: string) returns (s: State)
    requires d <= ttl
    ensures s == Run(ttl, Start(2, 0), [Put(0, id), Tick(d), Act(0), Tick(ttl - d), Expire(id), Put(1, id), Act(1)])
    ensures s.executions == [Execution(0, d), Execution(1, ttl)] && s.claims == [Claim(id, 0), Claim(id, ttl)]
  {
    s := Run(ttl, Start(2, 0), [Put(0, id), Tick(d), Act(0), Tick(ttl - d), Expire(id), Put(1, id), Act(1)]);
    var waited := State(ttl, map[id := ttl], [Free, Free], [Claim(id, 0)], [Execution(0, d)], []);
    var first, second := [Put(0, id), Tick(d), Act(0), Tick(ttl - d)], [Expire(id), Put(1, id), Act(1)];
    assert Run(ttl, Start(2, 0), first) == waited by {
      ActThenWait(ttl, d, id);
    }
    ExpireThenAct(ttl, waited, id);
    RunConcat(ttl, Start(2, 0), first, second);
    assert first + second == [Put(0, id), Tick(d), Act(0), Tick(ttl - d), Expire(id), Put(1, id), Act(1)];
  }

  lemma ActThenWait(ttl: nat, d: nat, id: string)
    requires d <= ttl
    ensures Run(ttl, Start(2, 0), [Put(0, id), Tick(d), Act(0), Tick(ttl - d)]) ==
            State(ttl, map[id := ttl], [Free, Free], [Claim(id, 0)], [Execution(0, d)], [])
  {
    var s := Start(2, 0);
    assert s.tasks == [Free, Free];
    RunTwice(ttl, s, Put(0, id), Tick(d));
    var claimed := State(d, map[id := ttl], [Holding(0), Free], [Claim(id, 0)], [], []);
    assert Run(ttl, s, [Put(0, id), Tick(d)]) == claimed;
    RunTwice(ttl, claimed, Act(0), Tick(ttl - d));
    assert claimed.tasks[0 := Free] == [Free, Free];
    RunConcat(ttl, s, [Put(0, id), Tick(d)], [Act(0), Tick(ttl - d)]);
    assert [Put(0, id), Tick(d)] + [Act(0), Tick(ttl - d)] == [Put(0, id), Tick(d), Act(0), Tick(ttl - d)];
  }

  lemma ExpireThenAct(ttl: nat, s: State, id: string)
    requires s.table == map[id := s.now] && s.tasks == [Free, Free] && |s.claims| == 1
    ensures Run(ttl, s, [Expire(id), Put(1, id), Act(1)]) ==
            State(s.now, map[id := s.now + ttl], [Free, Free], s.claims + [Claim(id, s.now)],
                  s.executions + [Execution(1, s.now)], s.expired + [id])
  {
    RunTwice(ttl, s, Expire(id), Put(1, id));
    assert s.table - {id} == map[];
    assert [Expire(id), Put(1, id), Act(1)][..2] == [Expire(id), Put(1, id)];
    assert s.tasks[1 := Holding(1)][1 := Free] == s.tasks;
  }

  lemma RunTwice(ttl: nat, s: State, a: Step, b: Step)
    ensures Run(ttl, s, [a, b]) == Next(ttl, Next(ttl, s, a), b)
  {
    assert [a, b][..1] == [a] && [a][..0] == [];
    assert Run(ttl, s, [a]) == Next(ttl, s, a);
  }

  lemma {:induction false} RunConcat(ttl: nat, s: State, a: seq<Step>, b: seq<Step>)
    ensures Run(ttl, s, a + b) == Run(ttl, Run(ttl, s, a), b)
  {
    if b == [] {
      assert a + b == a;
    } else {
      assert (a + b)[..|a + b| - 1] == a + b[..|b| - 1];
      RunConcat(ttl, s, a, b[..|b| - 1]);
    }
  }

  // ---------- When every recorded put is acted on ----------

  /** Every claim was executed or is still in a consumer's hands. */
  ghost predicate Kept(s: State) {
    forall c: nat | c < |s.claims| :: Executed(s, c) || Held(s, c)
  }

  ghost predicate Executed(s: State, c: nat) {
    exists i :: 0 <= i < |s.executions| && s.executions[i].claim == c
  }

  ghost predicate Held(s: State, c: nat) {
    exists w :: 0 <= w < |s.tasks| && s.tasks[w] == Holding(c)
  }

  /** A consumer crashes with a claim in hand, or a put is recorded whose answer its consumer never gets. */
  predicate Loses(s: State, step: Step) {
    match step
    case Crash(who) => who < |s.tasks| && s.tasks[who].Holding?
    case PutUnanswered(who, id) => who < |s.tasks| && s.tasks[who].Free? && id !in s.table
    case _ => false
  }

  ghost predicate NoLoss(ttl: nat, s: State, steps: seq<Step>) {
    steps != [] ==>
      NoLoss(ttl, s, steps[..|steps| - 1]) && !Loses(Run(ttl, s, steps[..|steps| - 1]), steps[|steps| - 1])
  }

  lemma KeptOneMore(ttl: nat, s: State, step: Step)
    requires ClaimsUsedOnce(s) && Kept(s) && !Loses(s, step)
    ensures Kept(Next(ttl, s, step))
  {
    var t := Next(ttl, s, step);
    forall c: nat | c < |t.claims|
      ensures Executed(t, c) || Held(t, c)
    {
      if c < |s.claims| {
        if Executed(s, c) {
          var i :| 0 <= i < |s.executions| && s.executions[i].claim == c;
          assert t.executions[i].claim == c;
        } else {
          var w :| 0 <= w < |s.tasks| && s.tasks[w] == Holding(c);
          if t.tasks[w] != Holding(c) {
            assert t.executions[|s.executions|].claim == c;
          }
        }
      } else {
        assert t.tasks[step.who] == Holding(c);
      }
    }
  }

  lemma LossStays(ttl: nat, s: State, step: Step)
    requires ClaimsUsedOnce(s) && Kept(Next(ttl, s, step))
    ensures Kept(s)
  {
    var t := Next(ttl, s, step);
    forall c: nat | c < |s.claims|
      ensures Executed(s, c) || Held(s, c)
    {
      assert Executed(t, c) || Held(t, c);
      if Executed(t, c) && !Executed(s, c) {
        var i :| 0 <= i < |t.executions| && t.executions[i].claim == c;
        assert i == |s.executions| && s.tasks[step.who] == Holding(c);
      } else if !Executed(t, c) {
        var w :| 0 <= w < |t.tasks| && t.tasks[w] == Holding(c);
        assert s.tasks[w] == Holding(c);
      }
    }
  }

  lemma LossLoses(ttl: nat, s: State, step: Step)
    requires ClaimsUsedOnce(s) && Loses(s, step)
    ensures !Kept(Next(ttl, s, step))
  {
    var t := Next(ttl, s, step);
    var c := if step.Crash? then s.tasks[step.who].claim else |s.claims|;
    assert c < |t.claims| && !Executed(t, c) && !Held(t, c);
  }

  /** One step keeps every claim accounted for exactly when it loses none. */
  lemma StepKeepsClaimsExactlyWhen(ttl: nat, s: State, step: Step)
    requires ClaimsUsedOnce(s)
    ensures Kept(Next(ttl, s, step)) <==> Kept(s) && !Loses(s, step)
  {
    if Loses(s, step) {
      LossLoses(ttl, s, step);
    } else if Kept(s) {
      KeptOneMore(ttl, s, step);
    }
    if Kept(Next(ttl, s, step)) {
      LossStays(ttl, s, step);
    }
  }

  /** Over every run, each recorded put is acted on or about to be exactly when no consumer loses one. */
  lemma {:induction false} EveryPutKeptExactlyWhenNoLoss(ttl: nat, consumers: nat, now: nat, steps: seq<Step>)
    ensures Kept(Run(ttl, Start(consumers, now), steps)) <==> NoLoss(ttl, Start(consumers, now), steps)
  {
    if steps != [] {
      EveryPutKeptExactlyWhenNoLoss(ttl, consumers, now, steps[..|steps| - 1]);
      EveryRunIsConsistent(ttl, consumers, now, steps[..|steps| - 1]);
      StepKeepsClaimsExactlyWhen(ttl, Run(ttl, Start(consumers, now), steps[..|steps| - 1]), steps[|steps| - 1]);
    }
  }

  ghost predicate AllFree(s: State) {
    forall w | 0 <= w < |s.tasks| :: s.tasks[w].Free?
  }

  lemma ExecutedWithin(s: State, id: string)
    requires ClaimsUsedOnce(s)
    ensures forall e | e in s.executions :: e.claim < |s.claims|
    ensures ExecutedClaims(s, s.executions, id) <= ClaimSet(s.claims, id)
    ensures |ExecutedClaims(s, s.executions, id)| == ExecutionsOf(s, s.executions, id)
    ensures |ClaimSet(s.claims, id)| == ClaimsOf(s.claims, id)
  {
    ClaimSetSize(s.claims, id);
    ExecutedSize(s, s.executions, id);
  }

  lemma SameSizeSubset(a: set<nat>, b: set<nat>)
    requires a <= b
    ensures |a| == |b| <==> a == b
  {
    if |a| == |b| && a != b {
      var x :| x in b && x !in a;
      SubsetSize(a, b - {x});
    }
  }

  /** The action of `id` ran once per recorded put. */
  ghost predicate OncePerPut(s: State, id: string)
    requires ClaimsUsedOnce(s)
  {
    assert forall e | e in s.executions :: e.claim < |s.claims|;
    ExecutionsOf(s, s.executions, id) == ClaimsOf(s.claims, id)
  }

  lemma OncePerPutMeansExecuted(s: State, id: string)
    requires ClaimsUsedOnce(s)
    ensures OncePerPut(s, id) <==> forall c: nat | c < |s.claims| && s.claims[c].id == id :: Executed(s, c)
  {
    ExecutedWithin(s, id);
    var done, all := ExecutedClaims(s, s.executions, id), ClaimSet(s.claims, id);
    SameSizeSubset(done, all);
    forall c: nat | c < |s.claims| && s.claims[c].id == id
      ensures c in done <==> Executed(s, c)
    {
    }
    assert done == all <==> forall c | c in all :: c in done;
  }

  /** With nothing in hand, every claim is executed exactly when each id ran once per recorded put. */
  lemma KeptMeansAllExecuted(s: State)
    requires ClaimsUsedOnce(s) && AllFree(s)
    ensures Kept(s) <==> forall id :: OncePerPut(s, id)
  {
    assert forall c: nat :: !Held(s, c);
    forall id
      ensures OncePerPut(s, id) <==> forall c: nat | c < |s.claims| && s.claims[c].id == id :: Executed(s, c)
    {
      OncePerPutMeansExecuted(s, id);
    }
    if forall id :: OncePerPut(s, id) {
      forall c: nat | c < |s.claims|
        ensures Executed(s, c)
      {
        assert OncePerPut(s, s.claims[c].id);
      }
    }
  }

  /**
   Once all consumers are free, the action of every id has run exactly once per recorded put if and only if no
   consumer crashed with a claim in hand or missed the answer to its put.
   */
  lemma ExactlyOncePerPutExactlyWhenNoLoss(ttl: nat, consumers: nat, now: nat, steps: seq<Step>)
    requires AllFree(Run(ttl, Start(consumers, now), steps))
    ensures var s := Run(ttl, Start(consumers, now), steps);
            ClaimsUsedOnce(s)
            && ((forall id :: OncePerPut(s, id)) <==> NoLoss(ttl, Start(consumers, now), steps))
  {
    EveryRunIsConsistent(ttl, consumers, now, steps);
    EveryPutKeptExactlyWhenNoLoss(ttl, consumers, now, steps);
    KeptMeansAllExecuted(Run(ttl, Start(consumers, now), steps));
  }

  // ---------- At most once, not exactly once ----------

  ghost predicate NobodyHolds(s: State, id: string) {
    forall w | 0 <= w < |s.tasks| && s.tasks[w].Holding? ::
      s.tasks[w].claim < |s.claims| && s.claims[s.tasks[w].claim].id != id
  }

  /**
   A recorded id that nobody holds any more, because its consumer crashed or never heard the answer, is never
   run again as long as its record does not expire: the action is lost.
   */
  lemma {:induction false} CrashedClaimIsNeverRun(ttl: nat, s: State, id: string, steps: seq<Step>)
    requires id in s.table && NobodyHolds(s, id) && Expire(id) !in steps
    ensures var t := Run(ttl, s, steps);
            id in t.table && NobodyHolds(t, id) && |t.executions| >= |s.executions|
            && forall i | |s.executions| <= i < |t.executions| ::
                 t.executions[i].claim < |t.claims| && t.claims[t.executions[i].claim].id != id
  {
    if steps != [] {
      CrashedClaimIsNeverRun(ttl, s, id, steps[..|steps| - 1]);
      assert steps[|steps| - 1] in steps;
    }
  }

  /** Such a record: the consumer crashes between its put and its action. */
  lemma CrashLosesTheAction(ttl: nat, id: string)
    ensures var s := Run(ttl, Start(1, 0), [Put(0, id), Crash(0)]);
            id in s.table && NobodyHolds(s, id) && s.executions == []
  {
    RunTwice(ttl, Start(1, 0), Put(0, id), Crash(0));
  }
}
