/**
 The append-only membership log and the two folds that read it: the group side (`derive` of
 `infra/tools/backfill_group_members.py`) and the member side (`member_groups` of
 `infra/tools/live_forward_check.py`, `current_groups_for_member` of the service's repository).

 Times are natural numbers in the order of the log's timestamps; 0 is a missing timestamp.
 */
module MembershipLog {
  import opened Prelude

  /** The event's `type`; `Other` is any string but the four, or none. */
  datatype Kind = Joined | Approved | Left | Removed | Other(name: string)

  datatype Event = Event(memberId: string, groupId: string, kind: Kind, at: nat)

  predicate IsStart(e: Event) {
    e.kind.Joined? || e.kind.Approved?
  }

  predicate IsEnd(e: Event) {
    e.kind.Left? || e.kind.Removed?
  }

  predicate IsKnown(e: Event) {
    IsStart(e) || IsEnd(e)
  }

  // ---------- Sorting ----------

  /** Puts `e` behind every event that is not later: what a stable sort does with the last element. */
  function InsertByTime(s: seq<Event>, e: Event): seq<Event> {
    if s == [] || s[|s| - 1].at <= e.at then s + [e]
    else InsertByTime(s[..|s| - 1], e) + [s[|s| - 1]]
  }

  /** `sorted(events, key=at)`. */
  function SortByTime(es: seq<Event>): seq<Event> {
    if es == [] then [] else InsertByTime(SortByTime(es[..|es| - 1]), es[|es| - 1])
  }

  ghost predicate Sorted(s: seq<Event>) {
    forall i, j | 0 <= i < j < |s| :: s[i].at <= s[j].at
  }

  // ---------- The group side ----------

  type State = map<string, Option<nat>>

  function StepState(state: State, e: Event): State {
    if e.memberId == "" then state
    else if IsStart(e) then state[e.memberId := Some(e.at)]
    else if IsEnd(e) then state[e.memberId := None]
    else state
  }

  function FoldState(s: seq<Event>): State {
    if s == [] then map[] else StepState(FoldState(s[..|s| - 1]), s[|s| - 1])
  }

  function Active(state: State): map<string, nat> {
    map m | m in state && state[m].Some? :: state[m].value
  }

  /** Members currently in the group the events belong to, with the time they joined. */
  function Derived(es: seq<Event>): map<string, nat> {
    Active(FoldState(SortByTime(es)))
  }

  method Derive(events: seq<Event>) returns (current: map<string, nat>)
    ensures current == Derived(events)
  {
    var ordered := SortByTime(events);
    var state: State := map[];
    for i := 0 to |ordered|
      invariant state == FoldState(ordered[..i])
    {
      var e := ordered[i];
      assert ordered[..i + 1][..i] == ordered[..i];
      if e.memberId != "" {
        if IsStart(e) {
          state := state[e.memberId := Some(e.at)];
        } else if IsEnd(e) {
          state := state[e.memberId := None];
        }
      }
    }
    assert ordered[..|ordered|] == ordered;
    current := map m | m in state && state[m].Some? :: state[m].value;
  }

  // ---------- The member side ----------

  /** `strict`: unknown kinds are skipped (the repository); otherwise they switch the group off (the check). */
  function StepGroups(state: map<string, bool>, e: Event, strict: bool): map<string, bool> {
    if strict && !IsKnown(e) then state else state[e.groupId := IsStart(e)]
  }

  function FoldGroups(s: seq<Event>, strict: bool): map<string, bool> {
    if s == [] then map[] else StepGroups(FoldGroups(s[..|s| - 1], strict), s[|s| - 1], strict)
  }

  function MemberGroups(es: seq<Event>, strict: bool): set<string> {
    var state := FoldGroups(SortByTime(es), strict);
    set g | g in state && state[g]
  }

  method CurrentGroups(events: seq<Event>, strict: bool) returns (groups: set<string>)
    ensures groups == MemberGroups(events, strict)
  {
    var ordered := SortByTime(events);
    var state: map<string, bool> := map[];
    for i := 0 to |ordered|
      invariant state == FoldGroups(ordered[..i], strict)
    {
      var e := ordered[i];
      assert ordered[..i + 1][..i] == ordered[..i];
      if !strict || IsKnown(e) {
        state := state[e.groupId := IsStart(e)];
      }
    }
    assert ordered[..|ordered|] == ordered;
    groups := set g | g in state && state[g];
  }
}
