/**
 The candidate list of the leader picker (`leaderPicker.ts`) and an editing session of the group window
 (`GroupModal.tsx`): the list of ids the form will save, changed by ticking shown candidates.
 */
module LeaderPicker {
  import opened Prelude
  import DomainList

  datatype Candidate = Candidate(id: string, name: string)
  datatype GroupEntry = GroupEntry(id: string, leaderIds: seq<string>)

  function Ids(cs: seq<Candidate>): seq<string> {
    seq(|cs|, i requires 0 <= i < |cs| => cs[i].id)
  }

  function Filter(cs: seq<Candidate>, keep: string -> bool): seq<Candidate> {
    if cs == [] then []
    else Filter(cs[..|cs| - 1], keep) + (if keep(cs[|cs| - 1].id) then [cs[|cs| - 1]] else [])
  }

  /** Leaders of every listed group but the edited one. */
  function AssignedElsewhere(allGroups: seq<GroupEntry>, editing: Option<string>): set<string> {
    set g, id | g in allGroups && Some(g.id) != editing && id in g.leaderIds :: id
  }

  function Pinned(groupLeaders: seq<Candidate>, current: seq<string>): seq<Candidate> {
    Filter(groupLeaders, id => id in current)
  }

  /** Neither pinned nor leading elsewhere. */
  function Free(pinned: seq<Candidate>, elsewhere: set<string>): string -> bool {
    id => id !in Ids(pinned) && id !in elsewhere
  }

  function AssembleCandidates(hits: seq<Candidate>, groupLeaders: seq<Candidate>, current: seq<string>,
                              allGroups: seq<GroupEntry>, editing: Option<string>): seq<Candidate> {
    var pinned := Pinned(groupLeaders, current);
    var elsewhere := AssignedElsewhere(allGroups, editing);
    pinned + Filter(hits, Free(pinned, elsewhere))
  }

  // ---------- What is listed ----------

  lemma {:induction false} FilterMembers(cs: seq<Candidate>, keep: string -> bool)
    ensures forall c :: c in Filter(cs, keep) <==> c in cs && keep(c.id)
  {
    if cs != [] {
      FilterMembers(cs[..|cs| - 1], keep);
    }
  }

  function Count(ids: seq<string>, id: string): nat {
    if ids == [] then 0 else Count(ids[..|ids| - 1], id) + (if ids[|ids| - 1] == id then 1 else 0)
  }

  lemma {:induction false} CountConcat(a: seq<string>, b: seq<string>, id: string)
    ensures Count(a + b, id) == Count(a, id) + Count(b, id)
  {
    if b == [] {
      assert a + b == a;
    } else {
      assert (a + b)[..|a + b| - 1] == a + b[..|b| - 1];
      CountConcat(a, b[..|b| - 1], id);
    }
  }

  lemma IdsConcat(a: seq<Candidate>, b: seq<Candidate>)
    ensures Ids(a + b) == Ids(a) + Ids(b)
  {
  }

  lemma {:induction false} FilterCount(cs: seq<Candidate>, keep: string -> bool, id: string)
    ensures Count(Ids(Filter(cs, keep)), id) == if keep(id) then Count(Ids(cs), id) else 0
  {
    if cs != [] {
      var front, last := cs[..|cs| - 1], cs[|cs| - 1];
      FilterCount(front, keep, id);
      CountSnoc(front, last, id);
      CountSnoc(Filter(front, keep), last, id);
      assert front + [last] == cs;
    }
  }

  lemma CountSnoc(cs: seq<Candidate>, c: Candidate, id: string)
    ensures Count(Ids(cs + [c]), id) == Count(Ids(cs), id) + (if c.id == id then 1 else 0)
    ensures Count(Ids(cs + []), id) == Count(Ids(cs), id)
  {
    assert Ids(cs + [c]) == Ids(cs) + [c.id];
    assert Ids(cs + [c])[..|cs|] == Ids(cs);
    assert cs + [] == cs;
  }

  lemma {:induction false} CountPositive(ids: seq<string>, id: string)
    ensures Count(ids, id) > 0 <==> id in ids
  {
    if ids != [] {
      CountPositive(ids[..|ids| - 1], id);
    }
  }

  /**
   How often an id is listed: a current leader of the edited group as often as the group's resolved leaders
   name them, whatever the search returned; anyone else as often as the search returned them, unless they
   lead another group, and then not at all.
   */
  lemma ListedHowOften(hits: seq<Candidate>, groupLeaders: seq<Candidate>, current: seq<string>,
                       allGroups: seq<GroupEntry>, editing: Option<string>, id: string)
    ensures var shown := Ids(AssembleCandidates(hits, groupLeaders, current, allGroups, editing));
            Count(shown, id) ==
            if id in current && id in Ids(groupLeaders) then Count(Ids(groupLeaders), id)
            else if id in AssignedElsewhere(allGroups, editing) then 0
            else Count(Ids(hits), id)
  {
    var pinned := Pinned(groupLeaders, current);
    var elsewhere := AssignedElsewhere(allGroups, editing);
    var rest := Filter(hits, Free(pinned, elsewhere));
    IdsConcat(pinned, rest);
    CountConcat(Ids(pinned), Ids(rest), id);
    FilterCount(groupLeaders, i => i in current, id);
    FilterCount(hits, Free(pinned, elsewhere), id);
    CountPositive(Ids(pinned), id);
    CountPositive(Ids(groupLeaders), id);
  }

  lemma {:induction false} FilterConcat(a: seq<Candidate>, b: seq<Candidate>, keep: string -> bool)
    ensures Filter(a + b, keep) == Filter(a, keep) + Filter(b, keep)
  {
    if b == [] {
      assert a + b == a;
    } else {
      var front, last := b[..|b| - 1], b[|b| - 1];
      FilterConcat(a, front, keep);
      FilterSnoc(a + front, last, keep);
      FilterSnoc(front, last, keep);
      SplitLast(a, b);
    }
  }

  lemma SplitLast(a: seq<Candidate>, b: seq<Candidate>)
    requires b != []
    ensures b == b[..|b| - 1] + [b[|b| - 1]] && a + b == (a + b[..|b| - 1]) + [b[|b| - 1]]
  {
  }

  lemma FilterSnoc(cs: seq<Candidate>, c: Candidate, keep: string -> bool)
    ensures Filter(cs + [c], keep) == Filter(cs, keep) + (if keep(c.id) then [c] else [])
  {
    assert (cs + [c])[..|cs|] == cs;
  }

  lemma PartsBehind(pinned: seq<Candidate>, a: seq<Candidate>, b: seq<Candidate>)
    ensures pinned + [] == pinned && pinned + (a + b) == (pinned + a) + (pinned + b)[|pinned|..]
    ensures pinned <= pinned + b
  {
  }

  /** The group's own leaders stand first, in the order the server lists them, and without a search they are all. */
  lemma LeadersComeFirst(hits: seq<Candidate>, groupLeaders: seq<Candidate>, current: seq<string>,
                         allGroups: seq<GroupEntry>, editing: Option<string>)
    requires forall l: Candidate | l in groupLeaders :: l.id in current
    ensures AssembleCandidates([], groupLeaders, current, allGroups, editing) == groupLeaders
    ensures groupLeaders <= AssembleCandidates(hits, groupLeaders, current, allGroups, editing)
  {
    FilterAll(groupLeaders, id => id in current);
  }

  /** What a search adds stands behind them in its order: a search result in two parts adds its parts one after the other. */
  lemma HitsKeepTheirOrder(hits: seq<Candidate>, more: seq<Candidate>, groupLeaders: seq<Candidate>, current: seq<string>,
                           allGroups: seq<GroupEntry>, editing: Option<string>)
    ensures var none := AssembleCandidates([], groupLeaders, current, allGroups, editing);
            var first := AssembleCandidates(hits, groupLeaders, current, allGroups, editing);
            var second := AssembleCandidates(more, groupLeaders, current, allGroups, editing);
            none <= second
            && AssembleCandidates(hits + more, groupLeaders, current, allGroups, editing) == first + second[|none|..]
  {
    var pinned := Pinned(groupLeaders, current);
    var keep := Free(pinned, AssignedElsewhere(allGroups, editing));
    FilterConcat(hits, more, keep);
    PartsBehind(pinned, Filter(hits, keep), Filter(more, keep));
  }

  lemma {:induction false} FilterAll(cs: seq<Candidate>, keep: string -> bool)
    requires forall c | c in cs :: keep(c.id)
    ensures Filter(cs, keep) == cs
  {
    if cs != [] {
      FilterAll(cs[..|cs| - 1], keep);
    }
  }

  // ---------- A session ----------

  /** One tick of a checkbox: who is ticked, and what the search had returned when the list was drawn. */
  datatype Tick = Tick(id: string, hits: seq<Candidate>)

  /** `toggleLeader`. */
  function Toggle(ids: seq<string>, id: string): seq<string> {
    if id in ids then Without(ids, id) else ids + [id]
  }

  /** The group being edited, with its resolved leaders, and the groups list, as loaded for the session. */
  datatype Session = Session(editing: Option<GroupEntry>, groupLeaders: seq<Candidate>, allGroups: seq<GroupEntry>)

  function Current(s: Session): seq<string> {
    if s.editing.Some? then s.editing.value.leaderIds else []
  }

  function EditingId(s: Session): Option<string> {
    if s.editing.Some? then Some(s.editing.value.id) else None
  }

  predicate Shows(s: Session, t: Tick) {
    t.id in Ids(AssembleCandidates(t.hits, s.groupLeaders, Current(s), s.allGroups, EditingId(s)))
  }

  /** The ids the form would save after some ticks; a tick of someone not shown cannot happen. */
  function Selected(s: Session, ticks: seq<Tick>): seq<string> {
    if ticks == [] then Current(s)
    else
      var before, t := Selected(s, ticks[..|ticks| - 1]), ticks[|ticks| - 1];
      if Shows(s, t) then Toggle(before, t.id) else before
  }

  /** The form's own state. */
  class GroupForm {
    const session: Session
    var leaderIds: seq<string>

    constructor (session: Session)
      ensures this.session == session && leaderIds == Selected(session, [])
    {
      this.session, leaderIds := session, if session.editing.Some? then session.editing.value.leaderIds else [];
    }

    method ToggleLeader(ghost ticks: seq<Tick>, t: Tick)
      requires leaderIds == Selected(session, ticks) && Shows(session, t)
      modifies this`leaderIds
      ensures leaderIds == Selected(session, ticks + [t])
    {
      assert (ticks + [t])[..|ticks|] == ticks;
      if t.id in leaderIds {
        leaderIds := Without(leaderIds, t.id);
      } else {
        leaderIds := leaderIds + [t.id];
      }
    }
  }

  /** The save button is disabled without a name, blanks not counting, or without a leader. */
  predicate CanSave(name: string, ids: seq<string>) {
    DomainList.Trim(name) != "" && ids != []
  }

  /** Ticking and ticking again restores who is selected. */
  lemma ToggleTwice(ids: seq<string>, id: string)
    ensures forall x :: x in Toggle(Toggle(ids, id), id) <==> x in ids
    ensures id in Toggle(ids, id) <==> id !in ids
  {
    WithoutMembers(ids, id);
    WithoutMembers(ids + [id], id);
  }

  /** A tick moves nobody else; someone newly ticked comes last. */
  lemma ToggleKeepsOrder(ids: seq<string>, id: string)
    ensures Without(Toggle(ids, id), id) == Without(ids, id)
    ensures id !in ids ==> |Toggle(ids, id)| == |ids| + 1 && Toggle(ids, id)[|ids|] == id
  {
    if id in ids {
      WithoutMembers(ids, id);
      WithoutMissing(Without(ids, id), id);
    } else {
      Snoc(ids, id);
    }
  }

  lemma {:induction false} WithoutMissing(ids: seq<string>, id: string)
    requires id !in ids
    ensures Without(ids, id) == ids
  {
    if ids != [] {
      WithoutMissing(ids[..|ids| - 1], id);
    }
  }

  /** The tick is one of that candidate, and the candidate was shown. */
  predicate Hits(s: Session, t: Tick, id: string) {
    t.id == id && Shows(s, t)
  }

  /** How often a shown candidate was ticked. */
  function TicksOf(s: Session, ticks: seq<Tick>, id: string): nat {
    if ticks == [] then 0
    else
      var t := ticks[|ticks| - 1];
      TicksOf(s, ticks[..|ticks| - 1], id) + (if Hits(s, t, id) then 1 else 0)
  }

  lemma ToggleMembers(ids: seq<string>, id: string, x: string)
    ensures x in Toggle(ids, id) <==> (x in ids) != (x == id)
  {
    WithoutMembers(ids, id);
  }

  /** Leads the group before the session. */
  predicate Led(s: Session, id: string) {
    s.editing.Some? && id in s.editing.value.leaderIds
  }

  /**
   Someone is selected in the end exactly when they led the group and were ticked an even number of times, or did
   not and were ticked an odd number of times.
   */
  lemma {:induction false} SelectedByParity(s: Session, ticks: seq<Tick>, id: string)
    ensures id in Selected(s, ticks) <==> Led(s, id) != IsOdd(TicksOf(s, ticks, id))
  {
    if ticks != [] {
      SelectedByParity(s, ticks[..|ticks| - 1], id);
      SelectedOneMore(s, ticks, id);
      TicksOneMore(s, ticks, id);
      NextIsOdd(TicksOf(s, ticks[..|ticks| - 1], id));
    }
  }

  predicate IsOdd(n: nat) {
    n % 2 == 1
  }

  lemma SelectedOneMore(s: Session, ticks: seq<Tick>, id: string)
    requires ticks != []
    ensures var t := ticks[|ticks| - 1];
            id in Selected(s, ticks) <==> (id in Selected(s, ticks[..|ticks| - 1])) != Hits(s, t, id)
  {
    ToggleMembers(Selected(s, ticks[..|ticks| - 1]), ticks[|ticks| - 1].id, id);
  }

  lemma TicksOneMore(s: Session, ticks: seq<Tick>, id: string)
    requires ticks != []
    ensures TicksOf(s, ticks, id) == TicksOf(s, ticks[..|ticks| - 1], id) + (if Hits(s, ticks[|ticks| - 1], id) then 1 else 0)
  {
  }

  lemma NextIsOdd(n: nat)
    ensures IsOdd(n + 1) <==> !IsOdd(n)
  {
  }

  /** Nobody who leads another listed group. */
  ghost predicate Eligible(s: Session, ids: seq<string>) {
    forall id | id in ids :: id !in AssignedElsewhere(s.allGroups, EditingId(s))
  }

  /**
   Whatever the searches returned and whoever was ticked: nobody is saved twice, and everybody saved either
   leads the group already or was returned by a search and leads no other listed group.
   */
  lemma {:induction false} SelectedAreCurrentOrFree(s: Session, ticks: seq<Tick>)
    requires Distinct(Current(s))
    ensures Distinct(Selected(s, ticks))
    ensures forall id | id in Selected(s, ticks) ::
              id in Current(s)
              || (id !in AssignedElsewhere(s.allGroups, EditingId(s)) && exists t :: t in ticks && id in Ids(t.hits))
  {
    if ticks != [] {
      var before, t := Selected(s, ticks[..|ticks| - 1]), ticks[|ticks| - 1];
      SelectedAreCurrentOrFree(s, ticks[..|ticks| - 1]);
      assert t in ticks && forall x | x in ticks[..|ticks| - 1] :: x in ticks;
      if Shows(s, t) {
        ShownAreCurrentOrFree(s, t);
        WithoutMembers(before, t.id);
        WithoutDistinct(before, t.id);
      }
    }
  }

  lemma ShownAreCurrentOrFree(s: Session, t: Tick)
    requires Shows(s, t)
    ensures t.id in Current(s) || (t.id !in AssignedElsewhere(s.allGroups, EditingId(s)) && t.id in Ids(t.hits))
  {
    ListedHowOften(t.hits, s.groupLeaders, Current(s), s.allGroups, EditingId(s), t.id);
    CountPositive(Ids(AssembleCandidates(t.hits, s.groupLeaders, Current(s), s.allGroups, EditingId(s))), t.id);
    CountPositive(Ids(t.hits), t.id);
  }

  /** If the edited group's own leaders lead no other listed group, neither does anyone the form would save. */
  lemma SessionsSelectEligibleLeaders(s: Session, ticks: seq<Tick>)
    requires Eligible(s, Current(s)) && Distinct(Current(s))
    ensures Eligible(s, Selected(s, ticks)) && Distinct(Selected(s, ticks))
  {
    SelectedAreCurrentOrFree(s, ticks);
  }

  // ---------- The groups list ----------

  /** The leaders of every group, by the group's id. */
  type Groups = map<string, seq<string>>

  /** The list names exactly these groups with their leaders, in any order. */
  ghost predicate IsListOf(allGroups: seq<GroupEntry>, groups: Groups) {
    (forall i | 0 <= i < |allGroups| :: allGroups[i].id in groups && allGroups[i].leaderIds == groups[allGroups[i].id])
    && (forall g | g in groups :: exists i :: 0 <= i < |allGroups| && allGroups[i].id == g)
  }
}
