/**
 Runs of editing sessions: each opens the group window, ticks candidates and saves. First the window alone, as
 if the server stored whatever is saved; then the window on top of the server.
 */
module LeaderSessions {
  import opened Prelude
  import opened LeaderPicker
  import DomainList
  import Leadership

  /**
   One session: for group `g`, or to create it when there is none; the name typed, the group's resolved leaders
   and the groups list as loaded, and the ticks.
   */
  datatype Save = Save(g: string, name: string, resolved: seq<Candidate>, listed: seq<GroupEntry>, ticks: seq<Tick>)

  function SessionOf(groups: Groups, save: Save): Session {
    Session(if save.g in groups then Some(GroupEntry(save.g, groups[save.g])) else None, save.resolved, save.listed)
  }

  /** Who is ticked when the session ends. */
  function Chosen(groups: Groups, save: Save): seq<string> {
    Selected(SessionOf(groups, save), save.ticks)
  }

  function SaveStep(groups: Groups, save: Save): Groups {
    if CanSave(save.name, Chosen(groups, save)) then groups[save.g := Chosen(groups, save)] else groups
  }

  function SaveAll(groups: Groups, saves: seq<Save>): Groups {
    if saves == [] then groups else SaveStep(SaveAll(groups, saves[..|saves| - 1]), saves[|saves| - 1])
  }

  /** Every group has a leader, nobody leads a group twice, and nobody leads two groups. */
  ghost predicate WellLed(groups: Groups) {
    (forall g | g in groups :: groups[g] != [] && Distinct(groups[g]))
    && (forall g, h, id | g in groups && h in groups && id in groups[g] && id in groups[h] :: g == h)
  }

  /** The list the form works with names every leader of the other groups. */
  ghost predicate Covers(listed: seq<GroupEntry>, groups: Groups, g: string) {
    forall h, id | h in groups && h != g && id in groups[h] ::
      id in AssignedElsewhere(listed, if g in groups then Some(g) else None)
  }

  lemma CurrentListCovers(listed: seq<GroupEntry>, groups: Groups, g: string)
    requires IsListOf(listed, groups)
    ensures Covers(listed, groups, g)
  {
    forall h, id | h in groups && h != g && id in groups[h]
      ensures id in AssignedElsewhere(listed, if g in groups then Some(g) else None)
    {
      var i :| 0 <= i < |listed| && listed[i].id == h;
      assert listed[i] in listed;
    }
  }

  // ---------- The window alone ----------

  lemma SaveKeepsWellLed(groups: Groups, save: Save)
    requires WellLed(groups) && Covers(save.listed, groups, save.g)
    ensures WellLed(SaveStep(groups, save))
  {
    SelectedAreCurrentOrFree(SessionOf(groups, save), save.ticks);
    forall h, id | h in groups && h != save.g && id in groups[h]
      ensures id !in Chosen(groups, save)
    {
      assert save.g in groups ==> id !in groups[save.g];
    }
  }

  /** Opening a group and saving it at once changes nothing. */
  lemma SaveWithoutTicksChangesNothing(groups: Groups, save: Save)
    requires save.g in groups && save.ticks == []
    ensures SaveStep(groups, save) == groups
  {
  }

  /** A save stores who is ticked, for that group only, exactly if the name is not blank and somebody is ticked. */
  lemma SaveStoresExactlyWhen(groups: Groups, save: Save)
    ensures var after := SaveStep(groups, save);
            if (exists i :: 0 <= i < |save.name| && !DomainList.IsSpace(save.name[i])) && Chosen(groups, save) != []
            then after.Keys == groups.Keys + {save.g} && after[save.g] == Chosen(groups, save)
                 && forall h | h in groups && h != save.g :: after[h] == groups[h]
            else after == groups
  {
    DomainList.TrimEmptyExactlyWhenBlank(save.name);
  }

  /** The list each session works with is the current one. */
  ghost predicate ListsCurrent(groups: Groups, saves: seq<Save>) {
    forall n | 0 <= n < |saves| :: IsListOf(saves[n].listed, SaveAll(groups, saves[..n]))
  }

  /**
   Over every run of create and edit sessions, whatever was searched, shown, ticked and typed, and for every id,
   known to the server or not: every group keeps a leader, and nobody leads two groups or one group twice.
   */
  lemma {:induction false} EveryRunOfSessionsIsWellLed(groups: Groups, saves: seq<Save>)
    requires WellLed(groups) && ListsCurrent(groups, saves)
    ensures WellLed(SaveAll(groups, saves))
  {
    if saves != [] {
      var front, last := saves[..|saves| - 1], saves[|saves| - 1];
      assert forall n | 0 <= n < |front| :: front[..n] == saves[..n];
      EveryRunOfSessionsIsWellLed(groups, front);
      CurrentListCovers(last.listed, SaveAll(groups, front), last.g);
      SaveKeepsWellLed(SaveAll(groups, front), last);
    }
  }

  /** Any session with this list, for this group. */
  ghost predicate ListSuffices(listed: seq<GroupEntry>, groups: Groups, g: string) {
    forall name, resolved, ticks :: WellLed(SaveStep(groups, Save(g, name, resolved, listed, ticks)))
  }

  /**
   What the list must hold for that: a session for `g` keeps everybody in one group, whatever is ticked, exactly
   when the list names the leaders of every other group. A list that is not loaded yet names none.
   */
  lemma ListSufficesExactlyWhenItCovers(listed: seq<GroupEntry>, groups: Groups, g: string)
    requires WellLed(groups)
    ensures ListSuffices(listed, groups, g) <==> Covers(listed, groups, g)
  {
    if Covers(listed, groups, g) {
      forall name, resolved, ticks
        ensures WellLed(SaveStep(groups, Save(g, name, resolved, listed, ticks)))
      {
        SaveKeepsWellLed(groups, Save(g, name, resolved, listed, ticks));
      }
    } else {
      var h, id :| h in groups && h != g && id in groups[h]
                   && id !in AssignedElsewhere(listed, if g in groups then Some(g) else None);
      var save := Save(g, "x", [], listed, [Tick(id, [Candidate(id, "")])]);
      UnlistedLeaderIsAdded(groups, save, id);
      var after := SaveStep(groups, save);
      assert h in after && id in after[h] && g in after && id in after[g];
    }
  }

  lemma UnlistedLeaderIsAdded(groups: Groups, save: Save, id: string)
    requires save.name == "x" && save.ticks == [Tick(id, [Candidate(id, "")])]
    requires save.g in groups ==> id !in groups[save.g]
    requires id !in AssignedElsewhere(save.listed, if save.g in groups then Some(save.g) else None)
    ensures save.g in SaveStep(groups, save) && id in SaveStep(groups, save)[save.g]
  {
    var s, t := SessionOf(groups, save), save.ticks[0];
    ListedHowOften(t.hits, s.groupLeaders, Current(s), s.allGroups, EditingId(s), id);
    assert Ids(t.hits) == [id] && [id][..0] == [];
    assert Count(Ids(t.hits), id) == 1;
    CountPositive(Ids(AssembleCandidates(t.hits, s.groupLeaders, Current(s), s.allGroups, EditingId(s))), id);
    assert save.ticks[..0] == [] && Selected(s, []) == Current(s);
    assert Shows(s, t) && Chosen(groups, save) == Current(s) + [id];
    assert DomainList.Trim("x") == "x";
  }

  lemma {:induction false} CountDistinct(ids: seq<string>, id: string)
    requires Distinct(ids)
    ensures Count(ids, id) == if id in ids then 1 else 0
  {
    if ids != [] {
      DistinctFront(ids);
      CountDistinct(ids[..|ids| - 1], id);
    }
  }

  /** In a group's form every current leader is listed once, whatever the search returned and the list says. */
  lemma CurrentLeadersListedOnce(groups: Groups, save: Save, hits: seq<Candidate>, id: string)
    requires WellLed(groups) && save.g in groups && id in groups[save.g] && Ids(save.resolved) == groups[save.g]
    ensures var s := SessionOf(groups, save);
            Count(Ids(AssembleCandidates(hits, s.groupLeaders, Current(s), s.allGroups, EditingId(s))), id) == 1
  {
    var s := SessionOf(groups, save);
    ListedHowOften(hits, s.groupLeaders, Current(s), s.allGroups, EditingId(s), id);
    CountDistinct(groups[save.g], id);
  }

  // ---------- The window on the server ----------

  /** What the window sends: an edit of a group that is shown, or a new group. */
  function OperationOf(s: Leadership.State, save: Save): Leadership.Operation {
    var ids := Chosen(Leadership.Live(s), save);
    if save.g in Leadership.Live(s) then Leadership.EditGroup(save.g, ids) else Leadership.CreateGroup(save.g, ids)
  }

  function ServerStep(s: Leadership.State, save: Save): Leadership.State {
    if CanSave(save.name, Chosen(Leadership.Live(s), save)) then Leadership.Step(s, OperationOf(s, save)) else s
  }

  function ServerRun(s: Leadership.State, saves: seq<Save>): Leadership.State {
    if saves == [] then s else ServerStep(ServerRun(s, saves[..|saves| - 1]), saves[|saves| - 1])
  }

  /** The server stores what the window alone would have stored, or refuses and leaves the groups as they are. */
  lemma ServerStoresOrRefuses(s: Leadership.State, save: Save)
    ensures var live := Leadership.Live(s);
            Leadership.Live(ServerStep(s, save)) == live || Leadership.Live(ServerStep(s, save)) == SaveStep(live, save)
  {
    var live := Leadership.Live(s);
    var ids := Chosen(live, save);
    if CanSave(save.name, ids) {
      if save.g in live {
        Leadership.EditStoresOrRefuses(s, save.g, ids);
      } else if save.g !in s.groups {
        Leadership.CreateStoresOrRefuses(s, save.g, ids);
      }
    }
  }

  /** The search returns user group leaders only, as its query asks. */
  ghost predicate HitsAreLeaders(s: Leadership.State, save: Save) {
    forall t, id | t in save.ticks && id in Ids(t.hits) && id in s.users :: s.users[id].role == Leadership.UserGroupLeader
  }

  /** So a new group never lists an administrator: the window meets what the server's creation relies on. */
  lemma WindowNamesNoAdministrator(s: Leadership.State, save: Save)
    requires WellLed(Leadership.Live(s)) && HitsAreLeaders(s, save)
    ensures Leadership.NoAdministrator(s, Leadership.Named(OperationOf(s, save)))
  {
    SelectedAreCurrentOrFree(SessionOf(Leadership.Live(s), save), save.ticks);
    var ids := Leadership.Named(OperationOf(s, save));
    forall i | 0 <= i < |ids| && ids[i] in s.users
      ensures !s.users[ids[i]].role.Administrator?
    {
      assert ids[i] in ids;
    }
  }

  ghost predicate ServerSound(s: Leadership.State) {
    Leadership.Recorded(s) && Leadership.RecordsNameGroups(s) && WellLed(Leadership.Live(s))
  }

  ghost predicate UpToDate(s: Leadership.State, save: Save) {
    Leadership.Lists(s, save.listed) && HitsAreLeaders(s, save)
  }

  lemma ServerStepKeepsSound(s: Leadership.State, save: Save)
    requires ServerSound(s) && UpToDate(s, save)
    ensures ServerSound(ServerStep(s, save))
  {
    CurrentListCovers(save.listed, Leadership.Live(s), save.g);
    SaveKeepsWellLed(Leadership.Live(s), save);
    ServerStoresOrRefuses(s, save);
    WindowNamesNoAdministrator(s, save);
    Leadership.StepKeepsRecorded(s, OperationOf(s, save));
    Leadership.StepKeepsNames(s, OperationOf(s, save));
  }

  /**
   Over every run of sessions whose list and search are up to date, saves that the server refuses or stops
   half-way included: no id leads two groups, every group keeps a leader, and every known leader's record names
   the group they lead.
   */
  lemma {:induction false} EveryRunOnTheServerIsSound(s: Leadership.State, saves: seq<Save>)
    requires ServerSound(s)
    requires forall n | 0 <= n < |saves| :: UpToDate(ServerRun(s, saves[..n]), saves[n])
    ensures ServerSound(ServerRun(s, saves)) && Leadership.OneGroupEach(ServerRun(s, saves))
  {
    if saves != [] {
      var front, last := saves[..|saves| - 1], saves[|saves| - 1];
      forall n | 0 <= n < |front|
        ensures UpToDate(ServerRun(s, front[..n]), front[n])
      {
        assert front[..n] == saves[..n];
      }
      EveryRunOnTheServerIsSound(s, front);
      ServerStepKeepsSound(ServerRun(s, front), last);
    }
    Leadership.RecordedMeansOneGroupEach(ServerRun(s, saves));
  }

  // ---------- When the server accepts a save ----------

  lemma AvailableOneByOne(s: Leadership.State, ids: seq<string>, g: Option<string>)
    ensures Leadership.Available(s, ids, g) <==> forall id | id in ids :: Leadership.Available(s, [id], g)
  {
    if Leadership.Available(s, ids, g) {
      forall id | id in ids
        ensures Leadership.Available(s, [id], g)
      {
        var i :| 0 <= i < |ids| && ids[i] == id;
      }
    } else {
      var i :| 0 <= i < |ids| && ids[i] in s.users && s.users[ids[i]].led.Some? && s.users[ids[i]].led != g;
      assert [ids[i]][0] == ids[i] && ids[i] in ids;
    }
  }

  /** The server's answer; a new group has a new id, and a deleted one cannot be edited. */
  function Outcome(s: Leadership.State, save: Save): Leadership.Outcome {
    var ids := Chosen(Leadership.Live(s), save);
    if save.g in s.groups then Leadership.Edit(s, save.g, ids).1 else Leadership.Create(s, save.g, ids).1
  }

  /**
   The server accepts what the window saves exactly when the group has not been deleted, nobody ticked has a stale
   record naming another group and none is an administrator (for a new group the window rules that out).
   */
  lemma SaveAcceptedExactlyWhen(s: Leadership.State, save: Save)
    requires ServerSound(s) && UpToDate(s, save) && CanSave(save.name, Chosen(Leadership.Live(s), save))
    ensures var ids := Chosen(Leadership.Live(s), save);
            var g := if save.g in Leadership.Live(s) then Some(save.g) else None;
            Outcome(s, save).Accepted? <==>
            (save.g in s.groups ==> save.g in Leadership.Live(s))
            && (forall id | id in ids :: !(Leadership.Stale(s, id) && s.users[id].led != g))
            && Leadership.NoAdministrator(s, ids)
  {
    var live := Leadership.Live(s);
    var ids := Chosen(live, save);
    var g := if save.g in live then Some(save.g) else None;
    SessionIsEligible(live, save);
    SessionsSelectEligibleLeaders(SessionOf(live, save), save.ticks);
    forall id | id in ids
      ensures Leadership.Available(s, [id], g) <==> !(Leadership.Stale(s, id) && s.users[id].led != g)
    {
      Leadership.OfferedIsAcceptedExactlyWhen(s, save.listed, g, id);
    }
    AvailableOneByOne(s, ids, g);
    assert ids[..|ids|] == ids;
    if save.g in live {
      Leadership.PromoteEffect(s, ids, |ids|, save.g);
    } else if save.g !in s.groups {
      Leadership.PromoteEffect(Leadership.PutLeaders(s, save.g, ids), ids, |ids|, save.g);
    }
  }

  lemma SessionIsEligible(groups: Groups, save: Save)
    requires WellLed(groups) && IsListOf(save.listed, groups)
    ensures Eligible(SessionOf(groups, save), Current(SessionOf(groups, save)))
    ensures Distinct(Current(SessionOf(groups, save)))
  {
  }

  /** An accepted save is stored as it was ticked, and the records of everybody in it name the group. */
  lemma AcceptedSaveIsStored(s: Leadership.State, save: Save)
    requires CanSave(save.name, Chosen(Leadership.Live(s), save)) && Outcome(s, save).Accepted?
    ensures var ids, t := Chosen(Leadership.Live(s), save), ServerStep(s, save);
            Leadership.Live(t) == Leadership.Live(s)[save.g := ids]
            && Leadership.RecordsPromoted(s, t, ids, save.g)
  {
    var ids := Chosen(Leadership.Live(s), save);
    if save.g in s.groups {
      Leadership.EditEffect(s, save.g, ids);
    } else {
      Leadership.CreateEffect(s, save.g, ids);
    }
    assert Leadership.OnlyLists(s, ServerStep(s, save), save.g, ids);
  }

  /** Without the window the server keeps unknown ids apart from nothing: two groups can be created with one. */
  lemma ServerAloneChecksKnownUsersOnly(g: string, h: string, id: string)
    requires g != h
    ensures var s := Leadership.Run(Leadership.State(map[], map[]), [Leadership.CreateGroup(g, [id]), Leadership.CreateGroup(h, [id])]);
            Leadership.Recorded(s) && s.groups.Keys == {g, h} && !WellLed(Leadership.Live(s))
  {
    var s := Leadership.State(map[], map[]);
    var ops := [Leadership.CreateGroup(g, [id]), Leadership.CreateGroup(h, [id])];
    assert ops[..1] == [ops[0]] && ops[..1][..0] == [];
    Leadership.PromoteEffect(Leadership.PutLeaders(s, g, [id]), [id], 1, g);
    var s1 := Leadership.Run(s, ops[..1]);
    assert Leadership.Run(s, []) == s && s1 == Leadership.Create(s, g, [id]).0;
    Leadership.PromoteEffect(Leadership.PutLeaders(s1, h, [id]), [id], 1, h);
    var t := Leadership.Live(Leadership.Run(s, ops));
    assert t[g] == [id] && t[h] == [id] && id in t[g] && id in t[h];
  }
}
