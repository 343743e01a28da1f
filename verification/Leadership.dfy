/**
 Group leadership on the server (`group_service.py`, `user_service.py` of identity-access): a group lists its
 leaders, and each user's record names the group the user leads. The picker asks the lists, the server's
 check asks the records.
 */
module Leadership {
  import opened Prelude
  import LeaderPicker

  datatype Role = Administrator | CommunityLeader | UserGroupLeader | Member

  datatype User = User(role: Role, led: Option<string>)
  datatype Group = Group(leaderIds: seq<string>, deleted: bool)

  datatype State = State(users: map<string, User>, groups: map<string, Group>)

  /** `Rejected` covers every error the services raise; what was written before the error stays written. */
  datatype Outcome = Accepted | Rejected

  // ---------- Operations ----------

  /** `_validate_leaders_available`: no known user among them leads another group. */
  predicate Available(s: State, ids: seq<string>, g: Option<string>) {
    forall i | 0 <= i < |ids| && ids[i] in s.users && s.users[ids[i]].led.Some? :: s.users[ids[i]].led == g
  }

  /** `_promote_leaders` on the first `n` ids; it stops at the first administrator. */
  function Promote(s: State, ids: seq<string>, n: nat, g: string): (State, Outcome)
    requires n <= |ids|
  {
    if n == 0 then (s, Accepted)
    else
      var (before, o) := Promote(s, ids, n - 1, g);
      var id := ids[n - 1];
      if o.Rejected? || id !in before.users then (before, o)
      else if before.users[id].role.Administrator? then (before, Rejected)
      else (before.(users := before.users[id := User(UserGroupLeader, Some(g))]), Accepted)
  }

  function PutLeaders(s: State, g: string, ids: seq<string>): State {
    s.(groups := s.groups[g := Group(ids, if g in s.groups then s.groups[g].deleted else false)])
  }

  /** `create_group` with the id it is given: the group is stored before its leaders are promoted. */
  function Create(s: State, g: string, ids: seq<string>): (State, Outcome) {
    if ids == [] || !Available(s, ids, None) then (s, Rejected)
    else Promote(PutLeaders(s, g, ids), ids, |ids|, g)
  }

  /** `edit_group` with a leader list: the leaders are promoted before the group is stored. */
  function Edit(s: State, g: string, ids: seq<string>): (State, Outcome) {
    if g !in s.groups || s.groups[g].deleted || ids == [] || !Available(s, ids, Some(g)) then (s, Rejected)
    else
      var (promoted, o) := Promote(s, ids, |ids|, g);
      if o.Rejected? then (promoted, o) else (PutLeaders(promoted, g, ids), Accepted)
  }

  /** `assign_leader`. */
  function Assign(s: State, g: string, id: string): (State, Outcome) {
    if g !in s.groups || !Available(s, [id], Some(g)) then (s, Rejected)
    else
      var ids := s.groups[g].leaderIds;
      Promote(PutLeaders(s, g, if id in ids then ids else ids + [id]), [id], 1, g)
  }

  /** `_release_leadership`. */
  function Release(s: State, id: string, g: string): State {
    var removed :=
      if g in s.groups then PutLeaders(s, g, Without(s.groups[g].leaderIds, id)) else s;
    if id in s.users && s.users[id].led == Some(g) then
      removed.(users := s.users[id := s.users[id].(led := None)])
    else removed
  }

  /** `_reassign_leader` of the user service. */
  function Reassign(s: State, id: string, g: string): (State, Outcome) {
    var prior := if id in s.users then s.users[id].led else None;
    var released := if prior.Some? && prior != Some(g) then Release(s, id, prior.value) else s;
    if g !in released.groups then (released, Rejected)
    else
      var ids := released.groups[g].leaderIds;
      var listed := if id in ids then released else PutLeaders(released, g, ids + [id]);
      (if id in s.users then listed.(users := listed.users[id := listed.users[id].(led := Some(g))]) else listed, Accepted)
  }

  /** `_is_last_leader`. */
  predicate IsLastLeader(s: State, g: string, id: string) {
    g in s.groups && Without(s.groups[g].leaderIds, id) == []
  }

  /**
   The body of `edit_user` as far as it concerns leadership. `spare`: another active community leader remains;
   `joined`: every wanted group a member is not yet in exists.
   */
  datatype UserEdit = UserEdit(role: Role, wanted: Option<seq<string>>, spare: bool, joined: bool)

  function Wanted(e: UserEdit): seq<string> {
    if e.wanted.Some? then e.wanted.value else []
  }

  /** The checks before anything is written. */
  predicate EditAllowed(s: State, id: string, e: UserEdit) {
    id in s.users
    && (e.role.Administrator? || e.role.CommunityLeader? ==> Wanted(e) == [])
    && (e.role.UserGroupLeader? ==> |Wanted(e)| <= 1)
    && (s.users[id].role.CommunityLeader? && !e.role.CommunityLeader? ==> e.spare)
    && (s.users[id].role.UserGroupLeader? && !e.role.UserGroupLeader? && s.users[id].led.Some? ==>
          !IsLastLeader(s, s.users[id].led.value, id))
  }

  /** The group the edited user is to lead, if the edit comes to that. */
  function NewLed(s: State, id: string, e: UserEdit): Option<string>
    requires id in s.users
  {
    if !e.role.UserGroupLeader? then None
    else if Wanted(e) != [] then Some(Wanted(e)[0])
    else if s.users[id].role.UserGroupLeader? then None
    else s.users[id].led
  }

  /** The leadership part of an allowed edit, before the role is written. */
  function MoveOrRelease(s: State, id: string, e: UserEdit): (State, Outcome)
    requires id in s.users
  {
    var u := s.users[id];
    if NewLed(s, id, e).Some? then Reassign(s, id, NewLed(s, id, e).value)
    else if e.role == u.role || !u.role.UserGroupLeader? || u.led.None? then (s, Accepted)
    else (Release(s, id, u.led.value), Accepted)
  }

  /** `edit_user`: the role is written last, and not at all if moving the user or joining a group fails. */
  function EditUser(s: State, id: string, e: UserEdit): (State, Outcome) {
    if !EditAllowed(s, id, e) then (s, Rejected)
    else
      var (moved, o) := MoveOrRelease(s, id, e);
      if o.Rejected? || (e.role.Member? && e.wanted.Some? && !e.joined) then (moved, Rejected)
      else (moved.(users := moved.users[id := User(e.role, if id in moved.users then moved.users[id].led else None)]), Accepted)
  }

  function SetDeleted(s: State, g: string, deleted: bool): State {
    if g in s.groups then s.(groups := s.groups[g := s.groups[g].(deleted := deleted)]) else s
  }

  datatype Operation =
    | CreateGroup(g: string, ids: seq<string>)
    | EditGroup(g: string, ids: seq<string>)
    | AssignLeader(g: string, id: string)
    | ChangeUser(id: string, edit: UserEdit)
    | DeleteGroup(g: string)
    | RestoreGroup(g: string)

  function Step(s: State, op: Operation): State {
    match op
    case CreateGroup(g, ids) => if g in s.groups then s else Create(s, g, ids).0  // ids of groups are new
    case EditGroup(g, ids) => Edit(s, g, ids).0
    case AssignLeader(g, id) => Assign(s, g, id).0
    case ChangeUser(id, edit) => EditUser(s, id, edit).0
    case DeleteGroup(g) => SetDeleted(s, g, true)
    case RestoreGroup(g) => SetDeleted(s, g, false)
  }

  function Run(s: State, ops: seq<Operation>): State {
    if ops == [] then s else Step(Run(s, ops[..|ops| - 1]), ops[|ops| - 1])
  }

  /** The service over its stored users and groups. */
  class GroupService {
    var users: map<string, User>
    var groups: map<string, Group>

    ghost function View(): State
      reads this
    {
      State(users, groups)
    }

    constructor (users: map<string, User>, groups: map<string, Group>)
      ensures View() == State(users, groups)
    {
      this.users, this.groups := users, groups;
    }

    method ValidateLeadersAvailable(ids: seq<string>, g: Option<string>) returns (ok: bool)
      ensures ok <==> Available(View(), ids, g)
    {
      for i := 0 to |ids|
        invariant forall j | 0 <= j < i && ids[j] in users && users[ids[j]].led.Some? :: users[ids[j]].led == g
      {
        if ids[i] in users && users[ids[i]].led.Some? && users[ids[i]].led != g {
          return false;
        }
      }
      return true;
    }

    method PromoteLeaders(ids: seq<string>, g: string) returns (outcome: Outcome)
      modifies this`users
      ensures (View(), outcome) == Promote(old(View()), ids, |ids|, g)
    {
      outcome := Accepted;
      for i := 0 to |ids|
        invariant (View(), outcome) == Promote(old(View()), ids, i, g)
      {
        if outcome.Accepted? && ids[i] in users {
          if users[ids[i]].role.Administrator? {
            outcome := Rejected;
          } else {
            users := users[ids[i] := User(UserGroupLeader, Some(g))];
          }
        }
      }
    }

    method CreateNew(g: string, ids: seq<string>) returns (outcome: Outcome)
      modifies this
      ensures (View(), outcome) == Create(old(View()), g, ids)
    {
      if ids == [] {
        return Rejected;
      }
      var ok := ValidateLeadersAvailable(ids, None);
      if !ok {
        return Rejected;
      }
      groups := groups[g := Group(ids, if g in groups then groups[g].deleted else false)];
      outcome := PromoteLeaders(ids, g);
    }

    method EditLeaders(g: string, ids: seq<string>) returns (outcome: Outcome)
      modifies this
      ensures (View(), outcome) == Edit(old(View()), g, ids)
    {
      if g !in groups || groups[g].deleted || ids == [] {
        return Rejected;
      }
      var ok := ValidateLeadersAvailable(ids, Some(g));
      if !ok {
        return Rejected;
      }
      outcome := PromoteLeaders(ids, g);
      if outcome.Accepted? {
        groups := groups[g := Group(ids, groups[g].deleted)];
      }
    }

    method AssignOne(g: string, id: string) returns (outcome: Outcome)
      modifies this
      ensures (View(), outcome) == Assign(old(View()), g, id)
    {
      if g !in groups {
        return Rejected;
      }
      var ok := ValidateLeadersAvailable([id], Some(g));
      if !ok {
        return Rejected;
      }
      var ids := groups[g].leaderIds;
      if id !in ids {
        ids := ids + [id];
      }
      groups := groups[g := Group(ids, groups[g].deleted)];
      outcome := PromoteLeaders([id], g);
    }

    method ReleaseLeadership(id: string, g: string)
      modifies this
      ensures View() == Release(old(View()), id, g)
    {
      if g in groups {
        groups := groups[g := Group(Without(groups[g].leaderIds, id), groups[g].deleted)];
      }
      if id in users && users[id].led == Some(g) {
        users := users[id := users[id].(led := None)];
      }
    }

    method ReassignTo(id: string, g: string) returns (outcome: Outcome)
      modifies this
      ensures (View(), outcome) == Reassign(old(View()), id, g)
    {
      var prior := if id in users then users[id].led else None;
      if prior.Some? && prior != Some(g) {
        ReleaseLeadership(id, prior.value);
      }
      if g !in groups {
        return Rejected;
      }
      if id !in groups[g].leaderIds {
        groups := groups[g := Group(groups[g].leaderIds + [id], groups[g].deleted)];
      }
      if id in users {
        users := users[id := users[id].(led := Some(g))];
      }
      return Accepted;
    }

    method Change(id: string, e: UserEdit) returns (outcome: Outcome)
      modifies this
      ensures (View(), outcome) == EditUser(old(View()), id, e)
    {
      if id !in users {
        return Rejected;
      }
      var u, wanted := users[id], if e.wanted.Some? then e.wanted.value else [];
      if e.role.Administrator? || e.role.CommunityLeader? {
        if wanted != [] {
          return Rejected;
        }
      }
      if e.role.UserGroupLeader? && wanted != [] && |wanted| != 1 {
        return Rejected;
      }
      if u.role.CommunityLeader? && !e.role.CommunityLeader? && !e.spare {
        return Rejected;
      }
      if u.role.UserGroupLeader? && !e.role.UserGroupLeader? && u.led.Some?
         && u.led.value in groups && Without(groups[u.led.value].leaderIds, id) == [] {
        return Rejected;
      }
      if e.role.UserGroupLeader? {
        var target := if wanted != [] then Some(wanted[0]) else if u.role.UserGroupLeader? then None else u.led;
        if target.Some? {
          var moved := ReassignTo(id, target.value);
          if moved.Rejected? {
            return Rejected;
          }
        }
      } else if u.role.UserGroupLeader? && u.led.Some? {
        ReleaseLeadership(id, u.led.value);
      }
      if e.role.Member? && e.wanted.Some? && !e.joined {
        return Rejected;
      }
      users := users[id := User(e.role, if id in users then users[id].led else None)];
      return Accepted;
    }
  }

  // ---------- One group per leader ----------

  /** Every known user a group lists has that group on record. */
  ghost predicate Recorded(s: State) {
    forall g, id | g in s.groups && id in s.groups[g].leaderIds && id in s.users :: s.users[id].led == Some(g)
  }

  /** No known user is listed by two groups, deleted groups included. */
  ghost predicate OneGroupEach(s: State) {
    forall g, h, id | g in s.groups && h in s.groups && id in s.users
                      && id in s.groups[g].leaderIds && id in s.groups[h].leaderIds :: g == h
  }

  lemma RecordedMeansOneGroupEach(s: State)
    requires Recorded(s)
    ensures OneGroupEach(s)
  {
  }

  ghost predicate NoAdministrator(s: State, ids: seq<string>) {
    forall i | 0 <= i < |ids| && ids[i] in s.users :: !s.users[ids[i]].role.Administrator?
  }

  /** Promotion changes the listed known users up to the first administrator and nobody else. */
  lemma {:induction false} PromoteEffect(s: State, ids: seq<string>, n: nat, g: string)
    requires n <= |ids|
    ensures var (t, o) := Promote(s, ids, n, g);
            t.groups == s.groups && t.users.Keys == s.users.Keys
            && (forall id | id in s.users :: t.users[id] == s.users[id]
                                             || (t.users[id] == User(UserGroupLeader, Some(g)) && id in ids[..n]))
            && (forall id | id in s.users && s.users[id].role.Administrator? :: t.users[id] == s.users[id])
            && (o.Accepted? ==> forall id | id in s.users && id in ids[..n] :: t.users[id].led == Some(g))
            && (o.Accepted? <==> NoAdministrator(s, ids[..n]))
  {
    if n > 0 {
      PromoteEffect(s, ids, n - 1, g);
      assert ids[..n] == ids[..n - 1] + [ids[n - 1]];
    }
  }

  /** The ids before position `k` are promoted, and everybody else stays as they are. */
  ghost predicate PromotedUpTo(s: State, t: State, ids: seq<string>, k: nat, g: string)
    requires k <= |ids|
  {
    t.groups == s.groups && t.users.Keys == s.users.Keys
    && forall id | id in s.users :: t.users[id] == if id in ids[..k] then User(UserGroupLeader, Some(g)) else s.users[id]
  }

  /** Exactly the known ids before the first administrator are promoted, to group leader of that group. */
  lemma {:induction false} PromotesUpToAdministrator(s: State, ids: seq<string>, n: nat, g: string) returns (k: nat)
    requires n <= |ids|
    ensures k <= n && NoAdministrator(s, ids[..k])
    ensures k < n ==> ids[k] in s.users && s.users[ids[k]].role.Administrator?
    ensures PromotedUpTo(s, Promote(s, ids, n, g).0, ids, k, g)
    ensures Promote(s, ids, n, g).1.Accepted? <==> k == n
  {
    if n == 0 {
      k := 0;
    } else {
      k := PromotesUpToAdministrator(s, ids, n - 1, g);
      var t := Promote(s, ids, n - 1, g).0;
      var id := ids[n - 1];
      assert ids[..n] == ids[..n - 1] + [id];
      if k == n - 1 && !(id in s.users && s.users[id].role.Administrator?) {
        k := n;
      }
    }
  }

  /** Editing never breaks the rule, even when it stops half-way at an administrator. */
  lemma EditKeepsRecorded(s: State, g: string, ids: seq<string>)
    requires Recorded(s)
    ensures Recorded(Edit(s, g, ids).0)
  {
    PromoteEffect(s, ids, |ids|, g);
    assert ids[..|ids|] == ids;
    if Edit(s, g, ids).0 != s {
      var t := Promote(s, ids, |ids|, g).0;
      forall h, id | h in t.groups && id in t.groups[h].leaderIds && id in t.users
        ensures t.users[id].led == Some(h)
      {
        if t.users[id] != s.users[id] {
          var i :| 0 <= i < |ids| && ids[i] == id;
        }
      }
    }
  }

  /** Creating a group keeps the rule exactly when it is refused outright or lists no administrator. */
  lemma CreateKeepsRecordedExactlyWhen(s: State, g: string, ids: seq<string>)
    requires Recorded(s) && g !in s.groups
    requires forall id | id in s.users :: s.users[id].led != Some(g)
    ensures Recorded(Create(s, g, ids).0) <==>
            ids == [] || !Available(s, ids, None) || NoAdministrator(s, ids)
  {
    if ids != [] && Available(s, ids, None) {
      StoreThenPromote(s, g, ids, ids);
      if Recorded(Create(s, g, ids).0) {
        NotRecordedWithAdministrator(s, g, ids, ids);
      }
    }
  }

  /** The groups' other members are untouched by storing a list and promoting some of it. */
  lemma StoreThenPromote(s: State, g: string, list: seq<string>, ids: seq<string>)
    requires Recorded(s) && Available(s, ids, Some(g))
    requires forall id | id in list && id in s.users && id !in ids :: s.users[id].led == Some(g)
    ensures NoAdministrator(s, ids) ==> Recorded(Promote(PutLeaders(s, g, list), ids, |ids|, g).0)
  {
    var put := PutLeaders(s, g, list);
    var t := Promote(put, ids, |ids|, g).0;
    PromoteEffect(put, ids, |ids|, g);
    assert ids[..|ids|] == ids;
    if NoAdministrator(s, ids) {
      forall h, id | h in t.groups && id in t.groups[h].leaderIds && id in t.users
        ensures t.users[id].led == Some(h)
      {
        if id in ids {
          var i :| 0 <= i < |ids| && ids[i] == id;
          assert s.users[id].led.Some? ==> s.users[id].led == Some(g);
        }
      }
    }
  }

  lemma NotRecordedWithAdministrator(s: State, g: string, list: seq<string>, ids: seq<string>)
    requires Recorded(Promote(PutLeaders(s, g, list), ids, |ids|, g).0)
    requires forall id | id in ids :: id in list
    requires forall id | id in s.users && s.users[id].role.Administrator? && id in ids :: s.users[id].led != Some(g)
    ensures NoAdministrator(s, ids)
  {
    var put := PutLeaders(s, g, list);
    var t := Promote(put, ids, |ids|, g).0;
    PromoteEffect(put, ids, |ids|, g);
    forall i | 0 <= i < |ids| && ids[i] in s.users
      ensures !s.users[ids[i]].role.Administrator?
    {
      assert ids[i] in ids && ids[i] in t.groups[g].leaderIds;
      assert t.users[ids[i]].led == Some(g);
    }
  }

  /** An administrator among the leaders of a new group: the group stays, and the record names no group. */
  lemma AdministratorBreaksCreate(g: string, id: string)
    ensures var s := State(map[id := User(Administrator, None)], map[]);
            Recorded(s) && Create(s, g, [id]).1 == Rejected && !Recorded(Create(s, g, [id]).0)
  {
    var s := State(map[id := User(Administrator, None)], map[]);
    assert [id][0] == id && [id][..1] == [id];
    CreateKeepsRecordedExactlyWhen(s, g, [id]);
    PromoteEffect(PutLeaders(s, g, [id]), [id], 1, g);
  }

  /** Assigning a leader breaks the rule exactly when an administrator not yet on record for the group is assigned. */
  lemma AssignKeepsRecordedExactlyWhen(s: State, g: string, id: string)
    requires Recorded(s)
    ensures Recorded(Assign(s, g, id).0) <==>
            !(g in s.groups && Available(s, [id], Some(g))
              && id in s.users && s.users[id].role.Administrator? && s.users[id].led != Some(g))
  {
    if g in s.groups && Available(s, [id], Some(g)) {
      var ids := s.groups[g].leaderIds;
      var list := if id in ids then ids else ids + [id];
      assert [id][0] == id;
      PromoteEffect(PutLeaders(s, g, list), [id], 1, g);
      if NoAdministrator(s, [id]) {
        StoreThenPromote(s, g, list, [id]);
      } else {
        assert id in Assign(s, g, id).0.groups[g].leaderIds;
        assert forall h, x | h in s.groups && h != g && x in s.groups[h].leaderIds && x in s.users :: s.users[x].led == Some(h);
      }
    }
  }

  lemma AdministratorBreaksAssign(g: string, id: string, other: string)
    requires id != other
    ensures var s := State(map[id := User(Administrator, None)], map[g := Group([other], false)]);
            Recorded(s) && !Recorded(Assign(s, g, id).0)
  {
    var s := State(map[id := User(Administrator, None)], map[g := Group([other], false)]);
    assert [id][0] == id;
    AssignKeepsRecordedExactlyWhen(s, g, id);
  }

  lemma ReleaseKeepsRecorded(s: State, id: string, g: string)
    requires Recorded(s)
    ensures Recorded(Release(s, id, g))
  {
    if g in s.groups {
      WithoutMembers(s.groups[g].leaderIds, id);
    }
  }

  /** A known user moved to a group leaves the one they led and leads only the new one. */
  lemma ReassignKeepsRecorded(s: State, id: string, g: string)
    requires Recorded(s)
    ensures Recorded(Reassign(s, id, g).0)
    ensures Reassign(s, id, g).1.Accepted? && id in s.users ==>
              Reassign(s, id, g).0.users[id].led == Some(g) && id in Reassign(s, id, g).0.groups[g].leaderIds
  {
    var prior := if id in s.users then s.users[id].led else None;
    if prior.Some? && prior != Some(g) {
      ReleaseKeepsRecorded(s, id, prior.value);
      if prior.value in s.groups {
        WithoutMembers(s.groups[prior.value].leaderIds, id);
      }
    }
  }

  /** Who the operation promotes without looking at the role first. */
  function Named(op: Operation): seq<string> {
    match op
    case CreateGroup(g, ids) => ids
    case AssignLeader(g, id) => [id]
    case _ => []
  }

  lemma EditUserKeepsRecorded(s: State, id: string, e: UserEdit)
    requires Recorded(s)
    ensures Recorded(EditUser(s, id, e).0)
  {
    if EditAllowed(s, id, e) {
      var u := s.users[id];
      if NewLed(s, id, e).Some? {
        ReassignKeepsRecorded(s, id, NewLed(s, id, e).value);
      } else if u.led.Some? {
        ReleaseKeepsRecorded(s, id, u.led.value);
      }
    }
  }

  /** Records name existing groups, so a new group's id is on nobody's record. */
  ghost predicate RecordsNameGroups(s: State) {
    forall id | id in s.users && s.users[id].led.Some? :: s.users[id].led.value in s.groups
  }

  lemma StepKeepsNames(s: State, op: Operation)
    requires RecordsNameGroups(s)
    ensures RecordsNameGroups(Step(s, op))
  {
    match op
    case CreateGroup(g, ids) => PromoteEffect(PutLeaders(s, g, ids), ids, |ids|, g);
    case EditGroup(g, ids) => PromoteEffect(s, ids, |ids|, g);
    case AssignLeader(g, id) =>
      if g in s.groups {
        var ids := s.groups[g].leaderIds;
        PromoteEffect(PutLeaders(s, g, if id in ids then ids else ids + [id]), [id], 1, g);
      }
    case _ =>
  }

  lemma StepKeepsRecorded(s: State, op: Operation)
    requires Recorded(s) && RecordsNameGroups(s) && NoAdministrator(s, Named(op))
    ensures Recorded(Step(s, op))
  {
    match op
    case CreateGroup(g, ids) =>
      if g !in s.groups {
        CreateKeepsRecordedExactlyWhen(s, g, ids);
      }
    case EditGroup(g, ids) => EditKeepsRecorded(s, g, ids);
    case AssignLeader(g, id) =>
      assert NoAdministrator(s, [id]) && [id][0] == id;
      AssignKeepsRecordedExactlyWhen(s, g, id);
    case ChangeUser(id, edit) => EditUserKeepsRecorded(s, id, edit);
    case _ =>
  }

  /** An administrator at the start, or made one by an operation. */
  ghost predicate MaybeAdministrator(s: State, ops: seq<Operation>, id: string) {
    id in s.users
    && (s.users[id].role.Administrator?
        || exists n :: 0 <= n < |ops| && ops[n].ChangeUser? && ops[n].id == id && ops[n].edit.role.Administrator?)
  }

  /** No operation makes anyone else an administrator. */
  lemma StepAppoints(s: State, op: Operation)
    ensures Step(s, op).users.Keys == s.users.Keys
    ensures forall id | id in s.users && Step(s, op).users[id].role.Administrator? ::
              s.users[id].role.Administrator? || (op.ChangeUser? && op.id == id && op.edit.role.Administrator?)
  {
    match op
    case CreateGroup(g, ids) => PromoteEffect(PutLeaders(s, g, ids), ids, |ids|, g);
    case EditGroup(g, ids) => PromoteEffect(s, ids, |ids|, g);
    case AssignLeader(g, id) =>
      if g in s.groups {
        var ids := s.groups[g].leaderIds;
        PromoteEffect(PutLeaders(s, g, if id in ids then ids else ids + [id]), [id], 1, g);
      }
    case _ =>
  }

  lemma {:induction false} AdministratorsAreKnown(s: State, ops: seq<Operation>)
    ensures Run(s, ops).users.Keys == s.users.Keys
    ensures forall id | id in s.users && Run(s, ops).users[id].role.Administrator? :: MaybeAdministrator(s, ops, id)
  {
    if ops != [] {
      var front, last := ops[..|ops| - 1], ops[|ops| - 1];
      AdministratorsAreKnown(s, front);
      StepAppoints(Run(s, front), last);
      forall id | id in s.users && Run(s, ops).users[id].role.Administrator?
        ensures MaybeAdministrator(s, ops, id)
      {
        if MaybeAdministrator(s, front, id) && !s.users[id].role.Administrator? {
          var n :| 0 <= n < |front| && front[n].ChangeUser? && front[n].id == id && front[n].edit.role.Administrator?;
          assert ops[n] == front[n];
        }
      }
    }
  }

  /** Nobody is named a leader who is an administrator by then. */
  ghost predicate NamesNoAdministrator(s: State, ops: seq<Operation>) {
    forall n, id | 0 <= n < |ops| && id in Named(ops[n]) :: !MaybeAdministrator(s, ops[..n], id)
  }

  /**
   Over every run of operations, no known user leads two groups, as long as no group is created with, or
   assigned, someone who is an administrator at the start or has been made one.
   */
  lemma {:induction false} NobodyLeadsTwoGroups(s: State, ops: seq<Operation>)
    requires Recorded(s) && RecordsNameGroups(s) && NamesNoAdministrator(s, ops)
    ensures Recorded(Run(s, ops)) && RecordsNameGroups(Run(s, ops)) && OneGroupEach(Run(s, ops))
  {
    if ops != [] {
      var front, last := ops[..|ops| - 1], ops[|ops| - 1];
      NamesNoneBefore(s, ops);
      NobodyLeadsTwoGroups(s, front);
      AdministratorsAreKnown(s, front);
      assert forall i | 0 <= i < |Named(last)| :: Named(last)[i] in Named(last);
      StepKeepsRecorded(Run(s, front), last);
      StepKeepsNames(Run(s, front), last);
    }
    RecordedMeansOneGroupEach(Run(s, ops));
  }

  lemma NamesNoneBefore(s: State, ops: seq<Operation>)
    requires NamesNoAdministrator(s, ops) && ops != []
    ensures NamesNoAdministrator(s, ops[..|ops| - 1])
  {
    var front := ops[..|ops| - 1];
    assert forall n | 0 <= n < |front| :: front[..n] == ops[..n];
  }

  // ---------- Ids without a record ----------

  /** Nobody, known or not, is listed by two groups. */
  ghost predicate OneGroupForAll(s: State) {
    forall g, h, id | g in s.groups && h in s.groups && id in s.groups[g].leaderIds && id in s.groups[h].leaderIds :: g == h
  }

  /** The id has no record, and some other group lists it. */
  ghost predicate UnknownElsewhere(s: State, g: string, id: string) {
    id !in s.users && exists h :: h in s.groups && h != g && id in s.groups[h].leaderIds
  }

  ghost predicate NamesUnknown(s: State, g: string, ids: seq<string>) {
    exists i :: 0 <= i < |ids| && UnknownElsewhere(s, g, ids[i])
  }

  /** The operation stores a list with such an id: the check of the leaders looks at records only. */
  ghost predicate NamesUnknownLeader(s: State, op: Operation) {
    match op
    case CreateGroup(g, ids) => g !in s.groups && ids != [] && Available(s, ids, None) && NamesUnknown(s, g, ids)
    case EditGroup(g, ids) =>
      g in s.groups && !s.groups[g].deleted && ids != [] && Available(s, ids, Some(g)) && NoAdministrator(s, ids)
      && NamesUnknown(s, g, ids)
    case AssignLeader(g, id) => g in s.groups && UnknownElsewhere(s, g, id)
    case _ => false
  }

  /** Storing a list of leaders whose records allow it puts someone into two groups exactly through an unknown id. */
  lemma PutKeepsOneGroupExactlyWhen(s: State, g: string, ids: seq<string>)
    requires Recorded(s) && OneGroupForAll(s)
    requires forall i | 0 <= i < |ids| && ids[i] in s.users && s.users[ids[i]].led.Some? :: s.users[ids[i]].led == Some(g)
    ensures OneGroupForAll(PutLeaders(s, g, ids)) <==> !NamesUnknown(s, g, ids)
  {
    var t := PutLeaders(s, g, ids);
    if NamesUnknown(s, g, ids) {
      var i :| 0 <= i < |ids| && UnknownElsewhere(s, g, ids[i]);
      var h :| h in s.groups && h != g && ids[i] in s.groups[h].leaderIds;
      assert ids[i] in t.groups[g].leaderIds && ids[i] in t.groups[h].leaderIds;
    } else {
      forall h, id | h in s.groups && h != g && id in s.groups[h].leaderIds
        ensures id !in ids
      {
        assert id !in s.users ==> UnknownElsewhere(s, g, id);
      }
    }
  }

  lemma OneGroupDependsOnGroups(s: State, t: State)
    requires s.groups == t.groups
    ensures OneGroupForAll(s) <==> OneGroupForAll(t)
  {
  }

  lemma AssignKeepsOneGroupExactlyWhen(s: State, g: string, id: string)
    requires Recorded(s) && OneGroupForAll(s)
    ensures OneGroupForAll(Assign(s, g, id).0) <==> !NamesUnknownLeader(s, AssignLeader(g, id))
  {
    if g in s.groups && Available(s, [id], Some(g)) {
      var ids := s.groups[g].leaderIds;
      var list := if id in ids then ids else ids + [id];
      var put := PutLeaders(s, g, list);
      PromoteEffect(put, [id], 1, g);
      OneGroupDependsOnGroups(put, Assign(s, g, id).0);
      assert [id][0] == id;
      PutKeepsOneGroupExactlyWhen(s, g, list);
      assert id in list;
      if UnknownElsewhere(s, g, id) {
        var i :| 0 <= i < |list| && list[i] == id;
      }
    } else if g in s.groups {
      assert [id][0] == id;
    }
  }

  lemma EditKeepsOneGroupExactlyWhen(s: State, g: string, ids: seq<string>)
    requires Recorded(s) && OneGroupForAll(s)
    ensures OneGroupForAll(Edit(s, g, ids).0) <==> !NamesUnknownLeader(s, EditGroup(g, ids))
  {
    if g in s.groups && !s.groups[g].deleted && ids != [] && Available(s, ids, Some(g)) {
      PromoteEffect(s, ids, |ids|, g);
      assert ids[..|ids|] == ids;
      if NoAdministrator(s, ids) {
        PutKeepsOneGroupExactlyWhen(s, g, ids);
        OneGroupDependsOnGroups(PutLeaders(s, g, ids), Edit(s, g, ids).0);
      } else {
        OneGroupDependsOnGroups(s, Edit(s, g, ids).0);
      }
    }
  }

  lemma CreateKeepsOneGroupExactlyWhen(s: State, g: string, ids: seq<string>)
    requires Recorded(s) && OneGroupForAll(s)
    ensures OneGroupForAll(Step(s, CreateGroup(g, ids))) <==> !NamesUnknownLeader(s, CreateGroup(g, ids))
  {
    if g !in s.groups && ids != [] && Available(s, ids, None) {
      var put := PutLeaders(s, g, ids);
      PromoteEffect(put, ids, |ids|, g);
      PutKeepsOneGroupExactlyWhen(s, g, ids);
      OneGroupDependsOnGroups(put, Create(s, g, ids).0);
    }
  }

  /** A user edit moves a known user only, so the records keep them apart. */
  lemma UserEditKeepsOneGroup(s: State, id: string, e: UserEdit)
    requires Recorded(s) && OneGroupForAll(s)
    ensures OneGroupForAll(EditUser(s, id, e).0)
  {
    if EditAllowed(s, id, e) {
      var t := EditUser(s, id, e).0;
      EditUserKeepsRecorded(s, id, e);
      forall g, h, x | g in t.groups && h in t.groups && x in t.groups[g].leaderIds && x in t.groups[h].leaderIds
        ensures g == h
      {
        if x != id {
          OnlyTheUserMoves(s, id, e, g, x);
          OnlyTheUserMoves(s, id, e, h, x);
        } else {
          assert x in t.users;
        }
      }
    }
  }

  lemma OnlyTheUserMoves(s: State, id: string, e: UserEdit, g: string, x: string)
    requires EditAllowed(s, id, e) && x != id && g in EditUser(s, id, e).0.groups
    requires x in EditUser(s, id, e).0.groups[g].leaderIds
    ensures g in s.groups && x in s.groups[g].leaderIds
  {
    var u := s.users[id];
    if u.led.Some? && u.led.value in s.groups {
      WithoutMembers(s.groups[u.led.value].leaderIds, id);
    }
  }

  /** Over all operations: the server keeps everybody in one group exactly unless it stores an unknown id twice. */
  lemma StepKeepsOneGroupForAllExactlyWhen(s: State, op: Operation)
    requires Recorded(s) && OneGroupForAll(s)
    ensures OneGroupForAll(Step(s, op)) <==> !NamesUnknownLeader(s, op)
  {
    match op
    case CreateGroup(g, ids) => CreateKeepsOneGroupExactlyWhen(s, g, ids);
    case EditGroup(g, ids) => EditKeepsOneGroupExactlyWhen(s, g, ids);
    case AssignLeader(g, id) => AssignKeepsOneGroupExactlyWhen(s, g, id);
    case ChangeUser(id, e) => UserEditKeepsOneGroup(s, id, e);
    case _ =>
  }

  /** After every operation of the run. */
  ghost predicate OneGroupThroughout(s: State, ops: seq<Operation>) {
    OneGroupForAll(Run(s, ops)) && (ops != [] ==> OneGroupThroughout(s, ops[..|ops| - 1]))
  }

  /** No operation of the run names an unknown id that another group lists. */
  ghost predicate NamesNoUnknownLeader(s: State, ops: seq<Operation>) {
    ops != [] ==>
      NamesNoUnknownLeader(s, ops[..|ops| - 1]) && !NamesUnknownLeader(Run(s, ops[..|ops| - 1]), ops[|ops| - 1])
  }

  /** The same over every run: nobody, known or not, is ever in two groups exactly while no operation does so. */
  lemma {:induction false} OneGroupThroughoutExactlyWhen(s: State, ops: seq<Operation>)
    requires Recorded(s) && RecordsNameGroups(s) && OneGroupForAll(s) && NamesNoAdministrator(s, ops)
    ensures OneGroupThroughout(s, ops) <==> NamesNoUnknownLeader(s, ops)
  {
    if ops != [] {
      var front := ops[..|ops| - 1];
      NamesNoneBefore(s, ops);
      OneGroupThroughoutExactlyWhen(s, front);
      NobodyLeadsTwoGroups(s, front);
      if OneGroupForAll(Run(s, front)) {
        StepKeepsOneGroupForAllExactlyWhen(Run(s, front), ops[|ops| - 1]);
      }
    }
  }

  // ---------- A group keeps a leader ----------

  ghost predicate EveryGroupLed(s: State) {
    forall g | g in s.groups :: s.groups[g].leaderIds != []
  }

  /** The user is the only leader of the group on their record. */
  ghost predicate LastLeader(s: State, id: string) {
    id in s.users && s.users[id].led.Some? && s.users[id].led.value in s.groups
    && forall x | x in s.groups[s.users[id].led.value].leaderIds :: x == id
  }

  /** A reassignment leaves a group without a leader exactly when its last leader moves to another group. */
  lemma ReassignKeepsGroupsLedExactlyWhen(s: State, id: string, g: string)
    requires EveryGroupLed(s)
    ensures EveryGroupLed(Reassign(s, id, g).0) <==> !(LastLeader(s, id) && s.users[id].led != Some(g))
  {
    var prior := if id in s.users then s.users[id].led else None;
    var t := Reassign(s, id, g).0;
    if prior.Some? && prior != Some(g) && prior.value in s.groups {
      WithoutEmpty(s.groups[prior.value].leaderIds, id);
      assert t.groups[prior.value].leaderIds == Without(s.groups[prior.value].leaderIds, id);
    }
  }

  /** An edit of a user moves the last leader of a group to another group. */
  ghost predicate MovesLastLeader(s: State, op: Operation) {
    op.ChangeUser? && EditAllowed(s, op.id, op.edit) && NewLed(s, op.id, op.edit).Some?
    && LastLeader(s, op.id) && s.users[op.id].led != NewLed(s, op.id, op.edit)
  }

  /** Of all operations only a move of a group's last leader leaves a group without a leader. */
  lemma StepKeepsGroupsLedExactlyWhen(s: State, op: Operation)
    requires EveryGroupLed(s)
    ensures EveryGroupLed(Step(s, op)) <==> !MovesLastLeader(s, op)
  {
    match op
    case CreateGroup(g, ids) => PromoteEffect(PutLeaders(s, g, ids), ids, |ids|, g);
    case EditGroup(g, ids) => PromoteEffect(s, ids, |ids|, g);
    case AssignLeader(g, id) =>
      if g in s.groups {
        var ids := s.groups[g].leaderIds;
        PromoteEffect(PutLeaders(s, g, if id in ids then ids else ids + [id]), [id], 1, g);
      }
    case ChangeUser(id, e) =>
      if EditAllowed(s, id, e) {
        if NewLed(s, id, e).Some? {
          ReassignKeepsGroupsLedExactlyWhen(s, id, NewLed(s, id, e).value);
        }
        assert Step(s, op).groups == MoveOrRelease(s, id, e).0.groups;
      }
    case _ =>
  }

  /** The only leader of one group is moved to another. */
  lemma LastLeaderMovedAway(id: string, other: string, g: string, h: string)
    requires g != h && id != other
    ensures var s := State(map[id := User(UserGroupLeader, Some(g))], map[g := Group([id], false), h := Group([other], false)]);
            var op := ChangeUser(id, UserEdit(UserGroupLeader, Some([h]), true, true));
            Recorded(s) && EveryGroupLed(s) && Step(s, op).groups[g].leaderIds == [] && Step(s, op).groups[h].leaderIds == [other, id]
  {
    assert [id][..0] == [] && Without([id], id) == [];
  }

  // ---------- What each operation does ----------

  /** The known ids are leaders of that group on record now, and everybody else's record is as it was. */
  ghost predicate RecordsPromoted(s: State, t: State, ids: seq<string>, g: string) {
    t.users.Keys == s.users.Keys
    && forall id | id in s.users :: t.users[id] == if id in ids then User(UserGroupLeader, Some(g)) else s.users[id]
  }

  /** Group `g` lists these leaders now, and every other group is as it was. */
  ghost predicate OnlyLists(s: State, t: State, g: string, ids: seq<string>) {
    t.groups.Keys == s.groups.Keys + {g} && t.groups[g].leaderIds == ids
    && (g in s.groups ==> t.groups[g].deleted == s.groups[g].deleted)
    && forall h | h in s.groups && h != g :: t.groups[h] == s.groups[h]
  }

  lemma AllPromoted(s: State, ids: seq<string>, g: string)
    ensures Promote(s, ids, |ids|, g).1.Accepted? <==> NoAdministrator(s, ids)
    ensures Promote(s, ids, |ids|, g).1.Accepted? ==> RecordsPromoted(s, Promote(s, ids, |ids|, g).0, ids, g)
    ensures Promote(s, ids, |ids|, g).0.groups == s.groups
  {
    var k := PromotesUpToAdministrator(s, ids, |ids|, g);
    PromoteEffect(s, ids, |ids|, g);
    assert ids[..|ids|] == ids;
  }

  /** When a creation is accepted and what it does; refused by a check it changes nothing, and a new group is live. */
  lemma CreateEffect(s: State, g: string, ids: seq<string>)
    requires g !in s.groups
    ensures var (t, o) := Create(s, g, ids);
            (o.Accepted? <==> ids != [] && Available(s, ids, None) && NoAdministrator(s, ids))
            && (o.Accepted? ==> OnlyLists(s, t, g, ids) && !t.groups[g].deleted && RecordsPromoted(s, t, ids, g))
            && (ids == [] || !Available(s, ids, None) ==> t == s)
  {
    AllPromoted(PutLeaders(s, g, ids), ids, g);
  }

  lemma EditEffect(s: State, g: string, ids: seq<string>)
    ensures var (t, o) := Edit(s, g, ids);
            (o.Accepted? <==> g in Live(s) && ids != [] && Available(s, ids, Some(g)) && NoAdministrator(s, ids))
            && (o.Accepted? ==> OnlyLists(s, t, g, ids) && RecordsPromoted(s, t, ids, g))
            && (o.Rejected? ==> t.groups == s.groups)
            && (g !in Live(s) || ids == [] || !Available(s, ids, Some(g)) ==> t == s)
  {
    AllPromoted(s, ids, g);
  }

  /** An assignment keeps the group's leaders in their order and adds the new one behind them, once. */
  lemma AssignEffect(s: State, g: string, id: string)
    ensures var (t, o) := Assign(s, g, id);
            (o.Accepted? <==> g in s.groups && Available(s, [id], Some(g)) && NoAdministrator(s, [id]))
            && (o.Accepted? ==> RecordsPromoted(s, t, [id], g)
                                && OnlyLists(s, t, g, if id in s.groups[g].leaderIds then s.groups[g].leaderIds
                                                      else s.groups[g].leaderIds + [id]))
            && (g !in s.groups || !Available(s, [id], Some(g)) ==> t == s)
  {
    if g in s.groups {
      var ids := s.groups[g].leaderIds;
      AllPromoted(PutLeaders(s, g, if id in ids then ids else ids + [id]), [id], g);
    }
  }

  /** Releasing takes the user out of that group's list and clears the record if it named the group, and no more. */
  lemma ReleaseEffect(s: State, id: string, g: string)
    ensures var t := Release(s, id, g);
            t.groups.Keys == s.groups.Keys && t.users.Keys == s.users.Keys
            && (forall h, x | h in s.groups :: x in t.groups[h].leaderIds <==>
                                               x in s.groups[h].leaderIds && !(h == g && x == id))
            && (forall h | h in s.groups :: t.groups[h].deleted == s.groups[h].deleted)
            && (forall x | x in s.users && x != id :: t.users[x] == s.users[x])
            && (id in s.users ==> t.users[id].role == s.users[id].role
                                  && t.users[id].led == if s.users[id].led == Some(g) then None else s.users[id].led)
  {
    if g in s.groups {
      WithoutMembers(s.groups[g].leaderIds, id);
    }
  }

  /** A reassignment is accepted exactly when the group exists; it takes the user out of the group on record only. */
  lemma ReassignEffect(s: State, id: string, g: string)
    ensures var (t, o) := Reassign(s, id, g);
            (o.Accepted? <==> g in s.groups) && t.groups.Keys == s.groups.Keys && t.users.Keys == s.users.Keys
            && (forall h, x | h in s.groups && x != id :: x in t.groups[h].leaderIds <==> x in s.groups[h].leaderIds)
            && (forall x | x in s.users && x != id :: t.users[x] == s.users[x])
            && (id in s.users ==> t.users[id].role == s.users[id].role)
            && (o.Accepted? ==> id in t.groups[g].leaderIds && (id in s.users ==> t.users[id].led == Some(g)))
            && (forall h | h in s.groups && h != g :: id in t.groups[h].leaderIds <==>
                             id in s.groups[h].leaderIds && !(id in s.users && s.users[id].led == Some(h)))
            && (o.Rejected? && id in s.users ==> t.users[id].led == None || t == s)
  {
    var prior := if id in s.users then s.users[id].led else None;
    if prior.Some? && prior != Some(g) {
      ReleaseEffect(s, id, prior.value);
    }
  }

  /** Who leads what after an accepted edit of a user: the group asked for, none, or what it was. */
  lemma EditUserEffect(s: State, id: string, e: UserEdit)
    ensures var (t, o) := EditUser(s, id, e);
            t.users.Keys == s.users.Keys && t.groups.Keys == s.groups.Keys
            && (forall x | x in s.users && x != id :: t.users[x] == s.users[x])
            && (forall h, x | h in s.groups && x != id :: x in t.groups[h].leaderIds <==> x in s.groups[h].leaderIds)
            && (!EditAllowed(s, id, e) ==> o.Rejected? && t == s)
            && (o.Rejected? && id in s.users ==> t.users[id].role == s.users[id].role)
            && (o.Accepted? ==> id in s.users && t.users[id].role == e.role
                                && t.users[id].led == if e.role == UserGroupLeader && Wanted(e) != [] then Some(Wanted(e)[0])
                                                      else if e.role != UserGroupLeader && s.users[id].role == UserGroupLeader then None
                                                      else s.users[id].led)
            && (o.Accepted? && e.role == UserGroupLeader && Wanted(e) != [] ==>
                  Wanted(e)[0] in t.groups && id in t.groups[Wanted(e)[0]].leaderIds)
  {
    if EditAllowed(s, id, e) {
      var u := s.users[id];
      if NewLed(s, id, e).Some? {
        ReassignEffect(s, id, NewLed(s, id, e).value);
      } else if u.led.Some? {
        ReleaseEffect(s, id, u.led.value);
      }
    }
  }

  /** A user who stops being a group leader is no longer listed by the group they led. */
  lemma LeavingRoleLeavesGroup(s: State, id: string, e: UserEdit, g: string)
    requires id in s.users && s.users[id] == User(UserGroupLeader, Some(g)) && e.role != UserGroupLeader
    requires EditUser(s, id, e).1.Accepted? && g in s.groups
    ensures id !in EditUser(s, id, e).0.groups[g].leaderIds && EditUser(s, id, e).0.groups[g].leaderIds != []
  {
    ReleaseEffect(s, id, g);
    WithoutEmpty(s.groups[g].leaderIds, id);
  }

  /**
   A user edit is accepted exactly when: the user exists; an administrator or community leader is given no group and
   a group leader one at most; another community leader remains if one steps down; a group leader who steps down
   leaves another one in their group; and every group named exists.
   */
  lemma EditUserAcceptedExactlyWhen(s: State, id: string, e: UserEdit)
    ensures EditUser(s, id, e).1.Accepted? <==>
            id in s.users
            && (var u, named := s.users[id], if e.wanted.Some? then e.wanted.value else [];
                (e.role == Administrator || e.role == CommunityLeader ==> named == [])
                && (e.role == UserGroupLeader ==> |named| <= 1 && forall g | g in named :: g in s.groups)
                && (u.role == CommunityLeader && e.role != CommunityLeader ==> e.spare)
                && (u.role == UserGroupLeader && e.role != UserGroupLeader && u.led.Some? && u.led.value in s.groups ==>
                      exists x :: x in s.groups[u.led.value].leaderIds && x != id)
                && (u.role != UserGroupLeader && e.role == UserGroupLeader && named == [] && u.led.Some? ==>
                      u.led.value in s.groups)
                && (e.role == Member && e.wanted.Some? ==> e.joined))
  {
    if id in s.users {
      var u := s.users[id];
      if u.led.Some? && u.led.value in s.groups {
        WithoutEmpty(s.groups[u.led.value].leaderIds, id);
      }
      if NewLed(s, id, e).Some? {
        ReassignEffect(s, id, NewLed(s, id, e).value);
      }
    }
  }

  /**
   An edit refused half-way, because a group to move to or to join does not exist, has already taken the user out of
   the group they led, while the role stays.
   */
  lemma RefusedEditHasReleased(s: State, id: string, e: UserEdit, g: string)
    requires EditAllowed(s, id, e) && EditUser(s, id, e).1.Rejected? && s.users[id].led == Some(g)
    requires (s.users[id].role == UserGroupLeader && e.role == Member)
             || (e.role == UserGroupLeader && Wanted(e) != [] && Wanted(e)[0] != g)
    ensures EditUser(s, id, e).0.users[id] == s.users[id].(led := None)
    ensures g in s.groups ==> id !in EditUser(s, id, e).0.groups[g].leaderIds
  {
    ReleaseEffect(s, id, g);
  }

  /** A deleted group is off the groups list with its leaders kept, and restoring it brings it back as it was. */
  lemma DeleteThenRestore(s: State, g: string)
    requires g in Live(s)
    ensures var deleted := Step(s, DeleteGroup(g));
            Live(deleted) == Live(s) - {g} && deleted.users == s.users
            && Step(deleted, RestoreGroup(g)) == s
  {
    var deleted := Step(s, DeleteGroup(g));
    assert deleted.groups[g := s.groups[g]] == s.groups;
  }

  // ---------- The picker against the server ----------

  /** The user's record names a group that does not list them, or that is deleted and so not shown to the picker. */
  ghost predicate Stale(s: State, id: string) {
    id in s.users && s.users[id].led.Some?
    && (s.users[id].led.value in s.groups ==>
          id !in s.groups[s.users[id].led.value].leaderIds || s.groups[s.users[id].led.value].deleted)
  }

  /** The leaders of every group that is not deleted. */
  function Live(s: State): map<string, seq<string>> {
    map g | g in s.groups && !s.groups[g].deleted :: s.groups[g].leaderIds
  }

  lemma LiveAfterPut(s: State, g: string, ids: seq<string>)
    requires g in s.groups ==> !s.groups[g].deleted
    ensures Live(PutLeaders(s, g, ids)) == Live(s)[g := ids]
  {
  }

  /** An edit or a creation stores the list as it is or leaves the groups alone. */
  lemma EditStoresOrRefuses(s: State, g: string, ids: seq<string>)
    ensures Edit(s, g, ids).0.groups == s.groups || Live(Edit(s, g, ids).0) == Live(s)[g := ids]
  {
    if Edit(s, g, ids).0.groups != s.groups {
      PromoteEffect(s, ids, |ids|, g);
      LiveAfterPut(Promote(s, ids, |ids|, g).0, g, ids);
    }
  }

  lemma CreateStoresOrRefuses(s: State, g: string, ids: seq<string>)
    requires g !in s.groups
    ensures Create(s, g, ids).0.groups == s.groups || Live(Create(s, g, ids).0) == Live(s)[g := ids]
  {
    PromoteEffect(PutLeaders(s, g, ids), ids, |ids|, g);
    LiveAfterPut(s, g, ids);
  }

  /** The groups list the picker loads. */
  ghost predicate Lists(s: State, allGroups: seq<LeaderPicker.GroupEntry>) {
    LeaderPicker.IsListOf(allGroups, Live(s))
  }

  lemma ListedLeaderIsAssigned(s: State, allGroups: seq<LeaderPicker.GroupEntry>, editing: Option<string>, h: string, id: string)
    requires Lists(s, allGroups) && h in s.groups && !s.groups[h].deleted && Some(h) != editing
    requires id in s.groups[h].leaderIds
    ensures id in LeaderPicker.AssignedElsewhere(allGroups, editing)
  {
    assert h in Live(s);
    var i :| 0 <= i < |allGroups| && allGroups[i].id == h;
    assert allGroups[i] in allGroups;
  }

  lemma AssignedIsOnRecord(s: State, allGroups: seq<LeaderPicker.GroupEntry>, editing: Option<string>, id: string)
    requires Recorded(s) && Lists(s, allGroups) && id in s.users
    requires id in LeaderPicker.AssignedElsewhere(allGroups, editing)
    ensures s.users[id].led.Some? && s.users[id].led.value in s.groups
    ensures id in s.groups[s.users[id].led.value].leaderIds
  {
    var e :| e in allGroups && Some(e.id) != editing && id in e.leaderIds;
    var i :| 0 <= i < |allGroups| && allGroups[i] == e;
  }

  /**
   Someone the picker offers for a group (none when creating) because they lead no other listed group is accepted
   by the server exactly when their record is not a stale one naming another group.
   */
  lemma OfferedIsAcceptedExactlyWhen(s: State, allGroups: seq<LeaderPicker.GroupEntry>, editing: Option<string>, id: string)
    requires Recorded(s) && Lists(s, allGroups)
    requires id !in LeaderPicker.AssignedElsewhere(allGroups, editing)
    ensures Available(s, [id], editing) <==> !(Stale(s, id) && s.users[id].led != editing)
  {
    assert [id][0] == id;
    if id in s.users && s.users[id].led.Some? && s.users[id].led != editing && !Stale(s, id) {
      ListedLeaderIsAssigned(s, allGroups, editing, s.users[id].led.value, id);
    }
  }

  /**
   An edit that removes a known leader leaves that leader's record in place: the picker offers them for a new
   group, and the server refuses them.
   */
  lemma RemovedLeaderIsOfferedButRefused(s: State, g: string, ids: seq<string>, id: string,
                                         allGroups: seq<LeaderPicker.GroupEntry>)
    requires Recorded(s) && id in s.users && g in s.groups && id in s.groups[g].leaderIds && id !in ids
    requires Edit(s, g, ids).1.Accepted? && Lists(Edit(s, g, ids).0, allGroups)
    ensures var t := Edit(s, g, ids).0;
            id !in LeaderPicker.AssignedElsewhere(allGroups, None)
            && Stale(t, id) && forall h :: h !in t.groups ==> Create(t, h, [id]) == (t, Rejected)
  {
    var t := Edit(s, g, ids).0;
    PromoteEffect(s, ids, |ids|, g);
    EditKeepsRecorded(s, g, ids);
    assert ids[..|ids|] == ids;
    assert t.users[id] == s.users[id];
    assert [id][0] == id && !Available(t, [id], None);
    if id in LeaderPicker.AssignedElsewhere(allGroups, None) {
      AssignedIsOnRecord(t, allGroups, None, id);
    }
  }

  /** Such an edit: the one leader of a group is replaced by another. */
  lemma ReplacedLeaderIsRefused(g: string, h: string, id: string, other: string)
    requires id != other && g != h
    ensures var s := State(map[id := User(UserGroupLeader, Some(g)), other := User(Member, None)], map[g := Group([id], false)]);
            var (t, o) := Edit(s, g, [other]);
            Recorded(s) && o.Accepted? && Lists(t, [LeaderPicker.GroupEntry(g, [other])])
            && id !in LeaderPicker.AssignedElsewhere([LeaderPicker.GroupEntry(g, [other])], None)
            && Create(t, h, [id]) == (t, Rejected)
  {
    var s := State(map[id := User(UserGroupLeader, Some(g)), other := User(Member, None)], map[g := Group([id], false)]);
    assert [other][0] == other && [other][..1] == [other];
    PromoteEffect(s, [other], 1, g);
    var t := Edit(s, g, [other]).0;
    var listed := [LeaderPicker.GroupEntry(g, [other])];
    assert Live(t) == map[g := [other]];
    assert listed[0].id == g;
    RemovedLeaderIsOfferedButRefused(s, g, [other], id, listed);
  }
}
