/**
 The materialised projection of the membership log: one row per current member and one counter per group.
 It is kept up to date by `append_membership_event` (the identity-access repository) and repaired from the
 log by `infra/tools/backfill_group_members.py`.
 */
module MembershipProjection {
  import opened MembershipLog

  /** A projection row; an empty search key is a missing one. */
  datatype Row = Row(joinedAt: nat, searchKey: string)

  /** Rows by group and member, counters by group, search keys by member. */
  datatype View = View(log: seq<Event>, rows: map<string, map<string, Row>>, counts: map<string, int>,
                       profiles: map<string, string>)

  function RowsOf(v: View, g: string): map<string, Row> {
    if g in v.rows then v.rows[g] else map[]
  }

  function CountOf(v: View, g: string): int {
    if g in v.counts then v.counts[g] else 0
  }

  function SearchKey(v: View, m: string): string {
    if m in v.profiles then v.profiles[m] else ""
  }

  // ---------- Live maintenance ----------

  /** A missing time keeps the one recorded before. */
  function RefreshedTime(at: nat, before: nat): nat {
    if at != 0 then at else before
  }

  function PutMember(v: View, g: string, m: string, at: nat): View {
    var rows := RowsOf(v, g);
    if m in rows then
      v.(rows := v.rows[g := rows[m := Row(RefreshedTime(at, rows[m].joinedAt), SearchKey(v, m))]])
    else
      v.(rows := v.rows[g := rows[m := Row(at, SearchKey(v, m))]], counts := v.counts[g := CountOf(v, g) + 1])
  }

  function DeleteMember(v: View, g: string, m: string): View {
    var rows := RowsOf(v, g);
    if m in rows then
      v.(rows := v.rows[g := rows - {m}], counts := v.counts[g := CountOf(v, g) - 1])
    else v
  }

  function Append(v: View, e: Event): View {
    var logged := v.(log := v.log + [e]);
    if IsStart(e) then PutMember(logged, e.groupId, e.memberId, e.at)
    else if IsEnd(e) then DeleteMember(logged, e.groupId, e.memberId)
    else logged
  }

  function AppendAll(v: View, es: seq<Event>): View {
    if es == [] then v else Append(AppendAll(v, es[..|es| - 1]), es[|es| - 1])
  }

  // ---------- Repair ----------

  /** Members of the derived map without a row, or whose row lacks a search key. */
  function ToWrite(rows: map<string, Row>, current: map<string, nat>): set<string> {
    set m | m in current && (m !in rows || rows[m].searchKey == "")
  }

  function ToRemove(rows: map<string, Row>, current: map<string, nat>): set<string> {
    set m | m in rows && m !in current
  }

  function RepairedRows(v: View, g: string, current: map<string, nat>): map<string, Row> {
    map m | m in current ::
      if m in ToWrite(RowsOf(v, g), current) then Row(current[m], SearchKey(v, m)) else RowsOf(v, g)[m]
  }

  /** The rows after a put for each of the given members. */
  function Written(rows: map<string, Row>, members: set<string>, current: map<string, nat>,
                   profiles: map<string, string>): map<string, Row>
    requires members <= current.Keys
  {
    map m | m in rows.Keys + members ::
      if m in members then Row(current[m], if m in profiles then profiles[m] else "") else rows[m]
  }

  lemma WrittenNone(rows: map<string, Row>, current: map<string, nat>, profiles: map<string, string>)
    ensures Written(rows, {}, current, profiles) == rows
  {
    assert rows.Keys + {} == rows.Keys;
  }

  lemma WrittenOneMore(rows: map<string, Row>, done: set<string>, m: string, current: map<string, nat>,
                       profiles: map<string, string>)
    requires done <= current.Keys && m in current
    ensures Written(rows, done + {m}, current, profiles) ==
            Written(rows, done, current, profiles)[m := Row(current[m], if m in profiles then profiles[m] else "")]
  {
  }

  lemma DoneOneMore<T>(all: set<T>, todo: set<T>, x: T)
    requires x in todo && todo <= all
    ensures (all - todo) + {x} == all - (todo - {x})
  {
  }

  /** The write loop: one put per member to write, in any order. */
  method WriteRows(present: map<string, Row>, members: set<string>, current: map<string, nat>,
                   profiles: map<string, string>) returns (rows: map<string, Row>)
    requires members <= current.Keys
    ensures rows == Written(present, members, current, profiles)
  {
    rows := present;
    var todo := members;
    ghost var done: set<string> := {};
    WrittenNone(present, current, profiles);
    while todo != {}
      invariant todo <= members && done == members - todo && done <= current.Keys
      invariant rows == Written(present, done, current, profiles)
      decreases todo
    {
      var m :| m in todo;
      WrittenOneMore(present, done, m, current, profiles);
      rows := rows[m := Row(current[m], if m in profiles then profiles[m] else "")];
      DoneOneMore(members, todo, m);
      todo, done := todo - {m}, done + {m};
    }
    assert done == members;
  }

  /** Writing what is to be written and deleting what is to be removed gives the repaired rows. */
  lemma RepairedByParts(v: View, g: string, current: map<string, nat>)
    ensures var rows := RowsOf(v, g);
            Written(rows, ToWrite(rows, current), current, v.profiles) - ToRemove(rows, current)
            == RepairedRows(v, g, current)
  {
  }

  /** One group's repair from the events its query returned. */
  function Repair(v: View, g: string, events: seq<Event>): View {
    var current := Derived(events);
    v.(rows := v.rows[g := RepairedRows(v, g, current)], counts := v.counts[g := |current|])
  }

  /** The tool over a list of groups; a dry run writes nothing. */
  function RepairAll(v: View, groups: seq<string>, events: map<string, seq<Event>>, dryRun: bool): View {
    if groups == [] || dryRun then v
    else
      var g := groups[|groups| - 1];
      Repair(RepairAll(v, groups[..|groups| - 1], events, dryRun), g, if g in events then events[g] else [])
  }

  /** The table as the service and the tool update it. */
  class Table {
    var log: seq<Event>
    var rows: map<string, map<string, Row>>
    var counts: map<string, int>
    var profiles: map<string, string>

    ghost function Contents(): View
      reads this
    {
      View(log, rows, counts, profiles)
    }

    constructor (profiles: map<string, string>)
      ensures Contents() == View([], map[], map[], profiles)
    {
      log, rows, counts, this.profiles := [], map[], map[], profiles;
    }

    method PutGroupMember(g: string, m: string, at: nat) returns (isNew: bool)
      modifies this`rows, this`counts
      ensures Contents() == PutMember(old(Contents()), g, m, at)
      ensures isNew <==> m !in RowsOf(old(Contents()), g)
    {
      var key := if m in profiles then profiles[m] else "";
      var groupRows := if g in rows then rows[g] else map[];
      if m !in groupRows {
        rows := rows[g := groupRows[m := Row(at, key)]];
        counts := counts[g := (if g in counts then counts[g] else 0) + 1];
        return true;
      }
      var before := groupRows[m].joinedAt;
      rows := rows[g := groupRows[m := Row(if at != 0 then at else before, key)]];
      return false;
    }

    method DeleteGroupMember(g: string, m: string) returns (removed: bool)
      modifies this`rows, this`counts
      ensures Contents() == DeleteMember(old(Contents()), g, m)
      ensures removed <==> m in RowsOf(old(Contents()), g)
    {
      if g !in rows || m !in rows[g] {
        return false;
      }
      rows := rows[g := rows[g] - {m}];
      counts := counts[g := (if g in counts then counts[g] else 0) - 1];
      return true;
    }

    method AppendMembershipEvent(e: Event)
      modifies this
      ensures Contents() == Append(old(Contents()), e)
    {
      log := log + [e];
      if IsStart(e) {
        var _ := PutGroupMember(e.groupId, e.memberId, e.at);
      } else if IsEnd(e) {
        var _ := DeleteGroupMember(e.groupId, e.memberId);
      }
    }

    method RepairGroup(g: string, events: seq<Event>)
      modifies this`rows, this`counts
      ensures Contents() == Repair(old(Contents()), g, events)
    {
      var current := Derive(events);
      var present := if g in rows then rows[g] else map[];
      var toWrite := set m | m in current && (m !in present || present[m].searchKey == "");
      var toRemove := set m | m in present && m !in current;
      var written := WriteRows(present, toWrite, current, profiles);
      RepairedByParts(Contents(), g, current);
      rows := rows[g := written - toRemove];
      counts := counts[g := |current|];
    }

    method RunBackfill(groups: seq<string>, events: map<string, seq<Event>>, dryRun: bool)
      modifies this`rows, this`counts
      ensures Contents() == RepairAll(old(Contents()), groups, events, dryRun)
      ensures dryRun ==> Contents() == old(Contents())
    {
      for i := 0 to |groups|
        invariant Contents() == RepairAll(old(Contents()), groups[..i], events, dryRun)
      {
        assert groups[..i + 1][..i] == groups[..i];
        if dryRun {
          continue;
        }
        RepairGroup(groups[i], if groups[i] in events then events[groups[i]] else []);
      }
      assert groups[..|groups|] == groups;
    }
  }
}
