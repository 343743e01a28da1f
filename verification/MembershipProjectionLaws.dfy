/**
 The projection against the log: the counter is always the number of rows, live rows follow arrival order,
 when that equals a replay of the log, and what a repair run restores from any table.
 */
module MembershipProjectionLaws {
  import opened Prelude
  import opened MembershipLog
  import opened MembershipLaws
  import opened MembershipProjection

  // ---------- The counter ----------

  ghost predicate CountExact(v: View, g: string) {
    CountOf(v, g) == |RowsOf(v, g)|
  }

  lemma CardinalityOfPut<V>(m: map<string, V>, k: string, v: V)
    ensures |m[k := v]| == if k in m then |m| else |m| + 1
  {
    if k in m {
      assert m[k := v].Keys == m.Keys;
    } else {
      assert m[k := v].Keys == m.Keys + {k};
    }
    assert |m.Keys| == |m| && |m[k := v].Keys| == |m[k := v]|;
  }

  lemma CardinalityOfDelete<V>(m: map<string, V>, k: string)
    requires k in m
    ensures |m - {k}| == |m| - 1
  {
    assert (m - {k}).Keys == m.Keys - {k};
    assert |m.Keys| == |m| && |(m - {k}).Keys| == |m - {k}|;
  }

  /** No event, repeated, late or for a non-member, moves a counter away from its rows. */
  lemma AppendKeepsCount(v: View, e: Event, g: string)
    requires CountExact(v, g)
    ensures CountExact(Append(v, e), g)
  {
    var rows := RowsOf(v, g);
    if e.groupId == g {
      if IsStart(e) {
        var before := if e.memberId in rows then rows[e.memberId].joinedAt else 0;
        CardinalityOfPut(rows, e.memberId, Row(if e.memberId in rows then RefreshedTime(e.at, before) else e.at,
                                               SearchKey(v, e.memberId)));
      } else if IsEnd(e) && e.memberId in rows {
        CardinalityOfDelete(rows, e.memberId);
      }
    }
  }

  lemma {:induction false} CounterNeverDrifts(v: View, es: seq<Event>, g: string)
    requires CountExact(v, g)
    ensures CountExact(AppendAll(v, es), g)
  {
    if es != [] {
      CounterNeverDrifts(v, es[..|es| - 1], g);
      AppendKeepsCount(AppendAll(v, es[..|es| - 1]), es[|es| - 1], g);
    }
  }

  // ---------- The search key of a row ----------

  /** Every row has the search key of its member's profile. */
  ghost predicate KeysCurrent(v: View) {
    forall g, m | g in v.rows && m in v.rows[g] ::
      v.rows[g][m].searchKey == if m in v.profiles then v.profiles[m] else ""
  }

  lemma AppendKeepsKeys(v: View, e: Event)
    requires KeysCurrent(v)
    ensures KeysCurrent(Append(v, e)) && Append(v, e).profiles == v.profiles
  {
  }

  /** Every row a live event writes has the search key of its member's profile, on a first join and on a repeated one. */
  lemma {:induction false} LiveRowsHaveSearchKeys(v: View, es: seq<Event>)
    requires KeysCurrent(v)
    ensures KeysCurrent(AppendAll(v, es)) && AppendAll(v, es).profiles == v.profiles
  {
    if es != [] {
      LiveRowsHaveSearchKeys(v, es[..|es| - 1]);
      AppendKeepsKeys(AppendAll(v, es[..|es| - 1]), es[|es| - 1]);
    }
  }

  /** A join refreshes the row of someone whose profile has changed since. */
  lemma RepeatedJoinRefreshesKey(v: View, e: Event)
    requires IsStart(e)
    ensures e.memberId in RowsOf(Append(v, e), e.groupId)
    ensures RowsOf(Append(v, e), e.groupId)[e.memberId].searchKey == if e.memberId in v.profiles then v.profiles[e.memberId] else ""
  {
  }

  /** A repeated join without a time keeps the join time on record; one with a time replaces it. */
  lemma RepeatedJoinKeepsTime(v: View, e: Event)
    requires IsStart(e) && e.memberId in RowsOf(v, e.groupId)
    ensures e.memberId in RowsOf(Append(v, e), e.groupId)
    ensures e.at == 0 ==> RowsOf(Append(v, e), e.groupId)[e.memberId].joinedAt == RowsOf(v, e.groupId)[e.memberId].joinedAt
    ensures e.at != 0 ==> RowsOf(Append(v, e), e.groupId)[e.memberId].joinedAt == e.at
  {
  }

  // ---------- Live rows follow arrival order ----------

  predicate EndsInStart(es: seq<Event>) {
    es != [] && IsStart(es[|es| - 1])
  }

  function EmptyView(profiles: map<string, string>): View {
    View([], map[], map[], profiles)
  }

  lemma LogAfterAppend(v: View, e: Event)
    ensures Append(v, e).log == v.log + [e] && Append(v, e).profiles == v.profiles
  {
  }

  lemma AssociateLast<T>(a: seq<T>, b: seq<T>)
    requires b != []
    ensures a + b[..|b| - 1] + [b[|b| - 1]] == a + b
  {
  }

  lemma {:induction false} LogGrows(v: View, es: seq<Event>)
    ensures AppendAll(v, es).log == v.log + es && AppendAll(v, es).profiles == v.profiles
  {
    if es != [] {
      LogGrows(v, es[..|es| - 1]);
      LogAfterAppend(AppendAll(v, es[..|es| - 1]), es[|es| - 1]);
      AssociateLast(v.log, es);
    }
  }

  /** What one event does to a pair's join time, if the pair has a row. */
  function RowStep(row: Option<nat>, e: Event): Option<nat> {
    if IsStart(e) then Some(if row.Some? then RefreshedTime(e.at, row.value) else e.at)
    else if IsEnd(e) then None
    else row
  }

  /** The join time of the pair's row after its events arrived in this order. */
  function ArrivalRow(pair: seq<Event>): Option<nat> {
    if pair == [] then None else RowStep(ArrivalRow(pair[..|pair| - 1]), pair[|pair| - 1])
  }

  function JoinTime(v: View, g: string, m: string): Option<nat> {
    if m in RowsOf(v, g) then Some(RowsOf(v, g)[m].joinedAt) else None
  }

  lemma AppendStepsRow(v: View, e: Event, g: string, m: string)
    ensures JoinTime(Append(v, e), g, m) ==
            if Picks(Pair(g, m, true), e) then RowStep(JoinTime(v, g, m), e) else JoinTime(v, g, m)
  {
  }

  /** A pair's row depends only on the pair's known events in their order of arrival. */
  lemma {:induction false} RowsFollowArrival(profiles: map<string, string>, es: seq<Event>, g: string, m: string)
    ensures JoinTime(AppendAll(EmptyView(profiles), es), g, m) == ArrivalRow(Select(es, Pair(g, m, true)))
  {
    if es != [] {
      var front, e := es[..|es| - 1], es[|es| - 1];
      RowsFollowArrival(profiles, front, g, m);
      AppendStepsRow(AppendAll(EmptyView(profiles), front), e, g, m);
      Snoc(Select(front, Pair(g, m, true)), e);
    }
  }

  lemma {:induction false} KnownArrivals(es: seq<Event>, g: string, m: string)
    ensures var pair := Select(es, Pair(g, m, true));
            (forall e | e in pair :: IsKnown(e)) && (ArrivalRow(pair).Some? <==> EndsInStart(pair))
  {
    if es != [] {
      KnownArrivals(es[..|es| - 1], g, m);
    }
  }

  lemma {:induction false} SelectTwice(es: seq<Event>, g: string, m: string)
    ensures Select(Select(es, OfGroup(g)), KnownOfMember(m)) == Select(es, Pair(g, m, true))
  {
    if es != [] {
      var front, e := es[..|es| - 1], es[|es| - 1];
      SelectTwice(front, g, m);
      Snoc(Select(front, OfGroup(g)), e);
    }
  }

  /** What replaying the log says about a group. */
  function Replayed(log: seq<Event>, g: string): map<string, nat> {
    Derived(Select(log, OfGroup(g)))
  }

  function Lookup<V>(m: map<string, V>, k: string): Option<V> {
    if k in m then Some(m[k]) else None
  }

  /** The join time if the latest of a pair's known events is a start. */
  function Status(pair: seq<Event>): Option<nat> {
    if On(pair) then Some(Latest(pair).value.at) else None
  }

  lemma ReplayedStatus(log: seq<Event>, g: string, m: string)
    ensures Lookup(Replayed(log, g), m) == if m == "" then None else Status(Select(log, Pair(g, m, true)))
  {
    ReplayedIsLatest(log, g, m);
  }

  lemma ReplayedIsLatest(log: seq<Event>, g: string, m: string)
    ensures "" !in Replayed(log, g)
    ensures m != "" ==> (m in Replayed(log, g) <==> On(Select(log, Pair(g, m, true))))
    ensures m in Replayed(log, g) ==> Replayed(log, g)[m] == Latest(Select(log, Pair(g, m, true))).value.at
  {
    DerivedIsLatest(Select(log, OfGroup(g)), m);
    SelectTwice(log, g, m);
  }

  /** Live and replay agree about a pair exactly when the last event to arrive and the latest one have one status. */
  lemma LiveEqualsReplayExactlyWhen(profiles: map<string, string>, es: seq<Event>, g: string, m: string)
    requires m != ""
    ensures var pair := Select(es, Pair(g, m, true));
            (m in RowsOf(AppendAll(EmptyView(profiles), es), g) <==> m in Replayed(es, g))
            <==> (EndsInStart(pair) <==> On(pair))
  {
    RowsFollowArrival(profiles, es, g, m);
    KnownArrivals(es, g, m);
    ReplayedIsLatest(es, g, m);
  }

  lemma SelectBoth(es: seq<Event>, q: Query)
    requires |es| == 2 && Picks(q, es[0]) && Picks(q, es[1])
    ensures Select(es, q) == es && Latest(es) == if es[0].at > es[1].at then Some(es[0]) else Some(es[1])
  {
    SelectTwo(es[0], es[1], q);
    assert es == [es[0], es[1]];
  }

  /** They do differ: a leave that arrives after a later join removes a row the replay keeps. */
  lemma LateLeaveSplitsLiveAndReplay(profiles: map<string, string>, es: seq<Event>, g: string, m: string)
    requires m != "" && |es| == 2 && IsStart(es[0]) && IsEnd(es[1]) && es[1].at < es[0].at
    requires forall i | 0 <= i < 2 :: es[i].memberId == m && es[i].groupId == g
    ensures m !in RowsOf(AppendAll(EmptyView(profiles), es), g) && m in Replayed(es, g)
  {
    SelectBoth(es, Pair(g, m, true));
    LiveEqualsReplayExactlyWhen(profiles, es, g, m);
    ReplayedIsLatest(es, g, m);
  }

  lemma SortedFront(s: seq<Event>)
    requires s != [] && Sorted(s)
    ensures Sorted(s[..|s| - 1]) && forall e | e in s[..|s| - 1] :: e.at <= s[|s| - 1].at
  {
  }

  /** For events in time order the last to arrive is the latest. */
  lemma {:induction false} ArrivalIsLatest(pair: seq<Event>)
    requires Sorted(pair) && forall e | e in pair :: IsKnown(e)
    ensures ArrivalRow(pair) == if On(pair) then Some(Latest(pair).value.at) else None
  {
    if pair != [] {
      var front := pair[..|pair| - 1];
      SortedFront(pair);
      ArrivalIsLatest(front);
      LatestIsGreatest(front);
      assert IsKnown(pair[|pair| - 1]);
      if On(front) {
        assert Latest(front).value.at <= pair[|pair| - 1].at;
      }
      LatestAfterAppend(front, pair[|pair| - 1]);
      assert front + [pair[|pair| - 1]] == pair;
    }
  }

  /** When a pair's events arrive in time order its live row is the replayed one, join time included. */
  lemma InOrderLiveEqualsReplay(profiles: map<string, string>, es: seq<Event>, g: string, m: string)
    requires m != "" && Sorted(Select(es, Pair(g, m, true)))
    ensures JoinTime(AppendAll(EmptyView(profiles), es), g, m) ==
            if m in Replayed(es, g) then Some(Replayed(es, g)[m]) else None
  {
    RowsFollowArrival(profiles, es, g, m);
    ReplayedIsLatest(es, g, m);
    KnownArrivals(es, g, m);
    ArrivalIsLatest(Select(es, Pair(g, m, true)));
  }

  // ---------- One more event ----------

  /** The pair's latest known event is not later than `e`. */
  predicate OnTime(log: seq<Event>, e: Event) {
    var pair := Select(log, Pair(e.groupId, e.memberId, true));
    Latest(pair).Some? ==> Latest(pair).value.at <= e.at
  }

  lemma PairAfterAppend(log: seq<Event>, e: Event, g: string, m: string)
    ensures Select(log + [e], Pair(g, m, true)) ==
            if Picks(Pair(g, m, true), e) then Select(log, Pair(g, m, true)) + [e] else Select(log, Pair(g, m, true))
  {
    Snoc(log, e);
  }

  /** Whether an event counts for the replay of its group. */
  predicate Counts(log: seq<Event>, e: Event) {
    e.memberId != "" && IsKnown(e) && OnTime(log, e)
  }

  lemma StatusStep(pair: seq<Event>, e: Event)
    ensures Status(pair + [e]) ==
            if Latest(pair).Some? && Latest(pair).value.at > e.at then Status(pair)
            else if IsStart(e) then Some(e.at) else None
  {
    LatestAfterAppend(pair, e);
  }

  /** What the event makes of the pair's entry in the replayed map. */
  function EntryStep(log: seq<Event>, e: Event, g: string, m: string, entry: Option<nat>): Option<nat> {
    if g == e.groupId && m == e.memberId && Counts(log, e) then if IsStart(e) then Some(e.at) else None
    else entry
  }

  lemma StatusAfterAppend(log: seq<Event>, e: Event, g: string, m: string)
    requires m != ""
    ensures Status(Select(log + [e], Pair(g, m, true))) == EntryStep(log, e, g, m, Status(Select(log, Pair(g, m, true))))
  {
    PairAfterAppend(log, e, g, m);
    StatusStep(Select(log, Pair(g, m, true)), e);
  }

  lemma ReplayStepAt(log: seq<Event>, e: Event, g: string, m: string)
    ensures Lookup(Replayed(log + [e], g), m) == EntryStep(log, e, g, m, Lookup(Replayed(log, g), m))
  {
    ReplayedStatus(log, g, m);
    ReplayedStatus(log + [e], g, m);
    if m != "" {
      StatusAfterAppend(log, e, g, m);
    }
  }

  lemma SameLookups<V>(a: map<string, V>, b: map<string, V>)
    requires forall k :: Lookup(a, k) == Lookup(b, k)
    ensures a == b
  {
    forall k
      ensures k in a <==> k in b
      ensures k in a ==> a[k] == b[k]
    {
      assert Lookup(a, k) == Lookup(b, k);
    }
  }

  /** The map after one step of replay. */
  function MapStep(log: seq<Event>, e: Event, before: map<string, nat>): map<string, nat> {
    if !Counts(log, e) then before
    else if IsStart(e) then before[e.memberId := e.at]
    else before - {e.memberId}
  }

  lemma MapStepAt(log: seq<Event>, e: Event, before: map<string, nat>, m: string)
    ensures Lookup(MapStep(log, e, before), m) == EntryStep(log, e, e.groupId, m, Lookup(before, m))
  {
  }

  /** The replayed map moves by exactly one step: one insertion, one removal, or nothing. */
  lemma ReplayStep(log: seq<Event>, e: Event)
    ensures Replayed(log + [e], e.groupId) == MapStep(log, e, Replayed(log, e.groupId))
  {
    forall m
      ensures Lookup(Replayed(log + [e], e.groupId), m) == Lookup(MapStep(log, e, Replayed(log, e.groupId)), m)
    {
      ReplayStepAt(log, e, e.groupId, m);
      MapStepAt(log, e, Replayed(log, e.groupId), m);
    }
    SameLookups(Replayed(log + [e], e.groupId), MapStep(log, e, Replayed(log, e.groupId)));
  }

  /** So the number of members moves by one or not at all. */
  lemma ReplayCountStep(log: seq<Event>, e: Event)
    ensures var before, after := Replayed(log, e.groupId), Replayed(log + [e], e.groupId);
            |after| == |before|
                       + (if e.memberId in after && e.memberId !in before then 1 else 0)
                       - (if e.memberId in before && e.memberId !in after then 1 else 0)
  {
    var before := Replayed(log, e.groupId);
    ReplayStep(log, e);
    CardinalityOfPut(before, e.memberId, e.at);
    if e.memberId in before {
      CardinalityOfDelete(before, e.memberId);
    } else {
      assert before - {e.memberId} == before;
    }
  }

  /** A join on time by someone who is not a member adds one. */
  lemma JoinAddsOne(log: seq<Event>, join: Event)
    requires IsStart(join) && Counts(log, join) && join.memberId !in Replayed(log, join.groupId)
    ensures join.memberId in Replayed(log + [join], join.groupId)
    ensures |Replayed(log + [join], join.groupId)| == |Replayed(log, join.groupId)| + 1
  {
    ReplayStep(log, join);
    CardinalityOfPut(Replayed(log, join.groupId), join.memberId, join.at);
  }

  lemma StepsCancel(log: seq<Event>, join: Event, leave: Event, before: map<string, nat>)
    requires IsStart(join) && IsEnd(leave) && join.memberId == leave.memberId && join.memberId !in before
    requires Counts(log, join) && Counts(log + [join], leave)
    ensures MapStep(log + [join], leave, MapStep(log, join, before)) == before
  {
  }

  /** A join followed by a leave of someone who was not a member restores the map. */
  lemma JoinThenLeaveRestores(log: seq<Event>, join: Event, leave: Event)
    requires IsStart(join) && IsEnd(leave) && join.memberId == leave.memberId && join.groupId == leave.groupId
    requires Counts(log, join) && join.memberId !in Replayed(log, join.groupId) && join.at <= leave.at
    ensures Replayed(log + [join] + [leave], join.groupId) == Replayed(log, join.groupId)
  {
    ReplayStep(log, join);
    ReplayStep(log + [join], leave);
    LeaveCounts(log, join, leave);
    StepsCancel(log, join, leave, Replayed(log, join.groupId));
  }

  lemma LeaveCounts(log: seq<Event>, join: Event, leave: Event)
    requires IsStart(join) && IsEnd(leave) && join.memberId == leave.memberId && join.groupId == leave.groupId
    requires join.memberId != "" && OnTime(log, join) && join.at <= leave.at
    ensures Counts(log + [join], leave)
  {
    PairAfterAppend(log, join, join.groupId, join.memberId);
    LatestAfterAppend(Select(log, Pair(join.groupId, join.memberId, true)), join);
  }

  predicate AgreesOn(v: View, g: string, m: string) {
    m in RowsOf(v, g) <==> m in Replayed(v.log, g)
  }

  /** The group's rows name exactly the members the log derives. */
  ghost predicate Agrees(v: View, g: string) {
    forall m | m != "" :: AgreesOn(v, g, m)
  }

  /** The pair's latest known event is a start exactly if `e` is. */
  predicate SameStatus(log: seq<Event>, e: Event) {
    var pair := Select(log, Pair(e.groupId, e.memberId, true));
    Latest(pair).Some? && IsStart(Latest(pair).value) == IsStart(e)
  }

  lemma AgreesButFor(v: View, g: string, m0: string)
    requires m0 != "" && forall m | m != "" && m != m0 :: AgreesOn(v, g, m)
    ensures Agrees(v, g) <==> AgreesOn(v, g, m0)
  {
  }

  lemma OtherPairsKeepAgreement(v: View, e: Event, g: string, m: string)
    requires AgreesOn(v, g, m) && !Picks(Pair(g, m, true), e)
    ensures AgreesOn(Append(v, e), g, m)
  {
    LogAfterAppend(v, e);
    AppendStepsRow(v, e, g, m);
    ReplayStepAt(v.log, e, g, m);
  }

  lemma OwnPairAgreesExactlyWhen(v: View, e: Event)
    requires IsKnown(e) && e.memberId != "" && AgreesOn(v, e.groupId, e.memberId)
    ensures AgreesOn(Append(v, e), e.groupId, e.memberId) <==> OnTime(v.log, e) || SameStatus(v.log, e)
  {
    LogAfterAppend(v, e);
    AppendStepsRow(v, e, e.groupId, e.memberId);
    ReplayStepAt(v.log, e, e.groupId, e.memberId);
    ReplayedStatus(v.log, e.groupId, e.memberId);
  }

  lemma AgreesInstance(v: View, g: string, m: string)
    requires Agrees(v, g) && m != ""
    ensures AgreesOn(v, g, m)
  {
  }

  lemma OtherMembersAgree(v: View, e: Event)
    requires Agrees(v, e.groupId)
    ensures forall m | m != "" && m != e.memberId :: AgreesOn(Append(v, e), e.groupId, m)
  {
    forall m | m != "" && m != e.memberId
      ensures AgreesOn(Append(v, e), e.groupId, m)
    {
      AgreesInstance(v, e.groupId, m);
      OtherPairsKeepAgreement(v, e, e.groupId, m);
    }
  }

  /**
   From an agreeing projection, one more membership event keeps the group in agreement exactly when it is not
   earlier than the pair's latest event or does not change that event's status.
   */
  lemma AppendAgreesExactlyWhen(v: View, e: Event)
    requires Agrees(v, e.groupId) && IsKnown(e) && e.memberId != ""
    ensures Agrees(Append(v, e), e.groupId) <==>
            OnTime(v.log, e) || SameStatus(v.log, e)
  {
    AgreesInstance(v, e.groupId, e.memberId);
    OwnPairAgreesExactlyWhen(v, e);
    OtherMembersAgree(v, e);
    AgreesButFor(Append(v, e), e.groupId, e.memberId);
  }

  lemma AppendElsewhere(v: View, e: Event, g: string)
    requires Agrees(v, g) && (e.groupId != g || !IsKnown(e))
    ensures Agrees(Append(v, e), g)
  {
    forall m | m != ""
      ensures AgreesOn(Append(v, e), g, m)
    {
      OtherPairsKeepAgreement(v, e, g, m);
    }
  }

  // ---------- Repair ----------

  /**
   After a repair from any table: the group's rows are the derived members, the counter is their number, rows
   that had a search key and stay are untouched, written rows carry the derived join time, and nothing
   else changed.
   */
  lemma RepairRestores(v: View, g: string, events: seq<Event>)
    ensures var after, current := Repair(v, g, events), Derived(events);
            var rows := RowsOf(after, g);
            (forall m :: m in rows <==> m != "" && On(Select(events, KnownOfMember(m))))
            && CountExact(after, g)
            && (forall m | m in rows ::
                  if m in RowsOf(v, g) && RowsOf(v, g)[m].searchKey != "" then rows[m] == RowsOf(v, g)[m]
                  else rows[m] == Row(Latest(Select(events, KnownOfMember(m))).value.at, SearchKey(v, m)))
            && after.log == v.log && (forall h | h != g :: RowsOf(after, h) == RowsOf(v, h) && CountOf(after, h) == CountOf(v, h))
  {
    var current := Derived(events);
    var rows := RepairedRows(v, g, current);
    assert rows.Keys == current.Keys;
    assert |rows.Keys| == |rows| && |current.Keys| == |current|;
    forall m
      ensures m in current <==> m != "" && On(Select(events, KnownOfMember(m)))
      ensures m in current ==> current[m] == Latest(Select(events, KnownOfMember(m))).value.at
    {
      DerivedIsLatest(events, m);
    }
  }

  /** A repair leaves the group as it is. */
  ghost predicate IsRepaired(v: View, g: string, events: seq<Event>) {
    Repair(v, g, events) == v
  }

  lemma PutSame<V>(m: map<string, V>, k: string, v: V)
    ensures m[k := v] == m <==> k in m && m[k] == v
  {
    if m[k := v] == m {
      assert k in m[k := v];
    }
  }

  lemma RepairedMeans(v: View, g: string, events: seq<Event>)
    ensures IsRepaired(v, g, events) <==>
            g in v.rows && v.rows[g] == RepairedRows(v, g, Derived(events))
            && g in v.counts && v.counts[g] == |Derived(events)|
  {
    PutSame(v.rows, g, RepairedRows(v, g, Derived(events)));
    PutSame(v.counts, g, |Derived(events)|);
  }

  lemma RepairedRowsAgain(v: View, g: string, current: map<string, nat>, w: View)
    requires RowsOf(w, g) == RepairedRows(v, g, current) && w.profiles == v.profiles
    ensures RepairedRows(w, g, current) == RepairedRows(v, g, current)
  {
  }

  lemma RepairIsIdempotent(v: View, g: string, events: seq<Event>)
    ensures IsRepaired(Repair(v, g, events), g, events)
  {
    RepairedRowsAgain(v, g, Derived(events), Repair(v, g, events));
    RepairedMeans(Repair(v, g, events), g, events);
  }

  lemma RepairOfAnotherGroup(v: View, g: string, events: seq<Event>, h: string, eventsOfH: seq<Event>)
    requires g != h && IsRepaired(v, g, events)
    ensures IsRepaired(Repair(v, h, eventsOfH), g, events)
  {
    var after := Repair(v, h, eventsOfH);
    RepairedMeans(v, g, events);
    RepairedRowsAgain(v, g, Derived(events), after);
    RepairedMeans(after, g, events);
  }

  function EventsFor(events: map<string, seq<Event>>, g: string): seq<Event> {
    if g in events then events[g] else []
  }

  lemma {:induction false} AllRepaired(v: View, groups: seq<string>, events: map<string, seq<Event>>)
    ensures forall g | g in groups :: IsRepaired(RepairAll(v, groups, events, false), g, EventsFor(events, g))
    ensures forall g | g !in groups ::
              RowsOf(RepairAll(v, groups, events, false), g) == RowsOf(v, g)
              && CountOf(RepairAll(v, groups, events, false), g) == CountOf(v, g)
  {
    if groups != [] {
      var front, h := groups[..|groups| - 1], groups[|groups| - 1];
      var before := RepairAll(v, front, events, false);
      AllRepaired(v, front, events);
      RepairIsIdempotent(before, h, EventsFor(events, h));
      forall g | g in groups
        ensures IsRepaired(RepairAll(v, groups, events, false), g, EventsFor(events, g))
      {
        if g != h {
          assert g in front;
          RepairOfAnotherGroup(before, g, EventsFor(events, g), h, EventsFor(events, h));
        }
      }
    }
  }

  lemma {:induction false} RepairedStays(v: View, groups: seq<string>, events: map<string, seq<Event>>, dryRun: bool)
    requires forall g | g in groups :: IsRepaired(v, g, EventsFor(events, g))
    ensures RepairAll(v, groups, events, dryRun) == v
  {
    if groups != [] && !dryRun {
      RepairedStays(v, groups[..|groups| - 1], events, dryRun);
      assert groups[|groups| - 1] in groups;
    }
  }

  /** A dry run leaves every table as it was. */
  lemma DryRunWritesNothing(v: View, groups: seq<string>, events: map<string, seq<Event>>)
    ensures RepairAll(v, groups, events, true) == v
  {
  }

  /** A second run over the same groups with an unchanged log leaves the table identical. */
  lemma SecondRunChangesNothing(v: View, groups: seq<string>, events: map<string, seq<Event>>)
    ensures var once := RepairAll(v, groups, events, false); RepairAll(once, groups, events, false) == once
  {
    AllRepaired(v, groups, events);
    RepairedStays(RepairAll(v, groups, events, false), groups, events, false);
  }

  // ---------- Drift, repair, and live maintenance from then on ----------

  /** Each event is on time when it arrives. */
  predicate ArriveOnTime(log: seq<Event>, es: seq<Event>) {
    es == [] || (ArriveOnTime(log, es[..|es| - 1]) && OnTime(log + es[..|es| - 1], es[|es| - 1]))
  }

  /** From any table, a repaired group stays in agreement with the log and its counter stays exact. */
  lemma {:induction false} RepairedThenMaintained(v: View, g: string, es: seq<Event>)
    requires ArriveOnTime(v.log, es) && forall e | e in es :: e.memberId != ""
    ensures var after := AppendAll(Repair(v, g, Select(v.log, OfGroup(g))), es);
            Agrees(after, g) && CountExact(after, g) && after.log == v.log + es
  {
    var repaired := Repair(v, g, Select(v.log, OfGroup(g)));
    RepairRestores(v, g, Select(v.log, OfGroup(g)));
    LogGrows(repaired, es);
    CounterNeverDrifts(repaired, es, g);
    if es == [] {
      assert RepairedRows(v, g, Replayed(v.log, g)).Keys == Replayed(v.log, g).Keys;
    } else {
      var front, e := es[..|es| - 1], es[|es| - 1];
      RepairedThenMaintained(v, g, front);
      var before := AppendAll(repaired, front);
      assert e in es;
      if e.groupId == g && IsKnown(e) {
        AppendAgreesExactlyWhen(before, e);
      } else {
        AppendElsewhere(before, e, g);
      }
    }
  }
}
