/**
 What both folds compute, without folding: the latest event decides. From that, when the two sides agree.
 */
module MembershipLaws {
  import opened Prelude
  import opened MembershipLog

  // ---------- The reference: the latest event ----------

  /** Which events a question is about. */
  datatype Query =
    | OfGroup(groupId: string)
    | OfMember(memberId: string)
    | KnownOfMember(memberId: string)
    | AnyOfGroup(groupId: string, strict: bool)
    | Pair(groupId: string, memberId: string, strict: bool)

  predicate Picks(q: Query, e: Event) {
    match q
    case OfGroup(g) => e.groupId == g
    case OfMember(m) => e.memberId == m
    case KnownOfMember(m) => e.memberId == m && IsKnown(e)
    case AnyOfGroup(g, strict) => e.groupId == g && (strict ==> IsKnown(e))
    case Pair(g, m, strict) => e.groupId == g && e.memberId == m && (strict ==> IsKnown(e))
  }

  function Select(es: seq<Event>, q: Query): seq<Event> {
    if es == [] then []
    else
      var rest := Select(es[..|es| - 1], q);
      if Picks(q, es[|es| - 1]) then rest + [es[|es| - 1]] else rest
  }

  /** The event with the greatest time; among equal times the one that comes last. */
  function Latest(es: seq<Event>): Option<Event> {
    if es == [] then None
    else
      var e, rest := es[|es| - 1], Latest(es[..|es| - 1]);
      if rest.Some? && rest.value.at > e.at then rest else Some(e)
  }

  predicate On(es: seq<Event>) {
    Latest(es).Some? && IsStart(Latest(es).value)
  }

  // ---------- Facts about the sort ----------

  lemma {:induction false} InsertKeepsAll(s: seq<Event>, e: Event)
    ensures multiset(InsertByTime(s, e)) == multiset(s) + multiset{e}
    ensures forall x :: x in InsertByTime(s, e) <==> x in s || x == e
  {
    if s != [] && s[|s| - 1].at > e.at {
      assert s == s[..|s| - 1] + [s[|s| - 1]];
      InsertKeepsAll(s[..|s| - 1], e);
    }
  }

  lemma SortedSnoc(s: seq<Event>, e: Event)
    requires Sorted(s) && forall x | x in s :: x.at <= e.at
    ensures Sorted(s + [e])
  {
  }

  lemma {:induction false} InsertSorted(s: seq<Event>, e: Event)
    requires Sorted(s)
    ensures Sorted(InsertByTime(s, e))
  {
    if s != [] && s[|s| - 1].at > e.at {
      InsertSorted(s[..|s| - 1], e);
      InsertKeepsAll(s[..|s| - 1], e);
      SortedSnoc(InsertByTime(s[..|s| - 1], e), s[|s| - 1]);
    } else {
      SortedSnoc(s, e);
    }
  }

  /** The sort is a sort: ordered by time, the same events. */
  lemma {:induction false} SortCorrect(es: seq<Event>)
    ensures Sorted(SortByTime(es)) && multiset(SortByTime(es)) == multiset(es)
  {
    if es != [] {
      assert es == es[..|es| - 1] + [es[|es| - 1]];
      SortCorrect(es[..|es| - 1]);
      InsertSorted(SortByTime(es[..|es| - 1]), es[|es| - 1]);
      InsertKeepsAll(SortByTime(es[..|es| - 1]), es[|es| - 1]);
    }
  }

  lemma {:induction false} SelectInsert(s: seq<Event>, e: Event, q: Query)
    requires Sorted(s)
    ensures Select(InsertByTime(s, e), q) ==
            if Picks(q, e) then InsertByTime(Select(s, q), e) else Select(s, q)
  {
    if s == [] || s[|s| - 1].at <= e.at {
      Snoc(s, e);
      SelectNotLater(s, q, e.at);
    } else {
      var front, last := s[..|s| - 1], s[|s| - 1];
      SelectInsert(front, e, q);
      Snoc(InsertByTime(front, e), last);
      if Picks(q, e) && Picks(q, last) {
        Snoc(Select(front, q), last);
      }
    }
  }

  lemma {:induction false} SelectNotLater(s: seq<Event>, q: Query, t: nat)
    requires Sorted(s) && (s != [] ==> s[|s| - 1].at <= t)
    ensures forall e | e in Select(s, q) :: e.at <= t
  {
    if s != [] {
      SelectNotLater(s[..|s| - 1], q, t);
    }
  }

  /** Selecting and sorting commute: the sort is stable. */
  lemma {:induction false} SelectSort(es: seq<Event>, q: Query)
    ensures Select(SortByTime(es), q) == SortByTime(Select(es, q))
  {
    if es != [] {
      var front, e := es[..|es| - 1], es[|es| - 1];
      SelectSort(front, q);
      SortCorrect(front);
      SelectInsert(SortByTime(front), e, q);
      if Picks(q, e) {
        Snoc(Select(front, q), e);
      }
    }
  }

  lemma LastOfInsert(s: seq<Event>, e: Event)
    ensures var r := InsertByTime(s, e);
            r != [] && r[|r| - 1] == if s != [] && s[|s| - 1].at > e.at then s[|s| - 1] else e
  {
  }

  /** The last event of the sorted sequence is the latest one. */
  lemma {:induction false} SortLast(es: seq<Event>)
    ensures var s := SortByTime(es);
            Latest(es) == if s == [] then None else Some(s[|s| - 1])
  {
    if es != [] {
      SortLast(es[..|es| - 1]);
      LastOfInsert(SortByTime(es[..|es| - 1]), es[|es| - 1]);
    }
  }

  lemma LatestAfterAppend(s: seq<Event>, e: Event)
    ensures Latest(s + [e]) == if Latest(s).Some? && Latest(s).value.at > e.at then Latest(s) else Some(e)
  {
    Snoc(s, e);
  }

  // ---------- The folds compute the latest event ----------

  lemma {:induction false} FoldStateLast(s: seq<Event>, m: string)
    requires m != ""
    ensures var picked := Select(s, KnownOfMember(m));
            if picked == [] then m !in FoldState(s)
            else m in FoldState(s)
                 && FoldState(s)[m] == if IsStart(picked[|picked| - 1]) then Some(picked[|picked| - 1].at) else None
  {
    if s != [] {
      FoldStateLast(s[..|s| - 1], m);
    }
  }

  lemma {:induction false} FoldStateNamesMembers(s: seq<Event>)
    ensures "" !in FoldState(s)
  {
    if s != [] {
      FoldStateNamesMembers(s[..|s| - 1]);
    }
  }

  /** A member is in the derived map exactly when their latest known event is a start, with that event's time. */
  lemma DerivedIsLatest(es: seq<Event>, m: string)
    ensures "" !in Derived(es)
    ensures m != "" ==> (m in Derived(es) <==> On(Select(es, KnownOfMember(m))))
    ensures m in Derived(es) ==> Derived(es)[m] == Latest(Select(es, KnownOfMember(m))).value.at
  {
    FoldStateNamesMembers(SortByTime(es));
    if m != "" {
      FoldStateLast(SortByTime(es), m);
      SelectSort(es, KnownOfMember(m));
      SortLast(Select(es, KnownOfMember(m)));
    }
  }

  lemma {:induction false} FoldGroupsLast(s: seq<Event>, g: string, strict: bool)
    ensures var picked := Select(s, AnyOfGroup(g, strict));
            if picked == [] then g !in FoldGroups(s, strict)
            else g in FoldGroups(s, strict) && FoldGroups(s, strict)[g] == IsStart(picked[|picked| - 1])
  {
    if s != [] {
      FoldGroupsLast(s[..|s| - 1], g, strict);
    }
  }

  /** A group is in the member's set exactly when the latest event counted for it is a start. */
  lemma MemberGroupsIsLatest(es: seq<Event>, g: string, strict: bool)
    ensures g in MemberGroups(es, strict) <==> On(Select(es, AnyOfGroup(g, strict)))
  {
    FoldGroupsLast(SortByTime(es), g, strict);
    SelectSort(es, AnyOfGroup(g, strict));
    SortLast(Select(es, AnyOfGroup(g, strict)));
  }

  // ---------- Query order ----------

  lemma {:induction false} LatestIsGreatest(es: seq<Event>)
    ensures es == [] <==> Latest(es).None?
    ensures Latest(es).Some? ==> Latest(es).value in es && forall e | e in es :: e.at <= Latest(es).value.at
  {
    if es != [] {
      LatestIsGreatest(es[..|es| - 1]);
    }
  }

  /** Events of the greatest time agree on whether they are starts. */
  ghost predicate TopAgrees(es: seq<Event>) {
    forall x, y | x in es && y in es && (forall e | e in es :: e.at <= x.at) && y.at == x.at ::
      IsStart(x) == IsStart(y)
  }

  lemma MoveToEnd(es: seq<Event>, i: nat) returns (moved: seq<Event>)
    requires i < |es|
    ensures moved != [] && moved[|moved| - 1] == es[i] && multiset(moved) == multiset(es)
  {
    moved := es[..i] + es[i + 1..] + [es[i]];
    assert es == es[..i] + [es[i]] + es[i + 1..];
  }

  lemma LastTopWins(es: seq<Event>)
    requires es != [] && forall e | e in es :: e.at <= es[|es| - 1].at
    ensures Latest(es) == Some(es[|es| - 1])
  {
    LatestIsGreatest(es[..|es| - 1]);
    if es[..|es| - 1] != [] {
      assert Latest(es[..|es| - 1]).value in es;
    }
  }

  /** The outcome does not depend on the order in which a query returns the events exactly when the top agrees. */
  lemma OrderIrrelevantExactlyWhenTopAgrees(es: seq<Event>)
    ensures TopAgrees(es) <==>
            forall es' :: multiset(es') == multiset(es) ==> (On(es') <==> On(es))
  {
    if TopAgrees(es) {
      forall es' | multiset(es') == multiset(es)
        ensures On(es') <==> On(es)
      {
        SameOutcome(es, es');
      }
    }
    if (forall es' :: multiset(es') == multiset(es) ==> (On(es') <==> On(es))) {
      forall x, y | x in es && y in es && (forall e | e in es :: e.at <= x.at) && y.at == x.at
        ensures IsStart(x) == IsStart(y)
      {
        TopCanDecide(es, x);
        TopCanDecide(es, y);
      }
    }
  }

  lemma SameEvents(es: seq<Event>, es': seq<Event>)
    requires multiset(es) == multiset(es')
    ensures forall e :: e in es <==> e in es'
    ensures |es| == |es'|
  {
    assert |multiset(es)| == |multiset(es')|;
    assert forall e :: e in es <==> e in multiset(es);
    assert forall e :: e in es' <==> e in multiset(es');
  }

  lemma SameOutcome(es: seq<Event>, es': seq<Event>)
    requires multiset(es) == multiset(es') && TopAgrees(es)
    ensures On(es') <==> On(es)
  {
    SameEvents(es, es');
    LatestIsGreatest(es);
    LatestIsGreatest(es');
  }

  lemma LatestOfTwo(a: Event, b: Event)
    ensures Latest([a]) == Some(a) && Latest([a, b]) == if a.at > b.at then Some(a) else Some(b)
  {
    assert [a, b][..1] == [a] && [a][..0] == [];
    assert Latest([]) == None;
  }

  /** Order can matter: a start and an end of the same time, in either order. */
  lemma SameTimeOrderDecides(start: Event, end: Event)
    requires IsStart(start) && IsEnd(end) && start.at == end.at
    ensures multiset([start, end]) == multiset([end, start]) && On([end, start]) && !On([start, end])
  {
    LatestOfTwo(start, end);
    LatestOfTwo(end, start);
  }

  /** Some order makes a given top event decide. */
  lemma TopCanDecide(es: seq<Event>, x: Event)
    requires x in es && forall e | e in es :: e.at <= x.at
    ensures exists es' :: multiset(es') == multiset(es) && On(es') == IsStart(x)
  {
    var i :| 0 <= i < |es| && es[i] == x;
    var moved := MoveToEnd(es, i);
    SameEvents(es, moved);
    LastTopWins(moved);
    assert On(moved) == IsStart(x);
  }

  // ---------- Both sides over one log ----------

  lemma {:induction false} SelectMultiset(es: seq<Event>, q: Query)
    ensures forall e :: multiset(Select(es, q))[e] == if Picks(q, e) then multiset(es)[e] else 0
  {
    if es != [] {
      assert es == es[..|es| - 1] + [es[|es| - 1]];
      SelectMultiset(es[..|es| - 1], q);
    }
  }

  /** Narrowing a group's or a member's events to one pair gives that pair's events of the log. */
  lemma NarrowToPair(log: seq<Event>, view: seq<Event>, wide: Query, narrow: Query, pair: Query)
    requires multiset(view) == multiset(Select(log, wide))
    requires forall e :: Picks(pair, e) <==> Picks(wide, e) && Picks(narrow, e)
    ensures multiset(Select(view, narrow)) == multiset(Select(log, pair))
  {
    SelectMultiset(log, wide);
    SelectMultiset(view, narrow);
    SelectMultiset(log, pair);
  }

  /** The latest event is of none of the four kinds. */
  predicate EndsUnknown(es: seq<Event>) {
    Latest(es).Some? && !IsKnown(Latest(es).value)
  }

  /**
   Over one log, and for whatever order the two queries return their events in: the group's derivation and
   the member's set disagree about the pair exactly when the pair's last event is of an unknown kind while its
   last known event is a start. (The repository's own fold skips unknown kinds: see the next lemma.)
   */
  lemma GroupAndMemberSidesAgree(log: seq<Event>, g: string, m: string, groupView: seq<Event>, memberView: seq<Event>)
    requires m != ""
    requires multiset(groupView) == multiset(Select(log, OfGroup(g)))
    requires multiset(memberView) == multiset(Select(log, OfMember(m)))
    requires TopAgrees(Select(log, Pair(g, m, true))) && TopAgrees(Select(log, Pair(g, m, false)))
    ensures (m in Derived(groupView) <==> g in MemberGroups(memberView, false)) <==>
            !(On(Select(log, Pair(g, m, true))) && EndsUnknown(Select(log, Pair(g, m, false))))
  {
    DerivedIsLatest(groupView, m);
    MemberGroupsIsLatest(memberView, g, false);
    NarrowToPair(log, groupView, OfGroup(g), KnownOfMember(m), Pair(g, m, true));
    NarrowToPair(log, memberView, OfMember(m), AnyOfGroup(g, false), Pair(g, m, false));
    SameOutcome(Select(log, Pair(g, m, true)), Select(groupView, KnownOfMember(m)));
    SameOutcome(Select(log, Pair(g, m, false)), Select(memberView, AnyOfGroup(g, false)));
    KnownLatest(log, g, m);
  }

  lemma SelectTwo(a: Event, b: Event, q: Query)
    ensures Select([a, b], q) ==
            if Picks(q, a) then if Picks(q, b) then [a, b] else [a] else if Picks(q, b) then [b] else []
    ensures Latest([a]) == Some(a) && Latest([a, b]) == if a.at > b.at then Some(a) else Some(b)
  {
    LatestOfTwo(a, b);
    assert [a, b][..1] == [a] && [a][..0] == [];
    assert Select([], q) == [] && Select([a], q) == if Picks(q, a) then [a] else [];
  }

  /** They do disagree: a start followed by an event of another kind. */
  lemma UnknownKindSplitsTheSides(a: Event, b: Event, g: string, m: string)
    requires m != "" && a.memberId == m && b.memberId == m && a.groupId == g && b.groupId == g
    requires IsStart(a) && !IsKnown(b) && a.at <= b.at
    ensures m in Derived([a, b]) && g !in MemberGroups([a, b], false) && g in MemberGroups([a, b], true)
  {
    SelectTwo(a, b, KnownOfMember(m));
    DerivedIsLatest([a, b], m);
    SelectTwo(a, b, AnyOfGroup(g, false));
    MemberGroupsIsLatest([a, b], g, false);
    SelectTwo(a, b, AnyOfGroup(g, true));
    MemberGroupsIsLatest([a, b], g, true);
  }

  /** The repository's member-side fold agrees with the group side without further condition. */
  lemma GroupAndRepositorySidesAgree(log: seq<Event>, g: string, m: string, groupView: seq<Event>, memberView: seq<Event>)
    requires m != ""
    requires multiset(groupView) == multiset(Select(log, OfGroup(g)))
    requires multiset(memberView) == multiset(Select(log, OfMember(m)))
    requires TopAgrees(Select(log, Pair(g, m, true)))
    ensures m in Derived(groupView) <==> g in MemberGroups(memberView, true)
  {
    DerivedIsLatest(groupView, m);
    MemberGroupsIsLatest(memberView, g, true);
    NarrowToPair(log, groupView, OfGroup(g), KnownOfMember(m), Pair(g, m, true));
    NarrowToPair(log, memberView, OfMember(m), AnyOfGroup(g, true), Pair(g, m, true));
    SameOutcome(Select(log, Pair(g, m, true)), Select(groupView, KnownOfMember(m)));
    SameOutcome(Select(log, Pair(g, m, true)), Select(memberView, AnyOfGroup(g, true)));
  }

  /** If a pair's latest event is known it is also its latest known event. */
  lemma {:induction false} KnownLatest(log: seq<Event>, g: string, m: string)
    ensures var any, known := Select(log, Pair(g, m, false)), Select(log, Pair(g, m, true));
            (Latest(any).None? ==> Latest(known).None?)
            && (Latest(any).Some? && IsKnown(Latest(any).value) ==> Latest(known) == Latest(any))
            && (Latest(known).Some? ==> Latest(any).Some? && Latest(known).value.at <= Latest(any).value.at)
  {
    if log != [] {
      var front, e := log[..|log| - 1], log[|log| - 1];
      KnownLatest(front, g, m);
      LatestAfterAppend(Select(front, Pair(g, m, false)), e);
      LatestAfterAppend(Select(front, Pair(g, m, true)), e);
    }
  }
}
