/**
 Column preferences of a table (`DataTable.tsx`) and the panel that edits them (`ColumnSettings.tsx`): the
 order shown is the stored order reconciled with the columns the table has now.
 */
module TableColumns {
  import opened Prelude

  /** The stored preferences that concern columns. */
  datatype Prefs = Prefs(order: seq<string>, hidden: seq<string>)

  function Keep(s: seq<string>, allowed: seq<string>): seq<string> {
    if s == [] then [] else Keep(s[..|s| - 1], allowed) + (if s[|s| - 1] in allowed then [s[|s| - 1]] else [])
  }

  function Drop(s: seq<string>, refused: seq<string>): seq<string> {
    if s == [] then [] else Drop(s[..|s| - 1], refused) + (if s[|s| - 1] in refused then [] else [s[|s| - 1]])
  }

  /** Known stored columns in stored order, then the columns the stored order does not know. */
  function Order(p: Prefs, columns: seq<string>): seq<string> {
    var known := Keep(p.order, columns);
    known + Drop(columns, known)
  }

  function Visible(p: Prefs, columns: seq<string>): seq<string> {
    Drop(Order(p, columns), p.hidden)
  }

  // ---------- Moving a column ----------

  /** `indexOf`: the first position, or -1. */
  function IndexOf(s: seq<string>, x: string): (i: int)
    ensures -1 <= i < |s|
    ensures i >= 0 ==> s[i] == x && x !in s[..i]
    ensures i == -1 <==> x !in s
  {
    if s == [] then -1
    else if s[0] == x then 0
    else
      var i := IndexOf(s[1..], x);
      if i == -1 then -1 else assert s[..i + 1] == [s[0]] + s[1..][..i]; i + 1
  }

  function RemoveAt(s: seq<string>, i: nat): seq<string>
    requires i < |s|
  {
    s[..i] + s[i + 1..]
  }

  function InsertAt(s: seq<string>, j: nat, x: string): seq<string>
    requires j <= |s|
  {
    s[..j] + [x] + s[j..]
  }

  /** `moveTo`: takes `from` out and puts it at the place `to` had. */
  function MoveTo(keys: seq<string>, from: string, to: string): seq<string> {
    var i, j := IndexOf(keys, from), IndexOf(keys, to);
    if from == to || i < 0 || j < 0 then keys else InsertAt(RemoveAt(keys, i), j, from)
  }

  /** `nudge` by one place up or down. */
  function Nudge(keys: seq<string>, key: string, down: bool): seq<string> {
    var j := IndexOf(keys, key) + (if down then 1 else -1);
    if j < 0 || j >= |keys| then keys else MoveTo(keys, key, keys[j])
  }

  lemma IndexIn(s: seq<string>, i: nat)
    requires i < |s| && Distinct(s)
    ensures IndexOf(s, s[i]) == i
  {
  }

  lemma {:induction false} WithoutAt(s: seq<string>, i: nat)
    requires i < |s| && Distinct(s)
    ensures Without(s, s[i]) == RemoveAt(s, i)
  {
    var n := |s| - 1;
    DistinctFront(s);
    if i < n {
      WithoutAt(s[..n], i);
      assert RemoveAt(s, i) == RemoveAt(s[..n], i) + [s[n]];
    } else {
      WithoutAbsent(s[..n], s[n]);
      assert RemoveAt(s, n) == s[..n];
    }
  }

  lemma {:induction false} WithoutAbsent(s: seq<string>, x: string)
    requires x !in s
    ensures Without(s, x) == s
  {
    if s != [] {
      WithoutAbsent(s[..|s| - 1], x);
    }
  }

  lemma InsertedDistinct(s: seq<string>, j: nat, x: string)
    requires j <= |s| && Distinct(s) && x !in s
    ensures Distinct(InsertAt(s, j, x)) && InsertAt(s, j, x)[j] == x
    ensures RemoveAt(InsertAt(s, j, x), j) == s
    ensures multiset(InsertAt(s, j, x)) == multiset(s) + multiset{x}
  {
    assert s == s[..j] + s[j..];
  }

  lemma RemovedDistinct(s: seq<string>, i: nat)
    requires i < |s| && Distinct(s)
    ensures Distinct(RemoveAt(s, i)) && s[i] !in RemoveAt(s, i)
    ensures InsertAt(RemoveAt(s, i), i, s[i]) == s
    ensures multiset(s) == multiset(RemoveAt(s, i)) + multiset{s[i]}
  {
    assert s == s[..i] + [s[i]] + s[i + 1..];
  }

  /** A move is fixed by this: the moved column takes the other's place and the rest keep their order. */
  lemma MoveKeepsTheRest(keys: seq<string>, from: string, to: string)
    requires Distinct(keys) && from in keys && to in keys && from != to
    ensures var moved := MoveTo(keys, from, to);
            Distinct(moved) && multiset(moved) == multiset(keys)
            && moved[IndexOf(keys, to)] == from && Without(moved, from) == Without(keys, from)
  {
    var i, j := IndexOf(keys, from), IndexOf(keys, to);
    RemovedDistinct(keys, i);
    InsertedDistinct(RemoveAt(keys, i), j, from);
    WithoutAt(keys, i);
    WithoutAt(MoveTo(keys, from, to), j);
  }

  /** A move by positions. */
  lemma MoveToAt(keys: seq<string>, i: nat, j: nat)
    requires Distinct(keys) && i < |keys| && j < |keys| && i != j
    ensures MoveTo(keys, keys[i], keys[j]) == InsertAt(RemoveAt(keys, i), j, keys[i])
  {
    IndexIn(keys, i);
    IndexIn(keys, j);
    assert keys[i] != keys[j];
  }

  /** Moving what now stands at the other position back restores the order. */
  lemma MoveBackAt(keys: seq<string>, i: nat, j: nat)
    requires Distinct(keys) && i < |keys| && j < |keys| && i != j
    ensures var moved := InsertAt(RemoveAt(keys, i), j, keys[i]);
            Distinct(moved) && |moved| == |keys| && moved[j] == keys[i] && MoveTo(moved, moved[j], moved[i]) == keys
  {
    var moved := InsertAt(RemoveAt(keys, i), j, keys[i]);
    RemovedDistinct(keys, i);
    InsertedDistinct(RemoveAt(keys, i), j, keys[i]);
    MoveToAt(moved, j, i);
  }

  /** Moving the column back to whatever now stands at its old place restores the order. */
  lemma MoveBackRestores(keys: seq<string>, from: string, to: string)
    requires Distinct(keys) && from in keys && to in keys && from != to
    ensures var moved := MoveTo(keys, from, to);
            |moved| == |keys| && MoveTo(moved, from, moved[IndexOf(keys, from)]) == keys
  {
    MoveBackAt(keys, IndexOf(keys, from), IndexOf(keys, to));
  }

  lemma NudgeAt(keys: seq<string>, i: nat, down: bool)
    requires Distinct(keys) && i < |keys| && 0 <= i + (if down then 1 else -1) < |keys|
    ensures Nudge(keys, keys[i], down) == InsertAt(RemoveAt(keys, i), i + (if down then 1 else -1), keys[i])
  {
    IndexIn(keys, i);
    MoveToAt(keys, i, i + (if down then 1 else -1));
  }

  /** Nudging down and up again, or up and down, restores the order. */
  lemma NudgeBackRestores(keys: seq<string>, i: nat, down: bool)
    requires Distinct(keys) && i < |keys| && 0 <= i + (if down then 1 else -1) < |keys|
    ensures Nudge(Nudge(keys, keys[i], down), keys[i], !down) == keys
  {
    var j := i + (if down then 1 else -1);
    var moved := InsertAt(RemoveAt(keys, i), j, keys[i]);
    NudgeAt(keys, i, down);
    MoveBackAt(keys, i, j);
    NudgeAt(moved, j, !down);
    MoveToAt(moved, j, i);
  }

  // ---------- The order shown ----------

  lemma {:induction false} KeepMembers(s: seq<string>, allowed: seq<string>)
    ensures forall x :: x in Keep(s, allowed) <==> x in s && x in allowed
  {
    if s != [] {
      KeepMembers(s[..|s| - 1], allowed);
    }
  }

  lemma {:induction false} DropMembers(s: seq<string>, refused: seq<string>)
    ensures forall x :: x in Drop(s, refused) <==> x in s && x !in refused
  {
    if s != [] {
      DropMembers(s[..|s| - 1], refused);
    }
  }

  lemma {:induction false} KeepDistinct(s: seq<string>, allowed: seq<string>)
    requires Distinct(s)
    ensures Distinct(Keep(s, allowed))
  {
    if s != [] {
      DistinctFront(s);
      KeepDistinct(s[..|s| - 1], allowed);
      KeepMembers(s[..|s| - 1], allowed);
      DistinctSnoc(Keep(s[..|s| - 1], allowed), s[|s| - 1]);
    }
  }

  lemma {:induction false} DropDistinct(s: seq<string>, refused: seq<string>)
    requires Distinct(s)
    ensures Distinct(Drop(s, refused))
  {
    if s != [] {
      DistinctFront(s);
      DropDistinct(s[..|s| - 1], refused);
      DropMembers(s[..|s| - 1], refused);
      DistinctSnoc(Drop(s[..|s| - 1], refused), s[|s| - 1]);
    }
  }

  lemma DistinctConcat(a: seq<string>, b: seq<string>)
    ensures Distinct(a + b) <==> Distinct(a) && Distinct(b) && forall x | x in a :: x !in b
  {
    var s := a + b;
    if Distinct(a) && Distinct(b) && forall x | x in a :: x !in b {
      forall i, j | 0 <= i < j < |s|
        ensures s[i] != s[j]
      {
        if i < |a| <= j {
          assert a[i] in a && b[j - |a|] in b;
        }
      }
    }
    if Distinct(s) {
      forall i, j | 0 <= i < j < |a|
        ensures a[i] != a[j]
      {
        assert s[i] != s[j];
      }
      forall i, j | 0 <= i < j < |b|
        ensures b[i] != b[j]
      {
        assert s[|a| + i] != s[|a| + j];
      }
      forall x | x in a
        ensures x !in b
      {
        var i :| 0 <= i < |a| && a[i] == x;
        forall j | 0 <= j < |b|
          ensures b[j] != x
        {
          assert s[i] != s[|a| + j];
        }
      }
    }
  }

  /** Every current column is shown in the order and nothing else is, each once exactly when the stored order repeats no current column. */
  lemma OrderShowsEveryColumn(p: Prefs, columns: seq<string>)
    requires Distinct(columns)
    ensures forall x :: x in Order(p, columns) <==> x in columns
    ensures Distinct(Order(p, columns)) <==> Distinct(Keep(p.order, columns))
  {
    var known := Keep(p.order, columns);
    KeepMembers(p.order, columns);
    DropMembers(columns, known);
    DropDistinct(columns, known);
    DistinctConcat(known, Drop(columns, known));
  }

  lemma {:induction false} DropNone(s: seq<string>, refused: seq<string>)
    requires forall x | x in s :: x !in refused
    ensures Drop(s, refused) == s
  {
    if s != [] {
      DropNone(s[..|s| - 1], refused);
    }
  }

  lemma {:induction false} DropAll(s: seq<string>, refused: seq<string>)
    requires forall x | x in s :: x in refused
    ensures Drop(s, refused) == []
  {
    if s != [] {
      DropAll(s[..|s| - 1], refused);
    }
  }

  lemma {:induction false} KeepAll(s: seq<string>, allowed: seq<string>)
    requires forall x | x in s :: x in allowed
    ensures Keep(s, allowed) == s
  {
    if s != [] {
      KeepAll(s[..|s| - 1], allowed);
    }
  }

  /** What the panel stores after a reordering is what is shown next. */
  lemma StoredOrderIsShown(order: seq<string>, hidden: seq<string>, columns: seq<string>)
    requires forall x :: x in order <==> x in columns
    ensures Order(Prefs(order, hidden), columns) == order
  {
    KeepAll(order, columns);
    DropAll(columns, order);
  }

  /** `x` stands somewhere before `y`. */
  ghost predicate Before(s: seq<string>, x: string, y: string) {
    exists i, j :: 0 <= i < j < |s| && s[i] == x && s[j] == y
  }

  lemma BeforeSnoc(s: seq<string>, z: string, x: string, y: string)
    ensures Before(s + [z], x, y) <==> Before(s, x, y) || (x in s && y == z)
  {
    var t := s + [z];
    if Before(s, x, y) {
      var i, j :| 0 <= i < j < |s| && s[i] == x && s[j] == y;
      assert t[i] == x && t[j] == y;
    }
    if x in s && y == z {
      var i :| 0 <= i < |s| && s[i] == x;
      assert t[i] == x && t[|s|] == y;
    }
    if Before(t, x, y) && !Before(s, x, y) {
      var i, j :| 0 <= i < j < |t| && t[i] == x && t[j] == y;
      assert s[i] == x;
    }
  }

  /** Selecting keeps the order. */
  lemma {:induction false} KeepKeepsOrder(s: seq<string>, allowed: seq<string>, x: string, y: string)
    ensures Before(Keep(s, allowed), x, y) <==> Before(s, x, y) && x in allowed && y in allowed
  {
    if s != [] {
      var front, last := s[..|s| - 1], s[|s| - 1];
      KeepKeepsOrder(front, allowed, x, y);
      KeepMembers(front, allowed);
      BeforeSnoc(front, last, x, y);
      BeforeSnoc(Keep(front, allowed), last, x, y);
      assert front + [last] == s && Keep(front, allowed) + [] == Keep(front, allowed);
    }
  }

  lemma {:induction false} DropKeepsOrder(s: seq<string>, refused: seq<string>, x: string, y: string)
    ensures Before(Drop(s, refused), x, y) <==> Before(s, x, y) && x !in refused && y !in refused
  {
    if s != [] {
      var front, last := s[..|s| - 1], s[|s| - 1];
      DropKeepsOrder(front, refused, x, y);
      DropMembers(front, refused);
      BeforeSnoc(front, last, x, y);
      BeforeSnoc(Drop(front, refused), last, x, y);
      assert front + [last] == s && Drop(front, refused) + [] == Drop(front, refused);
    }
  }

  lemma BeforeConcat(a: seq<string>, b: seq<string>, x: string, y: string)
    ensures Before(a + b, x, y) <==> Before(a, x, y) || Before(b, x, y) || (x in a && y in b)
  {
    var s := a + b;
    if Before(a, x, y) {
      var i, j :| 0 <= i < j < |a| && a[i] == x && a[j] == y;
      assert s[i] == x && s[j] == y;
    }
    if Before(b, x, y) {
      var i, j :| 0 <= i < j < |b| && b[i] == x && b[j] == y;
      assert s[|a| + i] == x && s[|a| + j] == y;
    }
    if x in a && y in b {
      var i :| 0 <= i < |a| && a[i] == x;
      var j :| 0 <= j < |b| && b[j] == y;
      assert s[i] == x && s[|a| + j] == y;
    }
    if Before(s, x, y) {
      var i, j :| 0 <= i < j < |s| && s[i] == x && s[j] == y;
      if i >= |a| {
        assert b[i - |a|] == x && b[j - |a|] == y;
      } else if j < |a| {
        assert a[i] == x && a[j] == y;
      } else {
        assert a[i] == x && b[j - |a|] == y;
      }
    }
  }

  /**
   The order shown keeps the stored order of the columns it knows; columns added to the table since stand behind
   them, in the table's order.
   */
  lemma ShownOrder(p: Prefs, columns: seq<string>, x: string, y: string)
    requires Distinct(columns) && x in columns && y in columns
    ensures Before(Order(p, columns), x, y) <==>
            if x in p.order && y in p.order then Before(p.order, x, y)
            else if x in p.order then true
            else y !in p.order && Before(columns, x, y)
  {
    var known := Keep(p.order, columns);
    KeepMembers(p.order, columns);
    DropMembers(columns, known);
    KeepKeepsOrder(p.order, columns, x, y);
    DropKeepsOrder(columns, known, x, y);
    BeforeConcat(known, Drop(columns, known), x, y);
    BeforeMembers(known, x, y);
    BeforeMembers(p.order, x, y);
  }

  lemma BeforeMembers(s: seq<string>, x: string, y: string)
    ensures Before(s, x, y) ==> x in s && y in s
  {
  }

  /** The visible columns are those shown and not hidden, in the order shown. */
  lemma VisibleExactly(p: Prefs, columns: seq<string>, x: string, y: string)
    requires Distinct(columns)
    ensures x in Visible(p, columns) <==> x in columns && x !in p.hidden
    ensures Before(Visible(p, columns), x, y) <==> Before(Order(p, columns), x, y) && x !in p.hidden && y !in p.hidden
  {
    OrderShowsEveryColumn(p, columns);
    DropMembers(Order(p, columns), p.hidden);
    DropKeepsOrder(Order(p, columns), p.hidden, x, y);
  }

  // ---------- Any use of the panel ----------

  datatype Action =
    | Drag(from: string, to: string)
    | Arrow(key: string, down: bool)
    | Switch(key: string)
    | Reset

  function ToggleHidden(hidden: seq<string>, k: string): seq<string> {
    if k in hidden then Without(hidden, k) else hidden + [k]
  }

  /** The switch of the only visible column is disabled. */
  predicate LastOne(p: Prefs, columns: seq<string>, k: string) {
    k !in p.hidden && |Visible(p, columns)| == 1
  }

  /** The order a reordering stores; the panel stores nothing when nothing moves. */
  function Reordered(p: Prefs, columns: seq<string>, order: seq<string>): Prefs {
    if order == Order(p, columns) then p else p.(order := order)
  }

  function Step(p: Prefs, columns: seq<string>, defaultHidden: seq<string>, a: Action): Prefs {
    match a
    case Drag(from, to) => Reordered(p, columns, MoveTo(Order(p, columns), from, to))
    case Arrow(key, down) => Reordered(p, columns, Nudge(Order(p, columns), key, down))
    case Switch(key) =>
      if key !in columns || LastOne(p, columns, key) then p else p.(hidden := ToggleHidden(p.hidden, key))
    case Reset => Prefs(columns, defaultHidden)
  }

  /** The table with its preferences, edited by the panel. */
  class Table {
    const columns: seq<string>
    const defaultHidden: seq<string>
    var order: seq<string>
    var hidden: seq<string>

    ghost function Stored(): Prefs
      reads this
    {
      Prefs(order, hidden)
    }

    constructor (columns: seq<string>, defaultHidden: seq<string>)
      ensures this.columns == columns && this.defaultHidden == defaultHidden
      ensures Stored() == Prefs(columns, defaultHidden)
    {
      this.columns, this.defaultHidden, order, hidden := columns, defaultHidden, columns, defaultHidden;
    }

    method OnMove(from: string, to: string)
      modifies this`order
      ensures Stored() == Step(old(Stored()), columns, defaultHidden, Drag(from, to))
    {
      if from == to {
        return;
      }
      var next := Order(Prefs(order, hidden), columns);
      var i, j := IndexOf(next, from), IndexOf(next, to);
      if i < 0 || j < 0 {
        return;
      }
      ghost var shown := next;
      next := next[..i] + next[i + 1..];
      next := next[..j] + [from] + next[j..];
      assert next[j] == from && shown[j] == to;
      order := next;
    }

    method OnToggle(key: string)
      requires key in columns && !LastOne(Stored(), columns, key)
      modifies this`hidden
      ensures Stored() == Step(old(Stored()), columns, defaultHidden, Switch(key))
    {
      if key in hidden {
        hidden := Without(hidden, key);
      } else {
        hidden := hidden + [key];
      }
    }

    method OnReset()
      modifies this
      ensures Stored() == Step(old(Stored()), columns, defaultHidden, Reset)
    {
      order, hidden := columns, defaultHidden;
    }
  }

  function Run(p: Prefs, columns: seq<string>, defaultHidden: seq<string>, actions: seq<Action>): Prefs {
    if actions == [] then p
    else Step(Run(p, columns, defaultHidden, actions[..|actions| - 1]), columns, defaultHidden, actions[|actions| - 1])
  }

  /** The shown order is a permutation of the columns and something is visible. */
  ghost predicate Usable(p: Prefs, columns: seq<string>) {
    Distinct(Order(p, columns)) && Visible(p, columns) != []
  }

  lemma MovedMembers(keys: seq<string>, from: string, to: string)
    requires Distinct(keys)
    ensures Distinct(MoveTo(keys, from, to)) && forall x :: x in MoveTo(keys, from, to) <==> x in keys
  {
    if from != to && from in keys && to in keys {
      MoveKeepsTheRest(keys, from, to);
      assert forall x :: x in MoveTo(keys, from, to) <==> x in multiset(MoveTo(keys, from, to));
      assert forall x :: x in keys <==> x in multiset(keys);
    }
  }

  lemma ReorderKeepsUsable(p: Prefs, columns: seq<string>, order: seq<string>)
    requires Distinct(columns) && Usable(p, columns) && Distinct(order) && forall x :: x in order <==> x in columns
    ensures Usable(p.(order := order), columns)
  {
    StoredOrderIsShown(order, p.hidden, columns);
    OrderShowsEveryColumn(p, columns);
    DropMembers(Order(p, columns), p.hidden);
    DropMembers(order, p.hidden);
    assert Visible(p, columns)[0] in Visible(p, columns);
    assert Visible(p, columns)[0] in Visible(p.(order := order), columns);
  }

  lemma SwitchKeepsVisible(p: Prefs, columns: seq<string>, k: string)
    requires Distinct(columns) && Usable(p, columns) && k in columns && !LastOne(p, columns, k)
    ensures Visible(p.(hidden := ToggleHidden(p.hidden, k)), columns) != []
  {
    var order := Order(p, columns);
    var q := p.(hidden := ToggleHidden(p.hidden, k));
    OrderShowsEveryColumn(p, columns);
    DropMembers(order, p.hidden);
    DropMembers(order, q.hidden);
    WithoutMembers(p.hidden, k);
    if k in p.hidden {
      assert k in Visible(q, columns);
    } else {
      var shown := Visible(p, columns);
      assert k in shown;
      DropDistinct(order, p.hidden);
      var other := if shown[0] == k then shown[1] else shown[0];
      assert other in shown && other != k;
      assert other in Visible(q, columns);
    }
  }

  lemma ReorderedKeepsUsable(p: Prefs, columns: seq<string>, from: string, to: string)
    requires Distinct(columns) && Usable(p, columns)
    ensures Usable(Reordered(p, columns, MoveTo(Order(p, columns), from, to)), columns)
  {
    OrderShowsEveryColumn(p, columns);
    MovedMembers(Order(p, columns), from, to);
    ReorderKeepsUsable(p, columns, MoveTo(Order(p, columns), from, to));
  }

  lemma NudgedKeepsUsable(p: Prefs, columns: seq<string>, key: string, down: bool)
    requires Distinct(columns) && Usable(p, columns)
    ensures Usable(Reordered(p, columns, Nudge(Order(p, columns), key, down)), columns)
  {
    var j := IndexOf(Order(p, columns), key) + (if down then 1 else -1);
    if 0 <= j < |Order(p, columns)| {
      ReorderedKeepsUsable(p, columns, key, Order(p, columns)[j]);
    }
  }

  lemma StepKeepsUsable(p: Prefs, columns: seq<string>, defaultHidden: seq<string>, a: Action)
    requires Distinct(columns) && Usable(p, columns)
    requires a.Reset? ==> exists c :: c in columns && c !in defaultHidden
    ensures Usable(Step(p, columns, defaultHidden, a), columns)
  {
    match a
    case Drag(from, to) => ReorderedKeepsUsable(p, columns, from, to);
    case Arrow(key, down) => NudgedKeepsUsable(p, columns, key, down);
    case Switch(key) =>
      if key in columns && !LastOne(p, columns, key) {
        SwitchKeepsVisible(p, columns, key);
      }
    case Reset => ResetIsUsableExactlyWhen(columns, defaultHidden);
  }

  /** Resetting shows something exactly when some column is not hidden by default. */
  lemma ResetIsUsableExactlyWhen(columns: seq<string>, defaultHidden: seq<string>)
    requires Distinct(columns)
    ensures Usable(Prefs(columns, defaultHidden), columns) <==> exists c :: c in columns && c !in defaultHidden
  {
    StoredOrderIsShown(columns, defaultHidden, columns);
    DropMembers(columns, defaultHidden);
    if Drop(columns, defaultHidden) != [] {
      assert Drop(columns, defaultHidden)[0] in Drop(columns, defaultHidden);
    }
  }

  /**
   Over any sequence of drags, arrow keys, switches and resets, the order shown stays a permutation of the
   table's columns and at least one column stays visible.
   */
  lemma {:induction false} PanelKeepsTableUsable(p: Prefs, columns: seq<string>, defaultHidden: seq<string>, actions: seq<Action>)
    requires Distinct(columns) && Usable(p, columns)
    requires Reset in actions ==> exists c :: c in columns && c !in defaultHidden
    ensures var q := Run(p, columns, defaultHidden, actions);
            Usable(q, columns) && forall x :: x in Order(q, columns) <==> x in columns
  {
    if actions != [] {
      var front, a := actions[..|actions| - 1], actions[|actions| - 1];
      assert a in actions;
      PanelKeepsTableUsable(p, columns, defaultHidden, front);
      StepKeepsUsable(Run(p, columns, defaultHidden, front), columns, defaultHidden, a);
    }
    OrderShowsEveryColumn(Run(p, columns, defaultHidden, actions), columns);
  }

  // ---------- What each use shows next ----------

  lemma MoveByOneSwaps(keys: seq<string>, i: nat, j: nat)
    requires i < |keys| && j < |keys| && (j == i + 1 || i == j + 1)
    ensures InsertAt(RemoveAt(keys, i), j, keys[i]) == keys[i := keys[j]][j := keys[i]]
  {
  }

  lemma NudgeSwaps(keys: seq<string>, i: nat, down: bool)
    requires Distinct(keys) && i < |keys|
    ensures Nudge(keys, keys[i], down) ==
            if down && i + 1 < |keys| then keys[i := keys[i + 1]][i + 1 := keys[i]]
            else if !down && i > 0 then keys[i := keys[i - 1]][i - 1 := keys[i]]
            else keys
  {
    var j := i + (if down then 1 else -1);
    IndexIn(keys, i);
    if 0 <= j < |keys| {
      NudgeAt(keys, i, down);
      MoveByOneSwaps(keys, i, j);
    }
  }

  lemma ShownAfterNudge(p: Prefs, columns: seq<string>, key: string, down: bool)
    requires Distinct(columns) && Distinct(Order(p, columns))
    ensures var moved := Nudge(Order(p, columns), key, down); Order(Reordered(p, columns, moved), columns) == moved
  {
    var j := IndexOf(Order(p, columns), key) + (if down then 1 else -1);
    if 0 <= j < |Order(p, columns)| {
      ShownAfterReorder(p, columns, key, Order(p, columns)[j]);
    }
  }

  /** An arrow key swaps the column with its neighbour below or above; at the end of the list it does nothing. */
  lemma ArrowSwapsNeighbours(p: Prefs, columns: seq<string>, defaultHidden: seq<string>, i: nat, down: bool)
    requires Distinct(columns) && Distinct(Order(p, columns)) && i < |Order(p, columns)|
    ensures var shown := Order(p, columns);
            var q := Step(p, columns, defaultHidden, Arrow(shown[i], down));
            q.hidden == p.hidden
            && Order(q, columns) ==
               if down && i + 1 < |shown| then shown[i := shown[i + 1]][i + 1 := shown[i]]
               else if !down && i > 0 then shown[i := shown[i - 1]][i - 1 := shown[i]]
               else shown
  {
    NudgeSwaps(Order(p, columns), i, down);
    ShownAfterNudge(p, columns, Order(p, columns)[i], down);
  }

  lemma ShownAfterReorder(p: Prefs, columns: seq<string>, from: string, to: string)
    requires Distinct(columns) && Distinct(Order(p, columns))
    ensures var moved := MoveTo(Order(p, columns), from, to); Order(Reordered(p, columns, moved), columns) == moved
  {
    OrderShowsEveryColumn(p, columns);
    MovedMembers(Order(p, columns), from, to);
    StoredOrderIsShown(MoveTo(Order(p, columns), from, to), p.hidden, columns);
  }

  /** After a drag the column is shown where the other one was and the rest as before; nothing is hidden by it. */
  lemma DragShowsColumnThere(p: Prefs, columns: seq<string>, defaultHidden: seq<string>, from: string, to: string)
    requires Distinct(columns) && Distinct(Order(p, columns)) && from in columns && to in columns && from != to
    ensures var before := Order(p, columns);
            var q := Step(p, columns, defaultHidden, Drag(from, to));
            var after := Order(q, columns);
            q.hidden == p.hidden && |after| == |before|
            && 0 <= IndexOf(before, to) < |after| && after[IndexOf(before, to)] == from
            && Without(after, from) == Without(before, from)
  {
    var before := Order(p, columns);
    OrderShowsEveryColumn(p, columns);
    ShownAfterReorder(p, columns, from, to);
    MoveKeepsTheRest(before, from, to);
    assert |multiset(MoveTo(before, from, to))| == |multiset(before)|;
  }

  /** A switch shows a hidden column and hides a visible one, unless that is the only one; all else stays as shown. */
  lemma SwitchShowsOrHides(p: Prefs, columns: seq<string>, defaultHidden: seq<string>, key: string, x: string)
    requires Distinct(columns) && key in columns
    ensures var q := Step(p, columns, defaultHidden, Switch(key));
            Order(q, columns) == Order(p, columns)
            && (x != key ==> (x in Visible(q, columns) <==> x in Visible(p, columns)))
            && (key in Visible(q, columns) <==> key !in Visible(p, columns) || Visible(p, columns) == [key])
  {
    var q := Step(p, columns, defaultHidden, Switch(key));
    VisibleExactly(p, columns, x, x);
    VisibleExactly(q, columns, x, x);
    VisibleExactly(p, columns, key, key);
    VisibleExactly(q, columns, key, key);
    WithoutMembers(p.hidden, key);
    if |Visible(p, columns)| == 1 && key in Visible(p, columns) {
      assert Visible(p, columns) == [key];
    }
  }

  /** A reset shows the table's order and hides exactly what is hidden by default, whatever was stored. */
  lemma ResetShowsDefaults(p: Prefs, columns: seq<string>, defaultHidden: seq<string>, x: string)
    requires Distinct(columns)
    ensures var q := Step(p, columns, defaultHidden, Reset);
            Order(q, columns) == columns && (x in Visible(q, columns) <==> x in columns && x !in defaultHidden)
  {
    StoredOrderIsShown(columns, defaultHidden, columns);
    VisibleExactly(Step(p, columns, defaultHidden, Reset), columns, x, x);
  }
}
