/**
 The file-share backfill (`infra/tools/backfill_file_share_state.py`): claims a pointer for every slot's key,
 stamps the slots whose file is in the bucket, registers folders, and reports what it could not claim.
 */
module FileShareBackfill {
  import opened Prelude

  /** A slot item as scanned; empty strings stand for missing or empty attributes. */
  datatype Slot = Slot(id: string, key: string, folder: Option<string>, fileName: Option<string>, uploaded: bool)

  /** Pointers by key, the ids stamped as uploaded by the tool, and the folder registry. */
  datatype Table = Table(pointers: map<string, string>, stamped: set<string>, folders: set<string>)

  datatype Report = Report(pointers: nat, uploads: nat, conflicts: nat, folders: set<string>)

  /** `f"{x}"` of an attribute that may be missing. */
  function Shown(s: Option<string>): string {
    if s.Some? then s.value else "None"
  }

  function KeyOf(s: Slot): string {
    if s.key != "" then s.key else Shown(s.folder) + "/" + Shown(s.fileName)
  }

  predicate WellFormed(s: Slot) {
    s.id != "" && '/' in KeyOf(s)
  }

  function TopLevel(key: string): string {
    if key == "" || key[0] == '/' then "" else [key[0]] + TopLevel(key[1..])
  }

  // ---------- One slot ----------

  function SlotFolders(s: Slot): set<string> {
    if s.folder.Some? && s.folder.value != "" then {s.folder.value} else {}
  }

  predicate NeedsStamp(s: Slot, objects: set<string>) {
    KeyOf(s) in objects && !s.uploaded
  }

  function VisitTable(t: Table, s: Slot, objects: set<string>, apply: bool): Table {
    if !WellFormed(s) || !apply then t
    else t.(pointers := if KeyOf(s) in t.pointers then t.pointers else t.pointers[KeyOf(s) := s.id],
            stamped := if NeedsStamp(s, objects) then t.stamped + {s.id} else t.stamped)
  }

  function VisitReport(r: Report, t: Table, s: Slot, objects: set<string>): Report {
    if !WellFormed(s) then r
    else Report(r.pointers + (if KeyOf(s) !in t.pointers then 1 else 0),
                r.uploads + (if NeedsStamp(s, objects) then 1 else 0),
                r.conflicts + (if KeyOf(s) in t.pointers && t.pointers[KeyOf(s)] != s.id then 1 else 0),
                r.folders + SlotFolders(s))
  }

  // ---------- The whole run ----------

  function VisitAll(t: Table, slots: seq<Slot>, objects: set<string>, apply: bool): (Table, Report) {
    if slots == [] then (t, Report(0, 0, 0, {}))
    else
      var (before, r) := VisitAll(t, slots[..|slots| - 1], objects, apply);
      var s := slots[|slots| - 1];
      (VisitTable(before, s, objects, apply), VisitReport(r, before, s, objects))
  }

  function Prefixes(objects: set<string>): set<string> {
    set k | k in objects && '/' in k :: TopLevel(k)
  }

  function Backfilled(t: Table, slots: seq<Slot>, objects: set<string>, apply: bool): (Table, Report) {
    var (visited, r) := VisitAll(t, slots, objects, apply);
    var folders := (r.folders + Prefixes(objects)) - {""};
    (if apply then visited.(folders := visited.folders + folders) else visited, r.(folders := folders))
  }

  lemma VisitOneMore(t: Table, slots: seq<Slot>, objects: set<string>, apply: bool, i: nat)
    requires i < |slots|
    ensures var (before, r) := VisitAll(t, slots[..i], objects, apply);
            VisitAll(t, slots[..i + 1], objects, apply) ==
            (VisitTable(before, slots[i], objects, apply), VisitReport(r, before, slots[i], objects))
  {
    assert slots[..i + 1][..i] == slots[..i];
  }

  /** The tool with its counters, its folder set and the table it writes to. */
  class Backfill {
    var table: Table

    constructor (table: Table)
      ensures this.table == table
    {
      this.table := table;
    }

    method Run(slots: seq<Slot>, objects: set<string>, apply: bool) returns (report: Report, exitCode: int)
      modifies this
      ensures (table, report) == Backfilled(old(table), slots, objects, apply)
      ensures exitCode == if report.conflicts > 0 then 1 else 0
    {
      var folders: set<string> := {};
      var pointers, uploads, conflicts := 0, 0, 0;
      for i := 0 to |slots|
        invariant (table, Report(pointers, uploads, conflicts, folders)) == VisitAll(old(table), slots[..i], objects, apply)
      {
        var slot := slots[i];
        ghost var before, r := table, Report(pointers, uploads, conflicts, folders);
        VisitOneMore(old(table), slots, objects, apply, i);
        if !WellFormed(slot) {
          continue;
        }
        assert folders + {} == folders;
        if slot.folder.Some? && slot.folder.value != "" {
          folders := folders + {slot.folder.value};
        }
        var key := KeyOf(slot);
        if key !in table.pointers {
          pointers := pointers + 1;
          if apply {
            table := table.(pointers := table.pointers[key := slot.id]);
          }
        } else if table.pointers[key] != slot.id {
          conflicts := conflicts + 1;
        }
        if key in objects && !slot.uploaded {
          uploads := uploads + 1;
          if apply {
            table := table.(stamped := table.stamped + {slot.id});
          }
        }
        assert table == VisitTable(before, slot, objects, apply);
        assert Report(pointers, uploads, conflicts, folders) == VisitReport(r, before, slot, objects);
      }
      assert slots[..|slots|] == slots;
      folders := folders + Prefixes(objects);
      folders := folders - {""};
      if folders != {} && apply {
        table := table.(folders := table.folders + folders);
      }
      report := Report(pointers, uploads, conflicts, folders);
      exitCode := if conflicts > 0 then 1 else 0;
      assert table.(folders := table.folders + {}) == table;
    }
  }

  // ---------- What an apply run leaves ----------

  /** The first well-formed slot for a key, in scan order. */
  function FirstFor(slots: seq<Slot>, key: string): Option<Slot> {
    if slots == [] then None
    else
      var before := FirstFor(slots[..|slots| - 1], key);
      var s := slots[|slots| - 1];
      if before.Some? then before else if WellFormed(s) && KeyOf(s) == key then Some(s) else None
  }

  function PointerAt(t: Table, key: string): Option<string> {
    if key in t.pointers then Some(t.pointers[key]) else None
  }

  /** Earlier pointers stay; every other key gets the first well-formed slot that has it; no other key gets one. */
  lemma {:induction false} PointersNameFirstSlots(t: Table, slots: seq<Slot>, objects: set<string>, key: string)
    ensures PointerAt(VisitAll(t, slots, objects, true).0, key) ==
            if key in t.pointers then Some(t.pointers[key])
            else if FirstFor(slots, key).Some? then Some(FirstFor(slots, key).value.id) else None
  {
    if slots != [] {
      PointersNameFirstSlots(t, slots[..|slots| - 1], objects, key);
    }
  }

  /** Slot `i` is the first well-formed one for the key. */
  ghost predicate FirstAt(slots: seq<Slot>, key: string, i: int) {
    0 <= i < |slots| && WellFormed(slots[i]) && KeyOf(slots[i]) == key && NoneBefore(slots, key, i)
  }

  ghost predicate NoneBefore(slots: seq<Slot>, key: string, n: nat)
    requires n <= |slots|
  {
    forall j | 0 <= j < n && WellFormed(slots[j]) :: KeyOf(slots[j]) != key
  }

  lemma NoneBeforeFront(slots: seq<Slot>, key: string, n: nat)
    requires n < |slots|
    ensures NoneBefore(slots[..|slots| - 1], key, n) <==> NoneBefore(slots, key, n)
  {
    var front := slots[..|slots| - 1];
    assert forall j | 0 <= j < n :: front[j] == slots[j];
  }

  lemma FirstAtFront(slots: seq<Slot>, key: string, i: int)
    requires slots != [] && FirstAt(slots[..|slots| - 1], key, i)
    ensures FirstAt(slots, key, i)
  {
    NoneBeforeFront(slots, key, i);
  }

  lemma {:induction false} FirstForIsFirst(slots: seq<Slot>, key: string)
    ensures FirstFor(slots, key).None? <==> NoneBefore(slots, key, |slots|)
    ensures FirstFor(slots, key).Some? ==> exists i :: FirstAt(slots, key, i) && slots[i] == FirstFor(slots, key).value
  {
    if slots != [] {
      var front, n := slots[..|slots| - 1], |slots| - 1;
      FirstForIsFirst(front, key);
      NoneBeforeFront(slots, key, n);
      if FirstFor(front, key).Some? {
        var i :| FirstAt(front, key, i) && front[i] == FirstFor(front, key).value;
        FirstAtFront(slots, key, i);
        assert slots[i] == FirstFor(slots, key).value;
      } else if FirstFor(slots, key).Some? {
        assert FirstAt(slots, key, n) && slots[n] == FirstFor(slots, key).value;
      }
    }
  }

  /** How many slots of a list are well formed and not named by their key's pointer. */
  function Unnamed(t: Table, slots: seq<Slot>): nat {
    if slots == [] then 0
    else
      var s := slots[|slots| - 1];
      Unnamed(t, slots[..|slots| - 1]) + (if WellFormed(s) && PointerAt(t, KeyOf(s)) != Some(s.id) then 1 else 0)
  }

  lemma {:induction false} UnnamedDependsOnPointers(t: Table, u: Table, slots: seq<Slot>)
    requires forall i | 0 <= i < |slots| && WellFormed(slots[i]) :: PointerAt(t, KeyOf(slots[i])) == PointerAt(u, KeyOf(slots[i]))
    ensures Unnamed(t, slots) == Unnamed(u, slots)
  {
    if slots != [] {
      UnnamedDependsOnPointers(t, u, slots[..|slots| - 1]);
    }
  }

  /** Every well-formed slot visited by an apply run has a pointer for its key afterwards. */
  lemma EverySlotHasPointer(t: Table, slots: seq<Slot>, objects: set<string>, i: nat)
    requires i < |slots| && WellFormed(slots[i])
    ensures PointerAt(VisitAll(t, slots, objects, true).0, KeyOf(slots[i])).Some?
  {
    PointersNameFirstSlots(t, slots, objects, KeyOf(slots[i]));
    FirstForIsFirst(slots, KeyOf(slots[i]));
  }

  /** The conflicts an apply run reports are exactly the well-formed slots their key's final pointer does not name. */
  lemma {:induction false} ConflictsAreUnnamedSlots(t: Table, slots: seq<Slot>, objects: set<string>)
    ensures var (after, r) := VisitAll(t, slots, objects, true); r.conflicts == Unnamed(after, slots)
  {
    if slots != [] {
      var front, s := slots[..|slots| - 1], slots[|slots| - 1];
      ConflictsAreUnnamedSlots(t, front, objects);
      var before := VisitAll(t, front, objects, true).0;
      var after := VisitAll(t, slots, objects, true).0;
      forall i | 0 <= i < |front| && WellFormed(front[i])
        ensures PointerAt(before, KeyOf(front[i])) == PointerAt(after, KeyOf(front[i]))
      {
        EverySlotHasPointer(t, front, objects, i);
      }
      UnnamedDependsOnPointers(before, after, front);
    }
  }

  /** The pointers reported are the ones added. */
  lemma {:induction false} PointersReportedAreAdded(t: Table, slots: seq<Slot>, objects: set<string>)
    ensures var (after, r) := VisitAll(t, slots, objects, true); r.pointers == |after.pointers| - |t.pointers|
  {
    if slots != [] {
      var front, s := slots[..|slots| - 1], slots[|slots| - 1];
      PointersReportedAreAdded(t, front, objects);
      var before := VisitAll(t, front, objects, true).0;
      if WellFormed(s) && KeyOf(s) !in before.pointers {
        assert before.pointers[KeyOf(s) := s.id].Keys == before.pointers.Keys + {KeyOf(s)};
        assert |before.pointers[KeyOf(s) := s.id].Keys| == |before.pointers.Keys| + 1;
      }
    }
  }

  /** Stamped are exactly the well-formed slots whose file is in the bucket and which had no upload mark. */
  lemma {:induction false} StampedIds(t: Table, slots: seq<Slot>, objects: set<string>, id: string)
    ensures id in VisitAll(t, slots, objects, true).0.stamped <==>
            id in t.stamped
            || exists i :: 0 <= i < |slots| && WellFormed(slots[i]) && KeyOf(slots[i]) in objects && !slots[i].uploaded
                           && slots[i].id == id
  {
    if slots != [] {
      StampedIds(t, slots[..|slots| - 1], objects, id);
    }
  }

  /** The slot's file is in the bucket and the slot has no upload mark. */
  predicate IsStampable(s: Slot, objects: set<string>) {
    WellFormed(s) && KeyOf(s) in objects && !s.uploaded
  }

  function StampableIn(objects: set<string>): Slot -> bool {
    s => IsStampable(s, objects)
  }

  /** The positions of the slots picked. */
  ghost function Where(slots: seq<Slot>, pick: Slot -> bool): set<nat> {
    set i: nat | i < |slots| && pick(slots[i])
  }

  lemma WhereOneMore(slots: seq<Slot>, pick: Slot -> bool)
    requires slots != []
    ensures var n := |slots| - 1; |Where(slots, pick)| == |Where(slots[..n], pick)| + (if pick(slots[n]) then 1 else 0)
  {
    var n := |slots| - 1;
    assert Where(slots, pick) == Where(slots[..n], pick) + (if pick(slots[n]) then {n} else {});
  }

  lemma UploadsOneMore(t: Table, slots: seq<Slot>, objects: set<string>, apply: bool)
    requires slots != []
    ensures VisitAll(t, slots, objects, apply).1.uploads ==
            VisitAll(t, slots[..|slots| - 1], objects, apply).1.uploads
            + (if IsStampable(slots[|slots| - 1], objects) then 1 else 0)
  {
  }

  /** The uploads reported, by either kind of run, are their number. */
  lemma {:induction false} UploadsReported(t: Table, slots: seq<Slot>, objects: set<string>, apply: bool)
    ensures VisitAll(t, slots, objects, apply).1.uploads == |Where(slots, StampableIn(objects))|
  {
    if slots == [] {
      assert Where(slots, StampableIn(objects)) == {};
    } else {
      UploadsReported(t, slots[..|slots| - 1], objects, apply);
      UploadsOneMore(t, slots, objects, apply);
      WhereOneMore(slots, StampableIn(objects));
    }
  }

  // ---------- Keys and folders ----------

  /** A slot without a stored key gets one from its folder and file name, so only a missing id makes it malformed. */
  lemma KeyWithoutStoredKey(s: Slot, folder: string, name: string)
    requires s.key == "" && s.folder == Some(folder) && s.fileName == Some(name)
    ensures KeyOf(s) == folder + "/" + name && (WellFormed(s) <==> s.id != "")
  {
    assert KeyOf(s)[|folder|] == '/';
  }

  lemma KeyWithStoredKey(s: Slot)
    requires s.key != ""
    ensures KeyOf(s) == s.key && (WellFormed(s) <==> s.id != "" && exists i :: 0 <= i < |s.key| && s.key[i] == '/')
  {
    assert forall i | 0 <= i < |s.key| :: s.key[i] in s.key;
  }

  /** The top level of a key is what stands before its first slash. */
  lemma {:induction false} TopLevelBeforeSlash(key: string)
    requires '/' in key
    ensures '/' !in TopLevel(key) && |TopLevel(key)| < |key|
    ensures key[..|TopLevel(key)|] == TopLevel(key) && key[|TopLevel(key)|] == '/'
  {
    if key[0] != '/' {
      TopLevelBeforeSlash(key[1..]);
    }
  }

  lemma {:induction false} SlotFoldersReported(t: Table, slots: seq<Slot>, objects: set<string>, apply: bool, folder: string)
    ensures folder in VisitAll(t, slots, objects, apply).1.folders <==>
            folder != "" && exists i :: 0 <= i < |slots| && WellFormed(slots[i]) && slots[i].folder == Some(folder)
  {
    if slots != [] {
      SlotFoldersReported(t, slots[..|slots| - 1], objects, apply, folder);
    }
  }

  /**
   The registry gets the folders of the well-formed slots and the top levels of the bucket's keys, never an empty
   one, and keeps what it had; the report names exactly the same folders in a dry run.
   */
  lemma FoldersRegistered(t: Table, slots: seq<Slot>, objects: set<string>, apply: bool, folder: string)
    ensures var (after, r) := Backfilled(t, slots, objects, apply);
            (folder in r.folders <==>
               folder != "" && ((exists i :: 0 <= i < |slots| && WellFormed(slots[i]) && slots[i].folder == Some(folder))
                                || (exists k :: k in objects && '/' in k && TopLevel(k) == folder)))
            && (apply ==> after.folders == t.folders + r.folders)
  {
    SlotFoldersReported(t, slots, objects, apply, folder);
    VisitsKeepFolders(t, slots, objects, apply);
  }

  lemma {:induction false} VisitsKeepFolders(t: Table, slots: seq<Slot>, objects: set<string>, apply: bool)
    ensures VisitAll(t, slots, objects, apply).0.folders == t.folders
  {
    if slots != [] {
      VisitsKeepFolders(t, slots[..|slots| - 1], objects, apply);
    }
  }

  /** A dry run writes nothing at all. */
  lemma DryRunWritesNothing(t: Table, slots: seq<Slot>, objects: set<string>)
    ensures Backfilled(t, slots, objects, false).0 == t
  {
    DryRunKeepsTable(t, slots, objects);
  }

  // ---------- A second run ----------

  /** The slots as the next scan returns them: the stamped ones are uploaded now. */
  function Rescanned(slots: seq<Slot>, stamped: set<string>): seq<Slot> {
    seq(|slots|, i requires 0 <= i < |slots| =>
      if slots[i].id in stamped then slots[i].(uploaded := true) else slots[i])
  }

  /** A list of slots a run has nothing to write for. */
  ghost predicate Settled(t: Table, slots: seq<Slot>, objects: set<string>) {
    forall i | 0 <= i < |slots| && WellFormed(slots[i]) ::
      KeyOf(slots[i]) in t.pointers && !NeedsStamp(slots[i], objects)
  }

  lemma {:induction false} SettledRunWritesNothing(t: Table, slots: seq<Slot>, objects: set<string>, apply: bool)
    requires Settled(t, slots, objects)
    ensures var (after, r) := VisitAll(t, slots, objects, apply);
            after == t && r.pointers == 0 && r.uploads == 0 && r.conflicts == Unnamed(t, slots)
  {
    if slots != [] {
      SettledRunWritesNothing(t, slots[..|slots| - 1], objects, apply);
    }
  }

  lemma RescannedIsSettled(t: Table, slots: seq<Slot>, objects: set<string>)
    ensures var after := VisitAll(t, slots, objects, true).0; Settled(after, Rescanned(slots, after.stamped), objects)
  {
    var after := VisitAll(t, slots, objects, true).0;
    var again := Rescanned(slots, after.stamped);
    forall i | 0 <= i < |again| && WellFormed(again[i])
      ensures KeyOf(again[i]) in after.pointers && !NeedsStamp(again[i], objects)
    {
      EverySlotHasPointer(t, slots, objects, i);
      StampedIds(t, slots, objects, slots[i].id);
    }
  }

  lemma {:induction false} UnnamedIgnoresUploads(t: Table, slots: seq<Slot>, stamped: set<string>)
    ensures Unnamed(t, Rescanned(slots, stamped)) == Unnamed(t, slots)
  {
    if slots != [] {
      UnnamedIgnoresUploads(t, slots[..|slots| - 1], stamped);
      assert Rescanned(slots, stamped)[..|slots| - 1] == Rescanned(slots[..|slots| - 1], stamped);
    }
  }

  lemma {:induction false} FoldersFromSlots(t: Table, u: Table, slots: seq<Slot>, again: seq<Slot>, objects: set<string>, a: bool, b: bool)
    requires |again| == |slots|
    requires forall i | 0 <= i < |slots| ::
               again[i].folder == slots[i].folder && (WellFormed(again[i]) <==> WellFormed(slots[i]))
    ensures VisitAll(t, slots, objects, a).1.folders == VisitAll(u, again, objects, b).1.folders
  {
    if slots != [] {
      FoldersFromSlots(t, u, slots[..|slots| - 1], again[..|again| - 1], objects, a, b);
    }
  }

  /** A second apply run, on the slots as they are scanned then, writes nothing and reports the same conflicts. */
  lemma SecondRunWritesNothing(t: Table, slots: seq<Slot>, objects: set<string>)
    ensures var (after, r) := Backfilled(t, slots, objects, true);
            var (again, r2) := Backfilled(after, Rescanned(slots, after.stamped), objects, true);
            again == after && r2 == Report(0, 0, r.conflicts, r.folders)
  {
    var (visited, r) := VisitAll(t, slots, objects, true);
    var after := Backfilled(t, slots, objects, true).0;
    var slots2 := Rescanned(slots, visited.stamped);
    RescannedIsSettled(t, slots, objects);
    assert Settled(after, slots2, objects);
    SettledRunWritesNothing(after, slots2, objects, true);
    ConflictsAreUnnamedSlots(t, slots, objects);
    UnnamedIgnoresUploads(after, slots, visited.stamped);
    UnnamedDependsOnPointers(visited, after, slots);
    FoldersFromSlots(t, after, slots, slots2, objects, true, true);
    assert after.folders + ((r.folders + Prefixes(objects)) - {""}) == after.folders;
  }

  // ---------- Dry run against apply ----------

  /** Slots for a key the table does not have, beyond the first one for that key. */
  function Extra(t: Table, slots: seq<Slot>): nat {
    if slots == [] then 0
    else
      var front, s := slots[..|slots| - 1], slots[|slots| - 1];
      Extra(t, front) + (if WellFormed(s) && KeyOf(s) !in t.pointers && FirstFor(front, KeyOf(s)).Some? then 1 else 0)
  }

  /** Those of them that carry the same id as the first one. */
  function Repeats(t: Table, slots: seq<Slot>): nat {
    if slots == [] then 0
    else
      var front, s := slots[..|slots| - 1], slots[|slots| - 1];
      var first := FirstFor(front, KeyOf(s));
      Repeats(t, front)
      + (if WellFormed(s) && KeyOf(s) !in t.pointers && first.Some? && first.value.id == s.id then 1 else 0)
  }

  lemma {:induction false} DryRunKeepsTable(t: Table, slots: seq<Slot>, objects: set<string>)
    ensures VisitAll(t, slots, objects, false).0 == t
  {
    if slots != [] {
      DryRunKeepsTable(t, slots[..|slots| - 1], objects);
    }
  }

  /**
   A dry run announces one pointer too many for every extra slot of a key not claimed before; it reports
   each of those as a conflict less, unless the slot repeats the first one's id. Uploads agree.
   */
  lemma {:induction false} DryRunAgainstApply(t: Table, slots: seq<Slot>, objects: set<string>)
    ensures var dry, applied := VisitAll(t, slots, objects, false).1, VisitAll(t, slots, objects, true).1;
            dry.pointers == applied.pointers + Extra(t, slots)
            && dry.conflicts + Extra(t, slots) == applied.conflicts + Repeats(t, slots)
            && dry.uploads == applied.uploads && dry.folders == applied.folders
  {
    if slots != [] {
      var front, s := slots[..|slots| - 1], slots[|slots| - 1];
      DryRunAgainstApply(t, front, objects);
      DryRunKeepsTable(t, front, objects);
      PointersNameFirstSlots(t, front, objects, KeyOf(s));
    }
  }

  lemma {:induction false} DistinctIdsDoNotRepeat(t: Table, slots: seq<Slot>)
    requires forall i, j | 0 <= i < j < |slots| :: slots[i].id != slots[j].id
    ensures Repeats(t, slots) == 0
  {
    if slots != [] {
      DistinctIdsDoNotRepeat(t, slots[..|slots| - 1]);
      FirstForIsFirst(slots[..|slots| - 1], KeyOf(slots[|slots| - 1]));
    }
  }

  /** They can differ: one slot scanned twice is two pointers to a dry run and one to an apply run. */
  lemma RepeatedSlotCountsTwice(t: Table, s: Slot, objects: set<string>)
    requires WellFormed(s) && KeyOf(s) !in t.pointers
    ensures var dry, applied := VisitAll(t, [s, s], objects, false).1, VisitAll(t, [s, s], objects, true).1;
            dry.pointers + dry.conflicts == 2 && applied.pointers + applied.conflicts == 1
  {
    var slots := [s, s];
    assert slots[..2] == slots && slots[..0] == [];
    VisitOneMore(t, slots, objects, false, 0);
    VisitOneMore(t, slots, objects, false, 1);
    VisitOneMore(t, slots, objects, true, 0);
    VisitOneMore(t, slots, objects, true, 1);
  }

  /** Pointers and conflicts together agree between a dry run and an apply run exactly when no slot repeats. */
  lemma DryRunTotalsAgreeExactlyWhen(t: Table, slots: seq<Slot>, objects: set<string>)
    ensures var dry, applied := VisitAll(t, slots, objects, false).1, VisitAll(t, slots, objects, true).1;
            dry.pointers + dry.conflicts == applied.pointers + applied.conflicts <==> Repeats(t, slots) == 0
    ensures (forall i, j | 0 <= i < j < |slots| :: slots[i].id != slots[j].id) ==> Repeats(t, slots) == 0
  {
    DryRunAgainstApply(t, slots, objects);
    if forall i, j | 0 <= i < j < |slots| :: slots[i].id != slots[j].id {
      DistinctIdsDoNotRepeat(t, slots);
    }
  }

  // ---------- The bucket listing ----------

  datatype ListPage = ListPage(keys: seq<string>, truncated: bool, token: string)

  /** What a listing reads: up to and including the first page that is not truncated or has no token. */
  function Listed(pages: seq<ListPage>): set<string> {
    if pages == [] then {}
    else (set k | k in pages[0].keys) + (if Continues(pages[0]) then Listed(pages[1..]) else {})
  }

  /** The listing goes on after this page. */
  predicate Continues(page: ListPage) {
    page.truncated && page.token != ""
  }

  /** Where it ends: the first page that does not continue, or the last one. */
  ghost predicate EndsAt(pages: seq<ListPage>, n: nat) {
    n <= |pages| && (forall i | 0 <= i < n - 1 :: Continues(pages[i]))
    && (n < |pages| ==> n > 0 && !Continues(pages[n - 1]))
  }

  /** The listing has every object of the pages up to the end of the listing, and no other. */
  lemma {:induction false} ListedUpToTheEnd(pages: seq<ListPage>, n: nat, key: string)
    requires EndsAt(pages, n)
    ensures key in Listed(pages) <==> exists i :: 0 <= i < n && key in pages[i].keys
  {
    if pages != [] && Continues(pages[0]) {
      assert n > 0;
      assert forall i | 0 <= i < |pages| - 1 :: pages[1..][i] == pages[i + 1];
      ListedUpToTheEnd(pages[1..], n - 1, key);
      if i :| 0 <= i < n - 1 && key in pages[1..][i].keys {
        assert key in pages[i + 1].keys;
      }
      if i :| 0 <= i < n && key in pages[i].keys {
        assert i > 0 ==> key in pages[1..][i - 1].keys;
      }
    } else if pages != [] {
      assert n == 1;
    }
  }

  method BucketObjects(pages: seq<ListPage>) returns (out: set<string>)
    ensures out == Listed(pages)
  {
    out := {};
    var i := 0;
    while i < |pages|
      invariant i <= |pages|
      invariant out + Listed(pages[i..]) == Listed(pages)
    {
      out := out + set k | k in pages[i].keys;
      if !pages[i].truncated || pages[i].token == "" {
        return;
      }
      i := i + 1;
    }
  }
}
