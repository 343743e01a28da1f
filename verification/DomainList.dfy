/**
 The allowed-domains field (`frontend/src/lib/domains.ts`): text to list and back.
 */
module DomainList {
  import opened Prelude

  /** White space as `String.prototype.trim` understands it. */
  predicate IsSpace(c: char) {
    var n := c as int;
    n == 32 || 9 <= n <= 13 || n == 0xA0 || n == 0xFEFF || n == 0x1680
    || 0x2000 <= n <= 0x200A || n == 0x2028 || n == 0x2029 || n == 0x202F || n == 0x205F || n == 0x3000
  }

  function TrimLeft(s: string): string {
    if s != "" && IsSpace(s[0]) then TrimLeft(s[1..]) else s
  }

  function TrimRight(s: string): string {
    if s != "" && IsSpace(s[|s| - 1]) then TrimRight(s[..|s| - 1]) else s
  }

  function Trim(s: string): string {
    TrimRight(TrimLeft(s))
  }

  /** `text.split(",")`; never empty. */
  function Split(s: string): (r: seq<string>)
    ensures r != []
  {
    if s == "" then [""]
    else
      var rest := Split(s[1..]);
      if s[0] == ',' then [""] + rest else [[s[0]] + rest[0]] + rest[1..]
  }

  function NonEmptyTrimmed(pieces: seq<string>): seq<string> {
    if pieces == [] then []
    else (if Trim(pieces[0]) == "" then [] else [Trim(pieces[0])]) + NonEmptyTrimmed(pieces[1..])
  }

  /** `parseDomains`. */
  function Parse(text: string): seq<string> {
    NonEmptyTrimmed(Split(text))
  }

  /** `joinDomains` of a stored list. */
  function Join(entries: seq<string>): string {
    if entries == [] then "" else if |entries| == 1 then entries[0] else entries[0] + (", " + Join(entries[1..]))
  }

  /** An entry the field can hold: trimmed, not empty, without a comma. */
  predicate Clean(e: string) {
    e != "" && ',' !in e && !IsSpace(e[0]) && !IsSpace(e[|e| - 1])
  }

  // ---------- Trimming ----------

  lemma {:induction false} TrimLeftIsSuffix(s: string)
    ensures |TrimLeft(s)| <= |s| && TrimLeft(s) == s[|s| - |TrimLeft(s)|..]
    ensures TrimLeft(s) != "" ==> !IsSpace(TrimLeft(s)[0])
  {
    if s != "" && IsSpace(s[0]) {
      TrimLeftIsSuffix(s[1..]);
    }
  }

  lemma {:induction false} TrimRightIsPrefix(s: string)
    ensures |TrimRight(s)| <= |s| && TrimRight(s) == s[..|TrimRight(s)|]
    ensures TrimRight(s) != "" ==> !IsSpace(TrimRight(s)[|TrimRight(s)| - 1])
  {
    if s != "" && IsSpace(s[|s| - 1]) {
      TrimRightIsPrefix(s[..|s| - 1]);
    }
  }

  lemma TrimOfPiece(piece: string)
    requires ',' !in piece
    ensures Trim(piece) == "" || Clean(Trim(piece))
  {
    TrimLeftIsSuffix(piece);
    TrimRightIsPrefix(TrimLeft(piece));
  }

  lemma TrimOfClean(e: string)
    requires Clean(e)
    ensures Trim(e) == e
  {
  }

  lemma TrimDropsLeadingSpace(s: string)
    ensures Trim(" " + s) == Trim(s)
  {
    assert (" " + s)[1..] == s;
  }

  // ---------- Splitting ----------

  lemma {:induction false} SplitHasNoComma(s: string)
    ensures forall p | p in Split(s) :: ',' !in p
  {
    if s != "" {
      SplitHasNoComma(s[1..]);
      var rest := Split(s[1..]);
      assert rest[0] in rest;
      assert forall p | p in rest[1..] :: p in rest;
    }
  }

  lemma {:induction false} SplitConcat(a: string, b: string)
    ensures Split(a + ("," + b)) == Split(a) + Split(b)
  {
    if a == "" {
      assert a + ("," + b) == "," + b;
      assert ("," + b)[1..] == b;
    } else {
      assert (a + ("," + b))[0] == a[0] && (a + ("," + b))[1..] == a[1..] + ("," + b);
      SplitConcat(a[1..], b);
    }
  }

  lemma {:induction false} SplitPlain(e: string)
    requires ',' !in e
    ensures Split(e) == [e]
  {
    if e != "" {
      SplitPlain(e[1..]);
      assert [e[0]] + e[1..] == e;
    }
  }

  lemma SplitSpace(s: string)
    ensures Split(" " + s) == [" " + Split(s)[0]] + Split(s)[1..]
  {
    assert (" " + s)[1..] == s;
  }

  lemma {:induction false} NonEmptyTrimmedConcat(a: seq<string>, b: seq<string>)
    ensures NonEmptyTrimmed(a + b) == NonEmptyTrimmed(a) + NonEmptyTrimmed(b)
  {
    if a == [] {
      assert a + b == b;
    } else {
      assert (a + b)[0] == a[0] && (a + b)[1..] == a[1..] + b;
      NonEmptyTrimmedConcat(a[1..], b);
    }
  }

  // ---------- Parsing ----------

  lemma ParseComma(a: string, b: string)
    ensures Parse(a + ("," + b)) == Parse(a) + Parse(b)
  {
    SplitConcat(a, b);
    NonEmptyTrimmedConcat(Split(a), Split(b));
  }

  lemma ParseSpace(s: string)
    ensures Parse(" " + s) == Parse(s)
  {
    SplitSpace(s);
    TrimDropsLeadingSpace(Split(s)[0]);
    assert Split(s) == [Split(s)[0]] + Split(s)[1..];
  }

  lemma ParseClean(e: string)
    requires Clean(e)
    ensures Parse(e) == [e]
  {
    SplitPlain(e);
    TrimOfClean(e);
    assert NonEmptyTrimmed([e][1..]) == [];
  }

  lemma {:induction false} PiecesAreClean(pieces: seq<string>)
    requires forall p | p in pieces :: ',' !in p
    ensures forall e | e in NonEmptyTrimmed(pieces) :: Clean(e)
  {
    if pieces != [] {
      TrimOfPiece(pieces[0]);
      PiecesAreClean(pieces[1..]);
    }
  }

  /** Parsing only ever produces clean entries. */
  lemma ParseIsClean(text: string)
    ensures forall e | e in Parse(text) :: Clean(e)
  {
    SplitHasNoComma(text);
    PiecesAreClean(Split(text));
  }

  lemma {:induction false} JoinOfCleanParses(entries: seq<string>)
    requires forall e | e in entries :: Clean(e)
    ensures Parse(Join(entries)) == entries
  {
    if entries == [] {
      assert Split("") == [""] && Trim("") == "";
      assert NonEmptyTrimmed([""][1..]) == [];
    } else if |entries| == 1 {
      ParseClean(entries[0]);
    } else {
      var first, rest := entries[0], Join(entries[1..]);
      assert first + (", " + rest) == first + ("," + (" " + rest));
      ParseComma(first, " " + rest);
      ParseSpace(rest);
      ParseClean(first);
      JoinOfCleanParses(entries[1..]);
    }
  }

  /** A stored list survives being shown and parsed again exactly when every entry is clean. */
  lemma RoundTripExactlyWhenClean(entries: seq<string>)
    ensures Parse(Join(entries)) == entries <==> forall e | e in entries :: Clean(e)
  {
    ParseIsClean(Join(entries));
    if forall e | e in entries :: Clean(e) {
      JoinOfCleanParses(entries);
    }
  }

  /** So on every text, committing the field and reading it again changes nothing. */
  lemma CommitIsStable(text: string)
    ensures Parse(Join(Parse(text))) == Parse(text)
  {
    ParseIsClean(text);
    RoundTripExactlyWhenClean(Parse(text));
  }

  // ---------- What parsing and joining are, without their bodies ----------

  predicate AllSpace(s: string) {
    forall i | 0 <= i < |s| :: IsSpace(s[i])
  }

  lemma {:induction false} TrimLeftDropsSpace(s: string)
    ensures |TrimLeft(s)| <= |s| && AllSpace(s[..|s| - |TrimLeft(s)|])
  {
    if s != "" && IsSpace(s[0]) {
      TrimLeftDropsSpace(s[1..]);
      assert forall i | 0 < i < |s| - |TrimLeft(s)| :: s[i] == s[1..][..|s[1..]| - |TrimLeft(s)|][i - 1];
    }
  }

  lemma {:induction false} TrimRightDropsSpace(s: string)
    ensures |TrimRight(s)| <= |s| && AllSpace(s[|TrimRight(s)|..])
  {
    if s != "" && IsSpace(s[|s| - 1]) {
      TrimRightDropsSpace(s[..|s| - 1]);
      assert s[|TrimRight(s)|..] == s[..|s| - 1][|TrimRight(s)|..] + [s[|s| - 1]];
    }
  }

  /** Trimming cuts white space off both ends, and no more of it is left there. */
  lemma TrimCutsSpace(s: string) returns (before: string, after: string)
    ensures s == before + Trim(s) + after && AllSpace(before) && AllSpace(after)
    ensures Trim(s) != "" ==> !IsSpace(Trim(s)[0]) && !IsSpace(Trim(s)[|Trim(s)| - 1])
  {
    var left := TrimLeft(s);
    TrimLeftIsSuffix(s);
    TrimLeftDropsSpace(s);
    TrimRightIsPrefix(left);
    TrimRightDropsSpace(left);
    before, after := s[..|s| - |left|], left[|Trim(s)|..];
  }

  /** A text is blank exactly when nothing is left of it. */
  lemma TrimEmptyExactlyWhenBlank(s: string)
    ensures Trim(s) == "" <==> AllSpace(s)
  {
    var before, after := TrimCutsSpace(s);
    if Trim(s) != "" {
      assert s[|before|] == Trim(s)[0];
    }
  }

  /** At a comma a text is parsed in two parts; each part holds one entry at most, itself trimmed. */
  lemma ParseByCommas(a: string, b: string)
    requires ',' !in a
    ensures Parse(a) == if AllSpace(a) then [] else [Trim(a)]
    ensures Parse(a + ("," + b)) == Parse(a) + Parse(b)
  {
    SplitPlain(a);
    TrimEmptyExactlyWhenBlank(a);
    assert NonEmptyTrimmed([a][1..]) == [];
    ParseComma(a, b);
  }

  /** Joining puts a comma and a blank between neighbours and nothing else anywhere. */
  lemma {:induction false} JoinSeparates(a: seq<string>, b: seq<string>)
    ensures Join([]) == "" && (|a| == 1 ==> Join(a) == a[0])
    ensures a != [] && b != [] ==> Join(a + b) == Join(a) + ", " + Join(b)
  {
    if a != [] && b != [] {
      assert (a + b)[0] == a[0] && (a + b)[1..] == a[1..] + b;
      if |a| == 1 {
        assert a[1..] + b == b;
        assert a[0] + (", " + Join(b)) == a[0] + ", " + Join(b);
      } else {
        JoinSeparates(a[1..], b);
        assert a[0] + (", " + (Join(a[1..]) + ", " + Join(b))) == a[0] + (", " + Join(a[1..])) + ", " + Join(b);
      }
    }
  }

  // ---------- The field ----------

  /** What is stored: a list, a text, or neither. */
  datatype Stored = List(entries: seq<string>) | Text(text: string) | Neither

  /** `joinDomains`. */
  function JoinStored(stored: Stored): string {
    match stored
    case List(entries) => Join(entries)
    case Text(text) => text
    case Neither => ""
  }

  /** `domainsFieldValue`: the draft while there is one. */
  function FieldValue(draft: Option<string>, stored: Stored): string {
    if draft.Some? then draft.value else JoinStored(stored)
  }

  /**
   While it is edited the field shows what was typed, commas and blanks included; committing shows a text that
   parses to the same list, so editing and committing again without typing changes nothing.
   */
  lemma FieldFollowsTyping(typed: string, stored: Stored)
    ensures FieldValue(Some(typed), stored) == typed
    ensures var committed := List(Parse(typed));
            Parse(FieldValue(None, committed)) == Parse(typed)
            && FieldValue(None, List(Parse(FieldValue(None, committed)))) == FieldValue(None, committed)
  {
    CommitIsStable(typed);
  }
}
