/**
 What the index-block parser computes, stated without its loop: the one way to cut a body into a
 prefix that is dropped and one entry per index, comments going to the index below them.
 */
module GsiParserLaws {
  import opened Prelude
  import opened GsiLines
  import opened GsiBlocks

  ghost predicate EndsInComment(ls: Text) {
    ls != [] && IsComment(ls[|ls| - 1])
  }

  ghost predicate NoIndexIn(ls: Text) {
    forall i | 0 <= i < |ls| :: IndexOf(ls[i]).None?
  }

  /** Comments, then the opening line of index `e.n`, then lines that open no index. */
  ghost predicate OpensAt(e: Entry, k: nat) {
    k < |e.lines| && IndexOf(e.lines[k]) == Some(e.n)
    && (forall i | 0 <= i < k :: IsComment(e.lines[i]))
    && NoIndexIn(e.lines[k + 1..])
  }

  ghost predicate WellFormed(e: Entry) {
    exists k: nat :: OpensAt(e, k)
  }

  function Flatten(es: seq<Entry>): Text {
    if es == [] then [] else Flatten(es[..|es| - 1]) + es[|es| - 1].lines
  }

  function Numbers(es: seq<Entry>): seq<int> {
    seq(|es|, i requires 0 <= i < |es| => es[i].n)
  }

  /** The index numbers a body declares, top to bottom. */
  function Declared(body: Text): seq<int> {
    if body == [] then []
    else
      var l := body[|body| - 1];
      Declared(body[..|body| - 1]) + (if IndexOf(l).Some? then [IndexOf(l).value] else [])
  }

  /** Only the last entry may end in a comment. */
  ghost predicate NoEarlyTrailingComment(es: seq<Entry>) {
    forall i | 0 <= i < |es| - 1 :: !EndsInComment(es[i].lines)
  }

  ghost predicate AllWellFormed(es: seq<Entry>) {
    forall i | 0 <= i < |es| :: WellFormed(es[i])
  }

  /** `lost` is dropped; when there is an entry, `lost` does not end in a comment. */
  ghost predicate IsCut(body: Text, lost: Text, es: seq<Entry>) {
    body == lost + Flatten(es) && NoIndexIn(lost) && AllWellFormed(es) && NoEarlyTrailingComment(es)
    && (es != [] ==> !EndsInComment(lost))
  }

  // ---------- Small facts about sequences of entries ----------

  lemma SplitLast<T>(s: seq<T>, n: nat)
    requires 0 < n <= |s|
    ensures s[..n][..n - 1] == s[..n - 1] && s[..n - 1] + [s[n - 1]] == s[..n]
  {
  }

  lemma FlattenSnoc(es: seq<Entry>, e: Entry)
    ensures Flatten(es + [e]) == Flatten(es) + e.lines
  {
    assert (es + [e])[..|es|] == es;
  }

  lemma CommentStartOfPlain(ls: Text)
    requires !EndsInComment(ls)
    ensures CommentStart(ls) == |ls|
  {
  }

  lemma {:induction false} CommentStartAppend(ls: Text, comments: Text)
    requires forall i | 0 <= i < |comments| :: IsComment(comments[i])
    ensures CommentStart(ls + comments) == CommentStart(ls)
  {
    if comments == [] {
      assert ls + comments == ls;
    } else {
      var n := |comments| - 1;
      assert (ls + comments)[..|ls| + n] == ls + comments[..n];
      CommentStartAppend(ls, comments[..n]);
    }
  }

  lemma {:induction false} ScanConcat(s: Scan, a: Text, b: Text)
    ensures ScanFrom(s, a + b) == ScanFrom(ScanFrom(s, a), b)
  {
    if b == [] {
      assert a + b == a;
    } else {
      var n := |b| - 1;
      assert a + b == (a + b[..n]) + [b[n]];
      ScanAppend(s, a + b[..n], b[n]);
      ScanConcat(s, a, b[..n]);
    }
  }

  lemma {:induction false} ScanNoIndex(s: Scan, ls: Text)
    requires NoIndexIn(ls)
    ensures ScanFrom(s, ls) == s.(cur := s.cur + ls)
  {
    if ls != [] {
      var n := |ls| - 1;
      ScanNoIndex(s, ls[..n]);
      assert (s.cur + ls[..n]) + [ls[n]] == s.cur + ls;
    }
  }

  // ---------- The scan of a list of entries ----------

  lemma CommentsHoldNoIndex(e: Entry, k: nat)
    requires OpensAt(e, k)
    ensures NoIndexIn(e.lines[..k])
  {
  }

  lemma SplitAround<T>(s: seq<T>, k: nat)
    requires k < |s|
    ensures s == (s[..k] + [s[k]]) + s[k + 1..]
  {
  }

  lemma ScanEntryAt(s: Scan, e: Entry, k: nat)
    requires OpensAt(e, k) && !EndsInComment(s.cur)
    ensures ScanFrom(s, e.lines) == Scan(Finish(s), e.lines, Some(e.n))
  {
    var opening, rest := e.lines[..k] + [e.lines[k]], e.lines[k + 1..];
    ScanOpening(s, e, k);
    ScanNoIndex(Scan(Finish(s), opening, Some(e.n)), rest);
    ScanConcat(s, opening, rest);
    SplitAround(e.lines, k);
  }

  /** Reading one entry closes the previous one, provided that one does not end in a comment. */
  lemma ScanEntry(s: Scan, e: Entry)
    requires WellFormed(e) && !EndsInComment(s.cur)
    ensures ScanFrom(s, e.lines) == Scan(Finish(s), e.lines, Some(e.n))
  {
    var k: nat :| OpensAt(e, k);
    ScanEntryAt(s, e, k);
  }

  lemma ScanOpening(s: Scan, e: Entry, k: nat)
    requires OpensAt(e, k) && !EndsInComment(s.cur)
    ensures ScanFrom(s, e.lines[..k] + [e.lines[k]]) == Scan(Finish(s), e.lines[..k] + [e.lines[k]], Some(e.n))
  {
    var comments := e.lines[..k];
    ScanNoIndex(s, comments);
    ScanAppend(s, comments, e.lines[k]);
    CommentStartAppend(s.cur, comments);
    CommentStartOfPlain(s.cur);
    TakeDrop(s.cur, comments);
  }

  lemma TakeDrop<T>(a: seq<T>, b: seq<T>)
    ensures (a + b)[..|a|] == a && (a + b)[|a|..] == b
  {
  }

  /** Reading one more entry after a list of them. */
  lemma ScanOneMore(read: Text, es: seq<Entry>, n: nat)
    requires 0 < n < |es| && WellFormed(es[n]) && !EndsInComment(es[n - 1].lines)
    requires ScanFrom(START, read) == Scan(es[..n - 1], es[n - 1].lines, Some(es[n - 1].n))
    ensures ScanFrom(START, read + es[n].lines) == Scan(es[..n], es[n].lines, Some(es[n].n))
  {
    ScanConcat(START, read, es[n].lines);
    ScanEntry(ScanFrom(START, read), es[n]);
    SplitLast(es, n);
  }

  lemma ScanFirst(lost: Text, e: Entry)
    requires NoIndexIn(lost) && !EndsInComment(lost) && WellFormed(e)
    ensures ScanFrom(START, lost + e.lines) == Scan([], e.lines, Some(e.n))
  {
    ScanConcat(START, lost, e.lines);
    ScanNoIndex(START, lost);
    assert START.cur + lost == lost;
    ScanEntry(START.(cur := lost), e);
  }

  lemma {:induction false} ScanEntries(lost: Text, es: seq<Entry>, n: nat)
    requires NoIndexIn(lost) && AllWellFormed(es) && NoEarlyTrailingComment(es) && !EndsInComment(lost)
    requires n < |es|
    ensures ScanFrom(START, lost + Flatten(es[..n + 1])) == Scan(es[..n], es[n].lines, Some(es[n].n))
  {
    FlattenTake(lost, es, n);
    if n == 0 {
      assert lost + Flatten(es[..0]) == lost;
      ScanFirst(lost, es[0]);
    } else {
      ScanEntries(lost, es, n - 1);
      ScanOneMore(lost + Flatten(es[..n]), es, n);
    }
  }

  lemma FlattenTake(lost: Text, es: seq<Entry>, n: nat)
    requires n < |es|
    ensures lost + Flatten(es[..n + 1]) == (lost + Flatten(es[..n])) + es[n].lines
  {
    SplitLast(es, n + 1);
    FlattenSnoc(es[..n], es[n]);
  }

  /** Any cut of a body is the one the parser makes. */
  lemma CutIsParsed(body: Text, lost: Text, es: seq<Entry>)
    requires IsCut(body, lost, es)
    ensures Entries(body) == es
  {
    if es == [] {
      assert body == lost;
      ScanNoIndex(START, lost);
    } else {
      ScanEntries(lost, es, |es| - 1);
      assert es[..|es|] == es;
      assert es == es[..|es| - 1] + [es[|es| - 1]];
    }
  }

  // ---------- Every body has a cut ----------

  /** What the scan knows half-way: the text read so far is `lost`, the closed entries and the buffer. */
  ghost predicate ScanCut(read: Text, lost: Text, s: Scan) {
    AllWellFormed(s.done) && (forall i | 0 <= i < |s.done| :: !EndsInComment(s.done[i].lines))
    && NoIndexIn(lost)
    && (s.n.None? ==> s.done == [] && lost == read && s.cur == read)
    && (s.n.Some? ==> read == lost + Flatten(s.done) + s.cur && !EndsInComment(lost)
                      && WellFormed(Entry(s.n.value, s.cur)))
  }

  lemma CloseEntry(n: int, cur: Text) returns (k: nat)
    requires WellFormed(Entry(n, cur))
    ensures k == CommentStart(cur)
    ensures WellFormed(Entry(n, cur[..k])) && !EndsInComment(cur[..k])
  {
    k := CommentStart(cur);
    var j: nat :| OpensAt(Entry(n, cur), j);
    assert j < k;
    assert cur[..k][j + 1..] == cur[j + 1..][..k - j - 1];
    assert OpensAt(Entry(n, cur[..k]), j);
  }

  /** A line that opens no index joins the buffer. */
  lemma PlainLineCut(read: Text, l: Line, lost: Text, s: Scan) returns (lost': Text)
    requires ScanCut(read, lost, s) && IndexOf(l).None?
    ensures ScanCut(read + [l], lost', StepScan(s, l))
  {
    lost' := if s.n.None? then read + [l] else lost;
    if s.n.Some? {
      var e := Entry(s.n.value, s.cur);
      var j: nat :| OpensAt(e, j);
      assert (s.cur + [l])[j + 1..] == s.cur[j + 1..] + [l];
      assert OpensAt(Entry(s.n.value, s.cur + [l]), j);
      assert read + [l] == lost + Flatten(s.done) + (s.cur + [l]);
    }
  }

  lemma ClosedPart(s: Scan)
    requires s.n.Some? && WellFormed(Entry(s.n.value, s.cur))
    requires AllWellFormed(s.done) && forall i | 0 <= i < |s.done| :: !EndsInComment(s.done[i].lines)
    ensures var done := s.done + [Entry(s.n.value, s.cur[..CommentStart(s.cur)])];
            AllWellFormed(done) && forall i | 0 <= i < |done| :: !EndsInComment(done[i].lines)
  {
    var _ := CloseEntry(s.n.value, s.cur);
  }

  /** The comments above an opening line, with that line, begin a well-formed entry. */
  lemma OpeningBuffer(comments: Text, l: Line)
    requires IndexOf(l).Some? && forall i | 0 <= i < |comments| :: IsComment(comments[i])
    ensures WellFormed(Entry(IndexOf(l).value, comments + [l]))
  {
    assert (comments + [l])[|comments| + 1..] == [];
    assert OpensAt(Entry(IndexOf(l).value, comments + [l]), |comments|);
  }

  lemma Regroup(read: Text, lost: Text, done: Text, head: Text, comments: Text, l: Line)
    requires read == lost + done + (head + comments)
    ensures read + [l] == lost + (done + head) + (comments + [l])
  {
  }

  lemma CutAppend<T>(s: seq<T>, k: nat, x: T)
    requires k <= |s|
    ensures s + [x] == s[..k] + [] + (s[k..] + [x])
  {
  }

  /** The first opening line takes the comments above it and drops what comes before those. */
  lemma FirstOpeningCut(read: Text, l: Line, s: Scan)
    requires ScanCut(read, read, s) && s.n.None? && IndexOf(l).Some?
    ensures ScanCut(read + [l], read[..CommentStart(read)], StepScan(s, l))
  {
    OpeningBuffer(read[CommentStart(read)..], l);
    FirstCutText(read, CommentStart(read), l);
  }

  lemma FirstCutText(read: Text, k: nat, l: Line)
    requires k <= |read|
    ensures read + [l] == read[..k] + Flatten([]) + (read[k..] + [l])
  {
    CutAppend(read, k, l);
  }

  /** A later opening line closes the entry being gathered, without the comments that end it. */
  lemma NextOpeningCut(read: Text, l: Line, lost: Text, s: Scan)
    requires ScanCut(read, lost, s) && s.n.Some? && IndexOf(l).Some?
    ensures ScanCut(read + [l], lost, StepScan(s, l))
  {
    var k := CommentStart(s.cur);
    OpeningBuffer(s.cur[k..], l);
    ClosedPart(s);
    assert s.cur == s.cur[..k] + s.cur[k..];
    Regroup(read, lost, Flatten(s.done), s.cur[..k], s.cur[k..], l);
    FlattenSnoc(s.done, Entry(s.n.value, s.cur[..k]));
  }

  lemma {:induction false} ScanCutExists(body: Text) returns (lost: Text)
    ensures ScanCut(body, lost, ScanFrom(START, body))
  {
    if body == [] {
      lost := [];
    } else {
      var read, l := body[..|body| - 1], body[|body| - 1];
      lost := ScanCutExists(read);
      assert body == read + [l];
      if IndexOf(l).None? {
        lost := PlainLineCut(read, l, lost, ScanFrom(START, read));
      } else if ScanFrom(START, read).n.None? {
        FirstOpeningCut(read, l, ScanFrom(START, read));
        lost := read[..CommentStart(read)];
      } else {
        NextOpeningCut(read, l, lost, ScanFrom(START, read));
      }
    }
  }

  /** The parser cuts every body: nothing but a prefix without index lines is dropped. */
  lemma ParsedIsCut(body: Text) returns (lost: Text)
    ensures IsCut(body, lost, Entries(body))
  {
    lost := ScanCutExists(body);
    var s := ScanFrom(START, body);
    if s.n.Some? {
      FlattenSnoc(s.done, Entry(s.n.value, s.cur));
    }
  }

  /** Parsing is exactly cutting: both directions, for every body and every list of entries. */
  lemma ParserSpecification(body: Text, es: seq<Entry>)
    ensures Entries(body) == es <==> exists lost :: IsCut(body, lost, es)
  {
    var lost := ParsedIsCut(body);
    if lost' :| IsCut(body, lost', es) {
      CutIsParsed(body, lost', es);
    }
  }

  // ---------- Index numbers and dictionaries ----------

  lemma NumbersSnoc(es: seq<Entry>, e: Entry)
    ensures Numbers(es + [e]) == Numbers(es) + [e.n]
  {
  }

  lemma {:induction false} ScanDeclares(body: Text)
    ensures ScanFrom(START, body).n.None? ==> ScanFrom(START, body).done == []
    ensures Declared(body) == Numbers(Finish(ScanFrom(START, body)))
  {
    if body != [] {
      var read, l := body[..|body| - 1], body[|body| - 1];
      var s := ScanFrom(START, read);
      ScanDeclares(read);
      StepNumbers(s, l);
    }
  }

  lemma StepNumbers(s: Scan, l: Line)
    requires s.n.None? ==> s.done == []
    ensures Numbers(Finish(StepScan(s, l))) ==
            Numbers(Finish(s)) + (if IndexOf(l).Some? then [IndexOf(l).value] else [])
  {
    var t := StepScan(s, l);
    if s.n.Some? {
      NumbersSnoc(s.done, Entry(s.n.value, s.cur));
      NumbersSnoc(s.done, Entry(s.n.value, s.cur[..CommentStart(s.cur)]));
    }
    if t.n.Some? {
      NumbersSnoc(t.done, Entry(t.n.value, t.cur));
    }
  }

  /** One entry per index line, in file order. */
  lemma DeclaredNumbers(body: Text)
    ensures Numbers(Entries(body)) == Declared(body)
  {
    ScanDeclares(body);
  }

  lemma {:induction false} BlocksKeys(es: seq<Entry>)
    ensures forall n :: n in Blocks(es) <==> exists i :: 0 <= i < |es| && es[i].n == n
  {
    if es != [] {
      BlocksKeys(es[..|es| - 1]);
    }
  }

  /** The dictionary maps a number to the last entry that declares it. */
  lemma {:induction false} BlocksLookup(es: seq<Entry>, i: nat)
    requires i < |es| && forall j | i < j < |es| :: es[j].n != es[i].n
    ensures es[i].n in Blocks(es) && Blocks(es)[es[i].n] == es[i].lines
  {
    if i < |es| - 1 {
      BlocksLookup(es[..|es| - 1], i);
    }
  }

  // ---------- Printing and parsing back ----------

  predicate Known(blocks: map<int, Text>, keep: seq<int>) {
    forall i | 0 <= i < |keep| :: keep[i] in blocks
  }

  function Kept(blocks: map<int, Text>, keep: seq<int>): seq<Entry>
    requires Known(blocks, keep)
  {
    seq(|keep|, i requires 0 <= i < |keep| => Entry(keep[i], blocks[keep[i]]))
  }

  /** The concatenation `"".join(blocks[n] for n in keep)`. */
  function Print(blocks: map<int, Text>, keep: seq<int>): Text
    requires Known(blocks, keep)
  {
    if keep == [] then []
    else Print(blocks, keep[..|keep| - 1]) + blocks[keep[|keep| - 1]]
  }

  lemma {:induction false} PrintIsFlatten(blocks: map<int, Text>, keep: seq<int>)
    requires Known(blocks, keep)
    ensures Print(blocks, keep) == Flatten(Kept(blocks, keep))
  {
    if keep != [] {
      var k := keep[..|keep| - 1];
      PrintIsFlatten(blocks, k);
      assert Kept(blocks, keep) == Kept(blocks, k) + [Entry(keep[|keep| - 1], blocks[keep[|keep| - 1]])];
      FlattenSnoc(Kept(blocks, k), Entry(keep[|keep| - 1], blocks[keep[|keep| - 1]]));
    }
  }

  /** A dictionary the parser could have produced. */
  ghost predicate ParsedBlocks(blocks: map<int, Text>) {
    forall n | n in blocks :: WellFormed(Entry(n, blocks[n]))
  }

  lemma EntriesGiveParsedBlocks(es: seq<Entry>)
    requires AllWellFormed(es)
    ensures ParsedBlocks(Blocks(es))
  {
    if es != [] {
      EntriesGiveParsedBlocks(es[..|es| - 1]);
    }
  }

  /** No block printed before another one ends in a comment. */
  ghost predicate Safe(blocks: map<int, Text>, keep: seq<int>) {
    forall i | 0 <= i < |keep| - 1 :: keep[i] in blocks ==> !EndsInComment(blocks[keep[i]])
  }

  function Restrict(blocks: map<int, Text>, keep: seq<int>): map<int, Text> {
    map n | n in blocks && n in keep :: blocks[n]
  }

  lemma {:induction false} BlocksOfKept(blocks: map<int, Text>, keep: seq<int>)
    requires Known(blocks, keep)
    ensures Blocks(Kept(blocks, keep)) == Restrict(blocks, keep)
  {
    if keep != [] {
      var k, n := keep[..|keep| - 1], keep[|keep| - 1];
      BlocksOfKept(blocks, k);
      assert Kept(blocks, keep) == Kept(blocks, k) + [Entry(n, blocks[n])];
      BlocksAppend(Kept(blocks, k), Entry(n, blocks[n]));
      assert keep == k + [n];
    }
  }

  /** Safe lists print to a body that parses to the same entries, repetitions included. */
  lemma SafePrintParsesBack(blocks: map<int, Text>, keep: seq<int>)
    requires ParsedBlocks(blocks) && Known(blocks, keep) && Safe(blocks, keep)
    ensures Entries(Print(blocks, keep)) == Kept(blocks, keep)
    ensures Blocks(Entries(Print(blocks, keep))) == Restrict(blocks, keep)
  {
    PrintIsFlatten(blocks, keep);
    var es := Kept(blocks, keep);
    assert AllWellFormed(es);
    assert [] + Flatten(es) == Flatten(es);
    CutIsParsed(Print(blocks, keep), [], es);
    BlocksOfKept(blocks, keep);
  }

  lemma {:induction false} DeclaredConcat(a: Text, b: Text)
    ensures Declared(a + b) == Declared(a) + Declared(b)
  {
    if b == [] {
      assert a + b == a;
    } else {
      assert (a + b)[..|a + b| - 1] == a + b[..|b| - 1];
      DeclaredConcat(a, b[..|b| - 1]);
    }
  }

  lemma {:induction false} DeclaredNone(ls: Text)
    requires NoIndexIn(ls)
    ensures Declared(ls) == []
  {
    if ls != [] {
      DeclaredNone(ls[..|ls| - 1]);
    }
  }

  lemma DeclaredByEntry(e: Entry)
    requires WellFormed(e)
    ensures Declared(e.lines) == [e.n]
  {
    var k: nat :| OpensAt(e, k);
    CommentsHoldNoIndex(e, k);
    DeclaredNone(e.lines[..k]);
    DeclaredNone(e.lines[k + 1..]);
    assert e.lines == (e.lines[..k] + [e.lines[k]]) + e.lines[k + 1..];
    DeclaredConcat(e.lines[..k] + [e.lines[k]], e.lines[k + 1..]);
    DeclaredConcat(e.lines[..k], [e.lines[k]]);
    assert [e.lines[k]][..0] == [];
    assert Declared([e.lines[k]]) == [e.n];
  }

  lemma {:induction false} PrintDeclares(blocks: map<int, Text>, keep: seq<int>)
    requires ParsedBlocks(blocks) && Known(blocks, keep)
    ensures Declared(Print(blocks, keep)) == keep
  {
    if keep != [] {
      var k, n := keep[..|keep| - 1], keep[|keep| - 1];
      PrintDeclares(blocks, k);
      DeclaredConcat(Print(blocks, k), blocks[n]);
      DeclaredByEntry(Entry(n, blocks[n]));
    }
  }

  /** With distinct numbers a dictionary determines the entries it came from. */
  lemma DictionaryDetermines(xs: seq<Entry>, ys: seq<Entry>)
    requires Numbers(xs) == Numbers(ys) && Distinct(Numbers(xs))
    requires Blocks(xs) == Blocks(ys)
    ensures xs == ys
  {
    assert |xs| == |Numbers(xs)| == |Numbers(ys)| == |ys|;
    forall i | 0 <= i < |xs|
      ensures xs[i] == ys[i]
    {
      assert Numbers(xs)[i] == xs[i].n && Numbers(ys)[i] == ys[i].n;
      forall j | i < j < |xs|
        ensures xs[j].n != xs[i].n && ys[j].n != ys[i].n
      {
        assert Numbers(xs)[i] != Numbers(xs)[j];
        assert Numbers(xs)[j] == xs[j].n && Numbers(ys)[j] == ys[j].n;
      }
      BlocksLookup(xs, i);
      BlocksLookup(ys, i);
    }
  }

  /**
   For distinct numbers, printing and parsing back is the identity on the printed blocks exactly when no
   block printed before another ends in a comment.
   */
  lemma PrintParseRoundTrip(blocks: map<int, Text>, keep: seq<int>)
    requires ParsedBlocks(blocks) && Known(blocks, keep) && Distinct(keep)
    ensures Blocks(Entries(Print(blocks, keep))) == Restrict(blocks, keep) <==> Safe(blocks, keep)
  {
    var body := Print(blocks, keep);
    if Safe(blocks, keep) {
      SafePrintParsesBack(blocks, keep);
    }
    if Blocks(Entries(body)) == Restrict(blocks, keep) {
      var es := Kept(blocks, keep);
      BlocksOfKept(blocks, keep);
      PrintDeclares(blocks, keep);
      DeclaredNumbers(body);
      assert Numbers(es) == keep;
      DictionaryDetermines(Entries(body), es);
      var lost := ParsedIsCut(body);
      forall i | 0 <= i < |keep| - 1
        ensures !EndsInComment(blocks[keep[i]])
      {
        assert es[i].lines == blocks[keep[i]];
      }
    }
  }
}
