/**
 Sequences of stager runs. Starting from a complete template, the cache equals the original definitions
 after every run and the template shows the last requested list, whatever was requested before.
 */
module GsiRuns {
  import opened Prelude
  import opened GsiLines
  import opened GsiBlocks
  import opened GsiParserLaws
  import opened GsiStager
  import opened GsiStagerLaws

  // ---------- The original definitions ----------

  lemma {:induction false} EntriesAreBody(es: seq<Entry>)
    requires AllBody(Flatten(es))
    ensures forall n | n in Blocks(es) :: AllBody(Blocks(es)[n])
  {
    if es != [] {
      var n := |es| - 1;
      var front := Flatten(es[..n]);
      assert Flatten(es)[..|front|] == front;
      assert Flatten(es)[|front|..] == es[n].lines;
      EntriesAreBody(es[..n]);
    }
  }

  lemma {:induction false} PrintIsBody(blocks: map<int, Text>, keep: seq<int>)
    requires Known(blocks, keep) && ParsedBlocks(blocks) && forall n | n in blocks :: AllBody(blocks[n])
    ensures AllBody(Print(blocks, keep)) && (Print(blocks, keep) == [] <==> keep == [])
  {
    if keep != [] {
      PrintIsBody(blocks, keep[..|keep| - 1]);
      var k: nat :| OpensAt(Entry(keep[|keep| - 1], blocks[keep[|keep| - 1]]), k);
    }
  }

  lemma KeptOfBlocks(es: seq<Entry>)
    requires Distinct(Numbers(es))
    ensures Known(Blocks(es), Numbers(es)) && Kept(Blocks(es), Numbers(es)) == es
  {
    forall i | 0 <= i < |es|
      ensures es[i].n in Blocks(es) && Blocks(es)[es[i].n] == es[i].lines
    {
      forall j | i < j < |es|
        ensures es[j].n != es[i].n
      {
        assert Numbers(es)[i] != Numbers(es)[j];
      }
      BlocksLookup(es, i);
    }
  }

  lemma OriginalDefinitions(t: Template)
    requires Complete(t)
    ensures var blocks := OriginalBlocks(t);
            ParsedBlocks(blocks) && blocks != map[] && (forall n | n in blocks :: AllBody(blocks[n]))
            && Known(blocks, Declared(t.body)) && Print(blocks, Declared(t.body)) == t.body
  {
    var es := Entries(t.body);
    var lost := ParsedIsCut(t.body);
    EntriesGiveParsedBlocks(es);
    EntriesAreBody(es);
    DeclaredNumbers(t.body);
    KeptOfBlocks(es);
    PrintIsFlatten(Blocks(es), Numbers(es));
    BlocksKeys(es);
    assert es[0].n in Blocks(es);
  }

  // ---------- One run ----------

  /** The template declaring exactly `keep`. */
  function StagedText(t: Template, keep: seq<int>): Text
    requires Known(OriginalBlocks(t), keep)
  {
    Render(t, AttrItems(keep), Print(OriginalBlocks(t), keep))
  }

  /** What is in the file: the original text, or what a run for `keep` left. */
  datatype Content = Untouched | Staged(keep: seq<int>)

  /**
   The file holds that content. The cache may be absent or partial as long as the original is untouched,
   but never holds an index the original does not have.
   */
  ghost predicate Holds(t: Template, c: Content, r: Repo) {
    match c
    case Untouched => r.text == Original(t) && r.cache.Keys <= OriginalBlocks(t).Keys
    case Staged(keep) =>
      Known(OriginalBlocks(t), keep) && r == Repo(StagedText(t, keep), OriginalBlocks(t))
  }

  /** A list after which the next run reads back what it needs. */
  ghost predicate Recoverable(t: Template, keep: seq<int>) {
    Safe(OriginalBlocks(t), keep) && (keep == [] ==> Reinsertable(t))
  }

  lemma LoadUntouched(t: Template, r: Repo)
    requires Complete(t) && Holds(t, Untouched, r)
    ensures LoadBlocks(r) == (Repo(r.text, OriginalBlocks(t)), Done)
  {
    OriginalDefinitions(t);
    IndexSectionFound(t, t.attrs, t.body, []);
    assert r.cache + OriginalBlocks(t) == OriginalBlocks(t);
  }

  lemma HeaderIsMention(text: Text)
    requires GSI_HEADER in text
    ensures MentionsIndexes(text)
  {
    var i :| 0 <= i < |text| && text[i] == GSI_HEADER;
    assert text[i].mentions;
  }

  lemma NoMentionNoSection(text: Text)
    requires !MentionsIndexes(text)
    ensures NoSection(text, Indexes)
  {
    if GSI_HEADER in text {
      HeaderIsMention(text);
    }
    NoHeaderNoSection(text, Indexes);
  }

  lemma StagedDownMentions(t: Template, keep: seq<int>)
    ensures MentionsIndexes(Render(t, AttrItems(keep), [])) <==>
            MentionsIndexes(t.pre) || MentionsIndexes(t.mid) || MentionsIndexes(t.tail)
  {
    FrontMentions(t, keep);
    assert Render(t, AttrItems(keep), []) == Front(t, AttrItems(keep)) + t.tail;
    MentionsConcat(Front(t, AttrItems(keep)), t.tail);
  }

  lemma LoadStagedDown(t: Template)
    requires Complete(t) && Reinsertable(t)
    ensures var r := Repo(StagedText(t, []), OriginalBlocks(t)); LoadBlocks(r) == (r, Done)
  {
    OriginalDefinitions(t);
    StagedDownMentions(t, []);
    assert OriginalBlocks(t) + map[] == OriginalBlocks(t);
  }

  /** Safe lists merge back into the definitions they came from. */
  lemma SafeMerge(blocks: map<int, Text>, keep: seq<int>)
    requires ParsedBlocks(blocks) && Known(blocks, keep) && Safe(blocks, keep)
    ensures blocks + Blocks(Entries(Print(blocks, keep))) == blocks
  {
    SafePrintParsesBack(blocks, keep);
    assert blocks + Restrict(blocks, keep) == blocks;
  }

  lemma LoadKeepsCache(r: Repo, body: Text)
    requires MentionsIndexes(r.text) && Find(r.text, Indexes).Some? && SectionBody(r.text) == body
    requires r.cache != map[] && r.cache + Blocks(Entries(body)) == r.cache
    ensures LoadBlocks(r) == (r, Done)
  {
  }

  lemma LoadStaged(t: Template, keep: seq<int>)
    requires Complete(t) && Known(OriginalBlocks(t), keep) && Safe(OriginalBlocks(t), keep) && keep != []
    ensures var r := Repo(StagedText(t, keep), OriginalBlocks(t)); LoadBlocks(r) == (r, Done)
  {
    var blocks := OriginalBlocks(t);
    OriginalDefinitions(t);
    PrintIsBody(blocks, keep);
    AttrItemsAreItems(keep);
    IndexSectionFound(t, AttrItems(keep), Print(blocks, keep), []);
    SafeMerge(blocks, keep);
    LoadKeepsCache(Repo(StagedText(t, keep), blocks), Print(blocks, keep));
  }

  lemma RewriteFromTrimmed(text: Text, trimmed: Text, blocks: map<int, Text>, keep: seq<int>)
    requires Known(blocks, keep) && Substitute(text, Attributes, [ATTR_HEADER] + AttrItems(keep)) == trimmed
    ensures var block := if keep == [] then [] else [GSI_HEADER] + Print(blocks, keep);
            Rewrite(text, blocks, keep) ==
            if Find(trimmed, Indexes).Some? then Substitute(trimmed, Indexes, block)
            else if keep != [] then InsertBefore(trimmed, block)
            else trimmed
  {
  }

  /** Rewriting a text that has its index section. */
  lemma RewritePresent(t: Template, attrs: Text, body: Text, keep: seq<int>)
    requires Complete(t) && AttrLines(attrs) && body != [] && AllBody(body) && Known(OriginalBlocks(t), keep)
    ensures Rewrite(Render(t, attrs, body), OriginalBlocks(t), keep) == StagedText(t, keep)
  {
    var blocks := OriginalBlocks(t);
    OriginalDefinitions(t);
    PrintIsBody(blocks, keep);
    AttrItemsAreItems(keep);
    AttributesReplaced(t, attrs, body, AttrItems(keep));
    IndexSectionFound(t, AttrItems(keep), body, Print(blocks, keep));
  }

  lemma TrimStagedDown(t: Template, keep: seq<int>)
    requires Complete(t)
    ensures Substitute(StagedText(t, []), Attributes, [ATTR_HEADER] + AttrItems(keep)) == Front(t, AttrItems(keep)) + t.tail
  {
    AttrItemsAreItems([]);
    AttributesReplaced(t, AttrItems([]), [], AttrItems(keep));
    assert Render(t, AttrItems(keep), []) == Front(t, AttrItems(keep)) + t.tail;
  }

  lemma RewriteStagedDown(t: Template, keep: seq<int>, text: Text)
    requires Complete(t) && Known(OriginalBlocks(t), keep) && text == Front(t, AttrItems(keep)) + t.tail
    ensures Rewrite(StagedText(t, []), OriginalBlocks(t), keep) ==
            if Find(text, Indexes).Some? then
              Substitute(text, Indexes, if keep == [] then [] else [GSI_HEADER] + Print(OriginalBlocks(t), keep))
            else if keep != [] then InsertBefore(text, [GSI_HEADER] + Print(OriginalBlocks(t), keep))
            else text
  {
    TrimStagedDown(t, keep);
    RewriteFromTrimmed(StagedText(t, []), text, OriginalBlocks(t), keep);
  }

  lemma StagedTextAroundBlock(t: Template, keep: seq<int>)
    requires Complete(t) && Known(OriginalBlocks(t), keep) && keep != []
    ensures StagedText(t, keep) == Front(t, AttrItems(keep)) + ([GSI_HEADER] + Print(OriginalBlocks(t), keep)) + t.tail
  {
    OriginalDefinitions(t);
    PrintIsBody(OriginalBlocks(t), keep);
  }

  /** Rewriting a text staged down to no index. */
  lemma RewriteAbsent(t: Template, keep: seq<int>)
    requires Complete(t) && Reinsertable(t) && Known(OriginalBlocks(t), keep)
    ensures Rewrite(StagedText(t, []), OriginalBlocks(t), keep) == StagedText(t, keep)
  {
    var front := Front(t, AttrItems(keep));
    RewriteStagedDown(t, keep, front + t.tail);
    StagedDownHasNoSection(t, keep);
    if keep == [] {
      StagedDownText(t);
    } else {
      FrontMentions(t, keep);
      InsertAt(front, t.tail, [GSI_HEADER] + Print(OriginalBlocks(t), keep));
      StagedTextAroundBlock(t, keep);
    }
  }

  lemma StagedDownText(t: Template)
    ensures StagedText(t, []) == Front(t, AttrItems([])) + t.tail
  {
    assert StagedText(t, []) == Render(t, AttrItems([]), []);
    assert Front(t, AttrItems([])) + [] == Front(t, AttrItems([]));
  }

  lemma StagedDownHasNoSection(t: Template, keep: seq<int>)
    requires Reinsertable(t)
    ensures Find(Front(t, AttrItems(keep)) + t.tail, Indexes).None?
  {
    StagedDownMentions(t, keep);
    assert Render(t, AttrItems(keep), []) == Front(t, AttrItems(keep)) + t.tail;
    NoMentionNoSection(Front(t, AttrItems(keep)) + t.tail);
  }

  /** One run from a recoverable state shows exactly what was asked for, or changes no template. */
  lemma RunStep(t: Template, c: Content, r: Repo, keep: seq<int>)
    requires Complete(t) && Holds(t, c, r)
    requires c.Staged? ==> Recoverable(t, c.keep)
    ensures Run(r, keep) ==
            if Known(OriginalBlocks(t), keep) then (Repo(StagedText(t, keep), OriginalBlocks(t)), Done)
            else (Repo(r.text, OriginalBlocks(t)), Unknown)
  {
    OriginalDefinitions(t);
    match c
    case Untouched =>
      LoadUntouched(t, r);
      if Known(OriginalBlocks(t), keep) {
        RewritePresent(t, t.attrs, t.body, keep);
      }
    case Staged(last) =>
      if last == [] {
        LoadStagedDown(t);
      } else {
        LoadStaged(t, last);
      }
      if Known(OriginalBlocks(t), keep) {
        if last == [] {
          RewriteAbsent(t, keep);
        } else {
          PrintIsBody(OriginalBlocks(t), last);
          AttrItemsAreItems(last);
          RewritePresent(t, AttrItems(last), Print(OriginalBlocks(t), last), keep);
        }
      }
  }

  // ---------- Every sequence of runs ----------

  function AfterRuns(r: Repo, keeps: seq<seq<int>>): Repo {
    if keeps == [] then r else Run(AfterRuns(r, keeps[..|keeps| - 1]), keeps[|keeps| - 1]).0
  }

  /** The last list asked for whose indexes all exist. */
  function LastServed(blocks: map<int, Text>, keeps: seq<seq<int>>): Content {
    if keeps == [] then Untouched
    else if Known(blocks, keeps[|keeps| - 1]) then Staged(keeps[|keeps| - 1])
    else LastServed(blocks, keeps[..|keeps| - 1])
  }

  /**
   Over every sequence of runs from a complete template, requests for unknown indexes included: the cache is
   the original definitions and the template is the original with exactly the last served list. All lists
   but the last one must be recoverable.
   */
  lemma {:induction false} NoDefinitionIsEverLost(t: Template, keeps: seq<seq<int>>)
    requires Complete(t)
    requires forall i | 0 <= i < |keeps| - 1 && Known(OriginalBlocks(t), keeps[i]) :: Recoverable(t, keeps[i])
    ensures var r := AfterRuns(Repo(Original(t), map[]), keeps);
            Holds(t, LastServed(OriginalBlocks(t), keeps), r)
            && (keeps != [] ==> r.cache == OriginalBlocks(t))
  {
    if keeps != [] {
      var n := |keeps| - 1;
      NoDefinitionIsEverLost(t, keeps[..n]);
      LastServedIsServed(OriginalBlocks(t), keeps[..n]);
      RunStep(t, LastServed(OriginalBlocks(t), keeps[..n]), AfterRuns(Repo(Original(t), map[]), keeps[..n]), keeps[n]);
    }
  }

  lemma {:induction false} LastServedIsServed(blocks: map<int, Text>, keeps: seq<seq<int>>)
    ensures var c := LastServed(blocks, keeps);
            c.Staged? ==> exists i :: 0 <= i < |keeps| && keeps[i] == c.keep && Known(blocks, keeps[i])
  {
    if keeps != [] && !Known(blocks, keeps[|keeps| - 1]) {
      LastServedIsServed(blocks, keeps[..|keeps| - 1]);
    }
  }

  /** The index section of a staged text declares exactly the kept indexes, in the order given. */
  lemma StagedTextDeclares(t: Template, keep: seq<int>)
    requires Complete(t) && Known(OriginalBlocks(t), keep) && keep != []
    ensures Find(StagedText(t, keep), Indexes).Some? && Declared(SectionBody(StagedText(t, keep))) == keep
  {
    OriginalDefinitions(t);
    PrintIsBody(OriginalBlocks(t), keep);
    AttrItemsAreItems(keep);
    IndexSectionFound(t, AttrItems(keep), Print(OriginalBlocks(t), keep), []);
    PrintDeclares(OriginalBlocks(t), keep);
  }

  /**
   Asking for the full list in file order brings the index section back byte for byte in its place; the
   whole file is the original exactly when its attribute lines were the ones the tool generates.
   */
  lemma FullListRestores(t: Template)
    requires Complete(t)
    ensures var full := Declared(t.body);
            Known(OriginalBlocks(t), full)
            && StagedText(t, full) == Render(t, AttrItems(full), t.body)
            && (StagedText(t, full) == Original(t) <==> t.attrs == AttrItems(full))
  {
    OriginalDefinitions(t);
    var full := Declared(t.body);
    if StagedText(t, full) == Original(t) {
      SameFrontSameAttributes(t, t.attrs, AttrItems(full), t.body);
    }
  }

  lemma SameFrontSameAttributes(t: Template, a: Text, b: Text, body: Text)
    requires Render(t, a, body) == Render(t, b, body)
    ensures a == b
  {
    var rest := t.mid + BlockText(body) + t.tail;
    Reassociate(t.pre, ATTR_HEADER, a, t.mid, BlockText(body), t.tail);
    Reassociate(t.pre, ATTR_HEADER, b, t.mid, BlockText(body), t.tail);
    MiddleCancels(t.pre + [ATTR_HEADER], a, b, rest);
  }

  lemma MiddleCancels<T>(front: seq<T>, a: seq<T>, b: seq<T>, rest: seq<T>)
    requires front + a + rest == front + b + rest
    ensures a == b
  {
    assert |front + a + rest| == |front + b + rest|;
    assert a == (front + a + rest)[|front|..|front| + |a|];
    assert b == (front + b + rest)[|front|..|front| + |b|];
  }

  // ---------- Exactly when ----------

  lemma MergeKeepsExactly(blocks: map<int, Text>, parsed: map<int, Text>)
    requires parsed.Keys <= blocks.Keys
    ensures blocks + parsed == blocks <==> forall n | n in parsed :: parsed[n] == blocks[n]
  {
    assert (blocks + parsed).Keys == blocks.Keys;
    if forall n | n in parsed :: parsed[n] == blocks[n] {
      assert blocks + parsed == blocks;
    }
    if blocks + parsed == blocks {
      forall n | n in parsed
        ensures blocks[n] == parsed[n]
      {
        assert (blocks + parsed)[n] == parsed[n];
      }
    }
  }

  lemma ParsedKeysAreKept(blocks: map<int, Text>, keep: seq<int>)
    requires ParsedBlocks(blocks) && Known(blocks, keep)
    ensures forall n :: n in Blocks(Entries(Print(blocks, keep))) <==> n in keep
  {
    var es := Entries(Print(blocks, keep));
    PrintDeclares(blocks, keep);
    DeclaredNumbers(Print(blocks, keep));
    BlocksKeys(es);
    assert |es| == |keep| && forall i | 0 <= i < |es| :: Numbers(es)[i] == es[i].n == keep[i];
  }

  lemma RestrictAgrees(blocks: map<int, Text>, keep: seq<int>, parsed: map<int, Text>)
    requires Known(blocks, keep) && forall n :: n in parsed <==> n in keep
    ensures forall n | n in parsed :: n in blocks
    ensures parsed == Restrict(blocks, keep) <==> forall n | n in parsed :: parsed[n] == blocks[n]
  {
    var kept := Restrict(blocks, keep);
    forall n | n in keep
      ensures n in blocks && n in kept && kept[n] == blocks[n]
    {
      var i :| 0 <= i < |keep| && keep[i] == n;
    }
    if forall n | n in parsed :: parsed[n] == blocks[n] {
      assert forall n :: n in parsed <==> n in kept;
      assert parsed == kept;
    }
  }

  /** Merging the printed definitions back changes nothing exactly when the list is safe. */
  lemma MergeOfPrinted(blocks: map<int, Text>, keep: seq<int>)
    requires ParsedBlocks(blocks) && Known(blocks, keep) && Distinct(keep)
    ensures blocks + Blocks(Entries(Print(blocks, keep))) == blocks <==> Safe(blocks, keep)
  {
    var parsed := Blocks(Entries(Print(blocks, keep)));
    ParsedKeysAreKept(blocks, keep);
    RestrictAgrees(blocks, keep, parsed);
    MergeKeepsExactly(blocks, parsed);
    PrintParseRoundTrip(blocks, keep);
  }

  /**
   After a run for a non-empty list of distinct indexes, the next run leaves the cached definitions as they
   are exactly when no block but the last one printed ends in a comment. Otherwise that comment has moved
   to another index and the cache now holds the changed definitions.
   */
  lemma CacheSurvivesExactlyWhenSafe(t: Template, keep: seq<int>)
    requires Complete(t) && Known(OriginalBlocks(t), keep) && Distinct(keep) && keep != []
    ensures var r := Repo(StagedText(t, keep), OriginalBlocks(t));
            LoadBlocks(r).0.cache == OriginalBlocks(t) <==> Safe(OriginalBlocks(t), keep)
  {
    OriginalDefinitions(t);
    PrintIsBody(OriginalBlocks(t), keep);
    AttrItemsAreItems(keep);
    IndexSectionFound(t, AttrItems(keep), Print(OriginalBlocks(t), keep), []);
    MergeOfPrinted(OriginalBlocks(t), keep);
  }

  lemma {:induction false} BlocksComeFromEntries(es: seq<Entry>)
    ensures forall n | n in Blocks(es) :: exists i :: 0 <= i < |es| && Blocks(es)[n] == es[i].lines
  {
    if es != [] {
      BlocksComeFromEntries(es[..|es| - 1]);
    }
  }

  lemma {:induction false} LastEntryEnds(es: seq<Entry>)
    requires es != [] && EndsInComment(es[|es| - 1].lines)
    ensures EndsInComment(Flatten(es))
  {
  }

  lemma NoEntryEnds(es: seq<Entry>)
    requires NoEarlyTrailingComment(es) && !EndsInComment(Flatten(es))
    ensures forall i | 0 <= i < |es| :: !EndsInComment(es[i].lines)
  {
    if es != [] && EndsInComment(es[|es| - 1].lines) {
      LastEntryEnds(es);
    }
  }

  lemma NoBlockEnds(es: seq<Entry>, keep: seq<int>)
    requires forall i | 0 <= i < |es| :: !EndsInComment(es[i].lines)
    ensures Safe(Blocks(es), keep)
  {
    BlocksComeFromEntries(es);
  }

  /** A template whose index section does not end in a comment is safe for every list. */
  lemma SafeForEveryList(t: Template, keep: seq<int>)
    requires Complete(t) && !EndsInComment(t.body)
    ensures Safe(OriginalBlocks(t), keep)
  {
    var lost := ParsedIsCut(t.body);
    NoEntryEnds(Entries(t.body));
    NoBlockEnds(Entries(t.body), keep);
  }

  /**
   The converse: if the section ends in a comment and holds another index, asking for the last index before
   another one makes the next run overwrite the cached definition of the last index.
   */
  lemma TrailingCommentMigrates(t: Template, other: int)
    requires Complete(t) && EndsInComment(t.body)
    requires other in Declared(t.body) && other != Entries(t.body)[|Entries(t.body)| - 1].n
    ensures var last := Entries(t.body)[|Entries(t.body)| - 1].n;
            Known(OriginalBlocks(t), [last, other])
            && LoadBlocks(Repo(StagedText(t, [last, other]), OriginalBlocks(t))).0.cache != OriginalBlocks(t)
  {
    var keep := [Entries(t.body)[|Entries(t.body)| - 1].n, other];
    DeclaredNumbers(t.body);
    var lost := ParsedIsCut(t.body);
    UnsafePair(Entries(t.body), other);
    CacheSurvivesExactlyWhenSafe(t, keep);
  }

  lemma {:induction false} UnsafePair(es: seq<Entry>, other: int)
    requires es != [] && EndsInComment(Flatten(es)) && WellFormed(es[|es| - 1])
    requires other in Numbers(es) && other != es[|es| - 1].n
    ensures var keep := [es[|es| - 1].n, other]; Known(Blocks(es), keep) && Distinct(keep) && !Safe(Blocks(es), keep)
  {
    NumberInBlocks(es, other);
    LastBlockEnds(es);
    PairIsUnsafe(Blocks(es), es[|es| - 1].n, other);
  }

  lemma NumberInBlocks(es: seq<Entry>, n: int)
    requires n in Numbers(es)
    ensures n in Blocks(es)
  {
    BlocksKeys(es);
    var i :| 0 <= i < |Numbers(es)| && Numbers(es)[i] == n;
    assert es[i].n == n;
  }

  lemma {:induction false} LastBlockEnds(es: seq<Entry>)
    requires es != [] && EndsInComment(Flatten(es)) && WellFormed(es[|es| - 1])
    ensures es[|es| - 1].n in Blocks(es) && EndsInComment(Blocks(es)[es[|es| - 1].n])
  {
    var k: nat :| OpensAt(es[|es| - 1], k);
    LastLineOfFlatten(es);
  }

  lemma PairIsUnsafe(blocks: map<int, Text>, a: int, b: int)
    requires a in blocks && b in blocks && a != b && EndsInComment(blocks[a])
    ensures Known(blocks, [a, b]) && Distinct([a, b]) && !Safe(blocks, [a, b])
  {
    assert [a, b][0] == a;
  }

  lemma {:induction false} LastLineOfFlatten(es: seq<Entry>)
    requires es != [] && es[|es| - 1].lines != []
    ensures EndsInComment(Flatten(es)) <==> EndsInComment(es[|es| - 1].lines)
  {
  }

  ghost predicate DistinctLists(keeps: seq<seq<int>>) {
    forall i | 0 <= i < |keeps| :: Distinct(keeps[i])
  }

  /** Over every sequence of runs for lists without repetitions. */
  ghost predicate CacheNeverChanges(t: Template) {
    forall keeps | keeps != [] && DistinctLists(keeps) ::
      AfterRuns(Repo(Original(t), map[]), keeps).cache == OriginalBlocks(t)
  }

  /**
   For a reinsertable template with two indexes or more, every sequence of runs keeps the definitions if and only
   if the index section does not end in a comment.
   */
  lemma CacheNeverChangesExactlyWhen(t: Template)
    requires Complete(t) && Reinsertable(t) && |Declared(t.body)| >= 2
    ensures CacheNeverChanges(t) <==> !EndsInComment(t.body)
  {
    if EndsInComment(t.body) {
      var keeps := MigratingRuns(t);
    } else {
      forall keeps: seq<seq<int>> | keeps != []
        ensures AfterRuns(Repo(Original(t), map[]), keeps).cache == OriginalBlocks(t)
      {
        forall i | 0 <= i < |keeps| - 1 && Known(OriginalBlocks(t), keeps[i])
          ensures Recoverable(t, keeps[i])
        {
          SafeForEveryList(t, keeps[i]);
        }
        NoDefinitionIsEverLost(t, keeps);
      }
    }
  }

  lemma AfterTwoRuns(r: Repo, first: seq<int>, second: seq<int>)
    ensures AfterRuns(r, [first, second]) == Run(Run(r, first).0, second).0
  {
    assert [first, second][..1] == [first] && [first][..0] == [];
    assert AfterRuns(r, [first]) == Run(r, first).0;
  }

  lemma CacheAfterTwoRuns(r: Repo, first: seq<int>, between: Repo)
    requires Run(r, first).0 == between
    ensures AfterRuns(r, [first, []]).cache == LoadBlocks(between).0.cache
  {
    AfterTwoRuns(r, first, []);
  }

  lemma FirstAndLastNumber(t: Template)
    requires Complete(t) && |Declared(t.body)| >= 2
    ensures Declared(t.body)[0] != Entries(t.body)[|Entries(t.body)| - 1].n
    ensures Distinct([Entries(t.body)[|Entries(t.body)| - 1].n, Declared(t.body)[0]])
  {
    DeclaredNumbers(t.body);
    var n := |Entries(t.body)| - 1;
    assert Declared(t.body)[n] == Entries(t.body)[n].n;
  }

  /** The first run's list: the last index before another one. */
  function Migrating(t: Template): seq<int>
    requires Complete(t) && |Declared(t.body)| >= 2
  {
    [Entries(t.body)[|Entries(t.body)| - 1].n, Declared(t.body)[0]]
  }

  lemma MigratingRun(t: Template)
    requires Complete(t) && EndsInComment(t.body) && |Declared(t.body)| >= 2
    ensures Known(OriginalBlocks(t), Migrating(t))
    ensures Run(Repo(Original(t), map[]), Migrating(t)).0 == Repo(StagedText(t, Migrating(t)), OriginalBlocks(t))
    ensures LoadBlocks(Repo(StagedText(t, Migrating(t)), OriginalBlocks(t))).0.cache != OriginalBlocks(t)
  {
    FirstAndLastNumber(t);
    TrailingCommentMigrates(t, Declared(t.body)[0]);
    RunStep(t, Untouched, Repo(Original(t), map[]), Migrating(t));
  }

  /** Two runs that change the cache: that list, then anything. */
  lemma MigratingRuns(t: Template) returns (keeps: seq<seq<int>>)
    requires Complete(t) && EndsInComment(t.body) && |Declared(t.body)| >= 2
    ensures keeps != [] && DistinctLists(keeps)
    ensures AfterRuns(Repo(Original(t), map[]), keeps).cache != OriginalBlocks(t)
  {
    MigratingRun(t);
    FirstAndLastNumber(t);
    CacheAfterTwoRuns(Repo(Original(t), map[]), Migrating(t), Repo(StagedText(t, Migrating(t)), OriginalBlocks(t)));
    keeps := [Migrating(t), []];
  }

  // ---------- Staging down to nothing, and back ----------

  lemma SubstituteShortens(text: Text, block: Text)
    requires Find(text, Indexes).Some?
    ensures |Substitute(text, Indexes, block)| < |text| + |block|
  {
  }

  /** With no section before it, a section in the tail is a section of the whole text. */
  lemma TailSectionCounts(t: Template, keep: seq<int>)
    requires Shaped(t)
    ensures Find(Render(t, AttrItems(keep), []), Indexes).Some? <==> !NoSection(t.tail, Indexes)
  {
    var front := Front(t, AttrItems(keep));
    AttrItemsAreItems(keep);
    FrontHasNoIndexSection(t, AttrItems(keep));
    var text := Render(t, AttrItems(keep), []);
    assert text == front + t.tail;
    if NoSection(t.tail, Indexes) {
      NoSectionConcat(front, t.tail, Indexes);
    } else {
      var i :| MatchesAt(t.tail, Indexes, i);
      assert text[|front|..] == t.tail;
      assert text[|front| + i] == t.tail[i] && text[|front| + i + 1] == t.tail[i + 1];
      assert MatchesAt(text, Indexes, |front| + i);
    }
  }

  /**
   Once every index has been staged away, a later run for a non-empty known list puts exactly those
   indexes back in their place if and only if the template is reinsertable.
   */
  lemma RestagesExactlyWhenReinsertable(t: Template, keep: seq<int>)
    requires Complete(t) && Known(OriginalBlocks(t), keep) && keep != []
    ensures Run(Repo(StagedText(t, []), OriginalBlocks(t)), keep) == (Repo(StagedText(t, keep), OriginalBlocks(t)), Done)
            <==> Reinsertable(t)
  {
    var blocks := OriginalBlocks(t);
    var r := Repo(StagedText(t, []), blocks);
    if Reinsertable(t) {
      RunStep(t, Staged([]), r, keep);
    }
    if Run(r, keep) == (Repo(StagedText(t, keep), blocks), Done) {
      RestagedWasReinsertable(t, keep);
    }
  }

  lemma DoneMeansRewritten(r: Repo, keep: seq<int>)
    requires Run(r, keep).1 == Done
    ensures MentionsIndexes(r.text) ==> Find(r.text, Indexes).Some?
    ensures Known(Run(r, keep).0.cache, keep)
    ensures Run(r, keep).0.text == Rewrite(r.text, Run(r, keep).0.cache, keep)
  {
  }

  /** Which sections and mentions a staged-down text has does not depend on its attribute lines. */
  lemma StagedDownAlike(t: Template, keep: seq<int>)
    requires Complete(t)
    ensures var text := Front(t, AttrItems(keep)) + t.tail;
            (Find(StagedText(t, []), Indexes).Some? <==> Find(text, Indexes).Some?)
            && (MentionsIndexes(StagedText(t, [])) <==> MentionsIndexes(text))
  {
    TailSectionCounts(t, []);
    TailSectionCounts(t, keep);
    StagedDownMentions(t, []);
    StagedDownMentions(t, keep);
    assert Render(t, AttrItems(keep), []) == Front(t, AttrItems(keep)) + t.tail;
  }

  lemma RestagedWasReinsertable(t: Template, keep: seq<int>)
    requires Complete(t) && Known(OriginalBlocks(t), keep) && keep != []
    requires Run(Repo(StagedText(t, []), OriginalBlocks(t)), keep) == (Repo(StagedText(t, keep), OriginalBlocks(t)), Done)
    ensures Reinsertable(t)
  {
    DoneMeansRewritten(Repo(StagedText(t, []), OriginalBlocks(t)), keep);
    RewriteStagedDown(t, keep, Front(t, AttrItems(keep)) + t.tail);
    StagedDownAlike(t, keep);
    StagedTextAroundBlock(t, keep);
    PlacedBeforeTail(Front(t, AttrItems(keep)), t.tail, [GSI_HEADER] + Print(OriginalBlocks(t), keep));
    MentionsConcat(Front(t, AttrItems(keep)), t.tail);
    FrontMentions(t, keep);
  }

  lemma ReplacingIsShorter(front: Text, tail: Text, block: Text)
    requires Find(front + tail, Indexes).Some?
    ensures Substitute(front + tail, Indexes, block) != front + block + tail
  {
    SubstituteShortens(front + tail, block);
    assert |front + block + tail| == |front + tail| + |block|;
  }

  /** The rewritten text is as expected only if the block went in before the tail. */
  lemma PlacedBeforeTail(front: Text, tail: Text, block: Text)
    requires block != [] && block[0] == GSI_HEADER
    requires MentionsIndexes(front + tail) ==> Find(front + tail, Indexes).Some?
    requires front + block + tail ==
             if Find(front + tail, Indexes).Some? then Substitute(front + tail, Indexes, block)
             else InsertBefore(front + tail, block)
    ensures !MentionsIndexes(front + tail) && !MentionsStream(front) && tail != [] && AtMarker(tail[0])
  {
    if Find(front + tail, Indexes).Some? {
      ReplacingIsShorter(front, tail, block);
    }
    InsertedOnlyAt(front, tail, block);
  }

  // ---------- The lexed model follows the bytes ----------

  /** Every line carries what lexing its bytes gives. */
  ghost predicate Lexed(text: Text) {
    forall l | l in text :: l == Lex(l.raw)
  }

  ghost predicate LexedRepo(r: Repo) {
    Lexed(r.text) && forall n | n in r.cache :: Lexed(r.cache[n])
  }

  lemma {:induction false} AttrItemsAreLexed(keep: seq<int>)
    ensures Lexed(AttrItems(keep))
  {
    TableKeysAreLexed();
    if keep != [] {
      AttrItemsAreLexed(keep[..|keep| - 1]);
      GeneratedItemsAreLexed(keep[|keep| - 1]);
    }
  }

  lemma {:induction false} EntriesAreLexed(es: seq<Entry>)
    requires Lexed(Flatten(es))
    ensures forall n | n in Blocks(es) :: Lexed(Blocks(es)[n])
  {
    if es != [] {
      EntriesAreLexed(es[..|es| - 1]);
    }
  }

  lemma {:induction false} PrintIsLexed(blocks: map<int, Text>, keep: seq<int>)
    requires Known(blocks, keep) && forall n | n in blocks :: Lexed(blocks[n])
    ensures Lexed(Print(blocks, keep))
  {
    if keep != [] {
      PrintIsLexed(blocks, keep[..|keep| - 1]);
    }
  }

  lemma SubstituteIsLexed(text: Text, sec: Section, replacement: Text)
    requires Lexed(text) && Lexed(replacement)
    ensures Lexed(Substitute(text, sec, replacement))
  {
  }

  lemma {:induction false} InsertIsLexed(text: Text, block: Text)
    requires Lexed(text) && Lexed(block) && block != []
    ensures Lexed(InsertBefore(text, block))
  {
    if text == [] {
    } else if text[0].marker.NoMarker? {
      InsertIsLexed(text[1..], block);
      LexedConcat([text[0]], InsertBefore(text[1..], block));
    } else if text[0].marker.before == "" {
      LexedConcat(block, text);
    } else {
      var first := [Lex(text[0].marker.before + block[0].raw)];
      var second := [Lex(text[0].marker.rest)];
      LexedConcat(first, block[1..]);
      LexedConcat(first + block[1..], second);
      LexedConcat(first + block[1..] + second, text[1..]);
    }
  }

  lemma LexedConcat(a: Text, b: Text)
    requires Lexed(a) && Lexed(b)
    ensures Lexed(a + b)
  {
  }

  lemma LoadIsLexed(r: Repo)
    requires LexedRepo(r)
    ensures LexedRepo(LoadBlocks(r).0)
  {
    if MentionsIndexes(r.text) && Find(r.text, Indexes).Some? {
      var lost := ParsedIsCut(SectionBody(r.text));
      assert forall l | l in Flatten(Entries(SectionBody(r.text))) :: l in SectionBody(r.text);
      EntriesAreLexed(Entries(SectionBody(r.text)));
    }
  }

  /** One run on lexed files gives lexed files: the outcomes recorded with a line never go stale. */
  lemma RunFollowsBytes(r: Repo, keep: seq<int>)
    requires LexedRepo(r)
    ensures LexedRepo(Run(r, keep).0)
  {
    LoadIsLexed(r);
    var loaded := LoadBlocks(r).0;
    if Run(r, keep).1 == Done {
      AttrHeaderIsLexed();
      GsiHeaderIsLexed();
      AttrItemsAreLexed(keep);
      PrintIsLexed(loaded.cache, keep);
      var trimmed := Substitute(loaded.text, Attributes, [ATTR_HEADER] + AttrItems(keep));
      SubstituteIsLexed(loaded.text, Attributes, [ATTR_HEADER] + AttrItems(keep));
      RewriteFromTrimmed(loaded.text, trimmed, loaded.cache, keep);
      SubstituteIsLexed(trimmed, Indexes, if keep == [] then [] else [GSI_HEADER] + Print(loaded.cache, keep));
      InsertIsLexed(trimmed, [GSI_HEADER] + Print(loaded.cache, keep));
    }
  }
}
