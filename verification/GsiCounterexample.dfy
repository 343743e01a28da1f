/**
 One small template that shows both limits of the stager at work: its index section ends in a comment, and its
 stream line does not follow that section.
 */
module GsiCounterexample {
  import opened Prelude
  import opened GsiLines
  import opened GsiBlocks
  import opened GsiParserLaws
  import opened GsiStager
  import opened GsiStagerLaws
  import opened GsiRuns

  const STREAM_LINE := Line(STREAM, Outside, false, Split("", STREAM))
  const INDEX_1 := Line("        " + "- IndexName: GSI1", Index(1), false, NoMarker)
  const INDEX_2 := Line("        " + "- IndexName: GSI2", Index(2), false, NoMarker)
  const NOTE := Line("        " + "# spare", Comment(true), false, NoMarker)

  // ---------- It is a template of a file ----------

  lemma IndexLine(digit: char)
    requires '0' <= digit <= '9'
    ensures var s := "        " + ("- IndexName: GSI" + [digit]);
            Lex(s) == Line(s, Index(digit as int - '0' as int), false, NoMarker)
  {
    var rest := INDEX_PREFIX + [digit];
    var s := "        " + rest;
    LStripSpaces("        ", rest);
    assert s[..8] == "        " && s[8..24] == INDEX_PREFIX && s[24..] == [digit];
    assert DigitsValue([digit][1..], digit as int - '0' as int) == digit as int - '0' as int;
    assert 'c' !in INDEX_PREFIX;
    NoMarkerWithoutC(s);
  }

  lemma NoteIsLexed()
    ensures NOTE == Lex(NOTE.raw)
  {
    LStripSpaces("        ", "# spare");
    NoMarkerWithoutC(NOTE.raw);
  }

  lemma FindsItself(w: string)
    ensures FindWord(w, w, 0) == Some(0) && w[..0] == "" && w[0..] == w
  {
    assert OccursAt(w, w, 0);
  }

  lemma StreamLineHasNoSectionWord()
    ensures !Contains(STREAM, GSI_WORD)
  {
    assert GSI_WORD[0] == 'G' && 'G' !in STREAM;
    if Contains(STREAM, GSI_WORD) {
      ContainsLetter(STREAM, GSI_WORD, 'G');
    }
  }

  lemma StreamLineKind()
    ensures KindOf(STREAM) == Outside
  {
    HeaderKind("StreamSpecification:");
    assert STREAM == "      " + "StreamSpecification:";
  }

  lemma StreamLineIsLexed()
    ensures STREAM_LINE == Lex(STREAM_LINE.raw)
  {
    StreamLineKind();
    StreamLineHasNoSectionWord();
    FindsItself(STREAM);
  }

  lemma BodyIsLexed()
    ensures Lexed([INDEX_1, INDEX_2, NOTE])
  {
    IndexLine('1');
    IndexLine('2');
    NoteIsLexed();
    assert INDEX_1.raw == "        " + ("- IndexName: GSI" + ['1']);
    assert INDEX_2.raw == "        " + ("- IndexName: GSI" + ['2']);
  }

  lemma OriginalIsLexed(t: Template)
    requires Lexed(t.pre) && Lexed(t.attrs) && Lexed(t.mid) && Lexed(t.body) && Lexed(t.tail) && t.body != []
    ensures Lexed(Original(t))
  {
    AttrHeaderIsLexed();
    GsiHeaderIsLexed();
    LexedConcat(t.pre, [ATTR_HEADER]);
    LexedConcat(t.pre + [ATTR_HEADER], t.attrs);
    LexedConcat(t.pre + [ATTR_HEADER] + t.attrs, t.mid);
    LexedConcat([GSI_HEADER], t.body);
    LexedConcat(Front(t, t.attrs), BlockText(t.body));
    LexedConcat(Front(t, t.attrs) + BlockText(t.body), t.tail);
  }

  // ---------- Its indexes ----------

  lemma SmallCut(one: Line, two: Line, note: Line)
    requires one.kind == Index(1) && two.kind == Index(2) && IsComment(note)
    ensures AllWellFormed([Entry(1, [one]), Entry(2, [two, note])])
    ensures NoEarlyTrailingComment([Entry(1, [one]), Entry(2, [two, note])])
  {
    var first, second := Entry(1, [one]), Entry(2, [two, note]);
    assert OpensAt(first, 0) by {
      assert first.lines[1..] == [];
    }
    assert OpensAt(second, 0) by {
      assert second.lines[1..] == [note];
    }
  }

  lemma FlattenTwo(a: Entry, b: Entry)
    ensures Flatten([a, b]) == a.lines + b.lines
  {
    assert [a, b] == ([] + [a]) + [b];
    FlattenSnoc([], a);
    FlattenSnoc([] + [a], b);
  }

  lemma SmallEntries(one: Line, two: Line, note: Line)
    requires one.kind == Index(1) && two.kind == Index(2) && IsComment(note)
    ensures Entries([one, two, note]) == [Entry(1, [one]), Entry(2, [two, note])]
    ensures Flatten(Entries([one, two, note])) == [one, two, note]
  {
    var first, second := Entry(1, [one]), Entry(2, [two, note]);
    SmallCut(one, two, note);
    FlattenTwo(first, second);
    CutIsParsed(first.lines + second.lines, [], [first, second]);
    assert first.lines + second.lines == [one, two, note];
  }

  /** The template around any such lines. */
  function Small(stream: Line, item: Line, one: Line, two: Line, note: Line): Template {
    Template([stream], [item], [], [one, two, note], [])
  }

  lemma SmallIsComplete(stream: Line, item: Line, one: Line, two: Line, note: Line)
    requires stream.marker.Split? && item.kind == Item
    requires one.kind == Index(1) && two.kind == Index(2) && note.kind == Comment(true)
    ensures var t := Small(stream, item, one, two, note);
            Complete(t) && Declared(t.body) == [1, 2] && EndsInComment(t.body) && !Reinsertable(t)
            && Entries(t.body)[|Entries(t.body)| - 1].n == 2 && OriginalBlocks(t).Keys == {1, 2}
  {
    SmallEntries(one, two, note);
    var es := Entries([one, two, note]);
    DeclaredNumbers([one, two, note]);
    BlocksKeys(es);
    assert Numbers(es) == [1, 2];
    assert es[0].n == 1 && es[1].n == 2;
    forall n
      ensures n in Blocks(es).Keys <==> n in {1, 2}
    {
      assert es[0].n == n || es[1].n == n <==> exists i :: 0 <= i < |es| && es[i].n == n;
    }
    assert [stream][0].marker.Split?;
  }

  /** A template of a file, all its lines lexed from their bytes, that has both traits. */
  lemma Counterexample() returns (t: Template)
    ensures Lexed(Original(t)) && Complete(t) && Declared(t.body) == [1, 2]
    ensures EndsInComment(t.body) && Entries(t.body)[|Entries(t.body)| - 1].n == 2
    ensures !Reinsertable(t) && OriginalBlocks(t).Keys == {1, 2}
  {
    t := Small(STREAM_LINE, ATTR_PK, INDEX_1, INDEX_2, NOTE);
    SmallIsComplete(STREAM_LINE, ATTR_PK, INDEX_1, INDEX_2, NOTE);
    StreamLineIsLexed();
    TableKeysAreLexed();
    BodyIsLexed();
    OriginalIsLexed(t);
  }

  // ---------- What goes wrong with it ----------

  /** Asked for the second index before the first, the next run has changed the cached definitions. */
  lemma CommentMoves() returns (t: Template)
    ensures Lexed(Original(t)) && Complete(t) && Known(OriginalBlocks(t), [2, 1])
    ensures LoadBlocks(Repo(StagedText(t, [2, 1]), OriginalBlocks(t))).0.cache != OriginalBlocks(t)
  {
    t := Counterexample();
    TrailingCommentMigrates(t, 1);
  }

  /** Staged down to no index, the first index does not come back to its place. */
  lemma IndexDoesNotReturn() returns (t: Template)
    ensures Lexed(Original(t)) && Complete(t) && Known(OriginalBlocks(t), [1])
    ensures Run(Repo(StagedText(t, []), OriginalBlocks(t)), [1]) != (Repo(StagedText(t, [1]), OriginalBlocks(t)), Done)
  {
    t := Counterexample();
    RestagesExactlyWhenReinsertable(t, [1]);
  }
}
