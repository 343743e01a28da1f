/**
 The stager in terms of the bytes of its files: which attribute lines a run writes, where a block is inserted, and
 when a run ends how.
 */
module GsiBytes {
  import opened Prelude
  import opened GsiLines
  import opened GsiBlocks
  import opened GsiParserLaws
  import opened GsiStager
  import opened GsiStagerLaws
  import opened GsiRuns

  // ---------- Numbers in text ----------

  predicate AllDigits(d: string) {
    forall i | 0 <= i < |d| :: IsDigit(d[i])
  }

  /** The text is the number, without leading zeros. */
  predicate Writes(d: string, n: int) {
    d != "" && AllDigits(d) && DigitsValue(d, 0) == n && (|d| > 1 ==> d[0] != '0')
  }

  lemma {:induction false} DigitsSnoc(d: string, c: char, acc: nat)
    requires AllDigits(d) && IsDigit(c)
    ensures DigitsValue(d + [c], acc) == 10 * DigitsValue(d, acc) + (c as int - '0' as int)
  {
    if d == "" {
      assert d + [c] == [c];
      assert DigitsValue([c][1..], 10 * acc + (c as int - '0' as int)) == 10 * acc + (c as int - '0' as int);
    } else {
      assert (d + [c])[0] == d[0] && (d + [c])[1..] == d[1..] + [c];
      DigitsSnoc(d[1..], c, 10 * acc + (d[0] as int - '0' as int));
    }
  }

  lemma OneDigit(n: nat)
    requires n < 10
    ensures Writes(Decimal(n), n)
  {
    var c := ('0' as int + n) as char;
    assert Decimal(n) == [c];
    assert DigitsValue([c][1..], n) == n;
  }

  /** What is printed for a number reads as that number. */
  lemma {:induction false} DecimalWrites(n: nat)
    ensures Writes(Decimal(n), n) && (n > 0 ==> Decimal(n)[0] != '0')
  {
    if n < 10 {
      OneDigit(n);
    } else {
      DecimalWrites(n / 10);
      var c := ('0' as int + n % 10) as char;
      DigitsSnoc(Decimal(n / 10), c, 0);
    }
  }

  lemma {:induction false} DigitsThenOther(d: string, rest: string, acc: nat)
    requires AllDigits(d) && (rest == "" || !IsDigit(rest[0]))
    ensures DigitsValue(d + rest, acc) == DigitsValue(d, acc)
  {
    if d == "" {
      assert d + rest == rest;
    } else {
      assert (d + rest)[0] == d[0] && (d + rest)[1..] == d[1..] + rest;
      DigitsThenOther(d[1..], rest, 10 * acc + (d[0] as int - '0' as int));
    }
  }

  /** A line that names index `n` is read as opening index `n`, whatever follows the number. */
  lemma IndexLineReads(d: string, n: int, rest: string)
    requires Writes(d, n) && (rest == "" || !IsDigit(rest[0]))
    ensures Lex("        " + (INDEX_PREFIX + (d + rest))).kind == Index(n)
  {
    var s := "        " + (INDEX_PREFIX + (d + rest));
    LStripSpaces("        ", INDEX_PREFIX + (d + rest));
    assert s[..8] == "        " && s[8..24] == INDEX_PREFIX && s[24..] == d + rest;
    assert s[24] == d[0];
    DigitsThenOther(d, rest, 0);
  }

  /** A line whose first mark is a hash is a comment, and one of a section if eight spaces open it. */
  lemma CommentLineReads(pad: string, rest: string)
    requires forall i | 0 <= i < |pad| :: pad[i] == ' '
    ensures Lex(pad + ("#" + rest)).kind == Comment(|pad| >= 8)
  {
    LStripSpaces(pad, "#" + rest);
    var s := pad + ("#" + rest);
    if |pad| >= 8 {
      assert s[..8] == "        ";
    } else {
      if |s| >= 8 {
        assert s[..8][|pad|] == '#';
      }
    }
  }

  // ---------- The attribute lines ----------

  predicate PkLine(l: Line, d: string) {
    l.raw == "        - { AttributeName: gsi" + d + "pk, AttributeType: S }"
  }

  predicate SkLine(l: Line, d: string) {
    l.raw == "        - { AttributeName: gsi" + d + "sk, AttributeType: S }"
  }

  /** The two keys of the table. */
  predicate TableKeys(pk: Line, sk: Line) {
    pk.raw == "        " + ("- " + "{ AttributeName: pk, AttributeType: S }")
    && sk.raw == "        " + ("- " + "{ AttributeName: sk, AttributeType: S }")
  }

  /** The two lines are the keys of index `n`. */
  ghost predicate KeysOf(pk: Line, sk: Line, n: int) {
    n >= 0 ==> exists d :: Writes(d, n) && PkLine(pk, d) && SkLine(sk, d)
  }

  /** The keys of the table, then those of each kept index, in order, and no other line. */
  ghost predicate DeclaresKeys(lines: Text, keep: seq<int>) {
    |lines| == 2 + 2 * |keep| && TableKeys(lines[0], lines[1])
    && forall i | 0 <= i < |keep| :: KeysOf(lines[2 + 2 * i], lines[3 + 2 * i], keep[i])
  }

  lemma KeyAttributesAreKeys(n: int)
    ensures |KeyAttributes(n)| == 2 && KeysOf(KeyAttributes(n)[0], KeyAttributes(n)[1], n)
  {
    if n >= 0 {
      DecimalWrites(n);
      assert PkLine(KeyAttributes(n)[0], Decimal(n)) && SkLine(KeyAttributes(n)[1], Decimal(n));
    }
  }

  lemma TableKeyLines()
    ensures TableKeys(ATTR_PK, ATTR_SK)
  {
  }

  lemma DeclaresOneMore(lines: Text, keep: seq<int>, pk: Line, sk: Line, n: int)
    requires DeclaresKeys(lines, keep) && KeysOf(pk, sk, n)
    ensures DeclaresKeys(lines + [pk, sk], keep + [n])
  {
    var all, ks := lines + [pk, sk], keep + [n];
    forall i | 0 <= i < |ks|
      ensures KeysOf(all[2 + 2 * i], all[3 + 2 * i], ks[i])
    {
      if i < |keep| {
        assert all[2 + 2 * i] == lines[2 + 2 * i] && all[3 + 2 * i] == lines[3 + 2 * i];
      }
    }
  }

  lemma {:induction false} ItemsDeclareKeys(keep: seq<int>)
    ensures DeclaresKeys(AttrItems(keep), keep)
  {
    TableKeyLines();
    if keep != [] {
      var front, n := keep[..|keep| - 1], keep[|keep| - 1];
      ItemsDeclareKeys(front);
      KeyAttributesAreKeys(n);
      DeclaresOneMore(AttrItems(front), front, KeyAttributes(n)[0], KeyAttributes(n)[1], n);
      assert AttrItems(keep) == AttrItems(front) + [KeyAttributes(n)[0], KeyAttributes(n)[1]];
      assert keep == front + [n];
    }
  }

  /** The lines of the attribute section of a text that has one. */
  function AttributeSection(text: Text): Text
    requires Find(text, Attributes).Some?
  {
    var i := Find(text, Attributes).value;
    text[i + 1..RunEnd(text, Attributes, i + 1)]
  }

  lemma AttributeSectionIs(t: Template, attrs: Text, body: Text)
    requires Shaped(t) && AttrLines(attrs)
    ensures var text := Render(t, attrs, body); Find(text, Attributes).Some? && AttributeSection(text) == attrs
  {
    NoItemAfterAttributes(t, body);
    Reassociate(t.pre, ATTR_HEADER, attrs, t.mid, BlockText(body), t.tail);
    SectionAt(t.pre, Attributes, attrs, t.mid + BlockText(body) + t.tail, []);
  }

  lemma StagedTextDeclaresKeys(t: Template, keep: seq<int>)
    requires Complete(t) && Known(OriginalBlocks(t), keep)
    ensures Find(StagedText(t, keep), Attributes).Some?
    ensures DeclaresKeys(AttributeSection(StagedText(t, keep)), keep)
  {
    AttrItemsAreItems(keep);
    ItemsDeclareKeys(keep);
    AttributeSectionIs(t, AttrItems(keep), Print(OriginalBlocks(t), keep));
  }

  /**
   A served run leaves an attribute section with exactly the keys of the table and of the kept indexes, two lines
   for each, in order: what the key schemas of the staged indexes refer to.
   */
  lemma RunDeclaresKeys(t: Template, c: Content, r: Repo, keep: seq<int>)
    requires Complete(t) && Holds(t, c, r) && (c.Staged? ==> Recoverable(t, c.keep))
    requires Known(OriginalBlocks(t), keep)
    ensures var text := Run(r, keep).0.text;
            Run(r, keep).1 == Done && Find(text, Attributes).Some? && DeclaresKeys(AttributeSection(text), keep)
  {
    RunStep(t, c, r, keep);
    StagedTextDeclaresKeys(t, keep);
  }

  // ---------- Where a block is inserted ----------

  /** The bytes of a file of these lines. */
  function Bytes(text: Text): string {
    if text == [] then "" else text[0].raw + "\n" + Bytes(text[1..])
  }

  lemma {:induction false} BytesConcat(a: Text, b: Text)
    ensures Bytes(a + b) == Bytes(a) + Bytes(b)
  {
    if a == [] {
      assert a + b == b;
    } else {
      assert (a + b)[0] == a[0] && (a + b)[1..] == a[1..] + b;
      BytesConcat(a[1..], b);
    }
  }

  /** The line's marker is where its bytes first hold the stream marker. */
  ghost predicate MarkerFound(l: Line) {
    match l.marker
    case NoMarker => forall j :: !OccursAt(l.raw, STREAM, j)
    case Split(before, rest) =>
      l.raw == before + rest && OccursAt(l.raw, STREAM, |before|)
      && forall j | 0 <= j < |before| :: !OccursAt(l.raw, STREAM, j)
  }

  lemma LexedMarker(l: Line)
    requires l == Lex(l.raw)
    ensures MarkerFound(l)
  {
    var k := FindWord(l.raw, STREAM, 0);
    if k.Some? {
      assert l.raw == l.raw[..k.value] + l.raw[k.value..];
    }
  }

  /** Cuts the bytes in two right before the marker of line `i`, the first line with one. */
  ghost predicate CutAtMarker(text: Text, i: nat, u: string, v: string) {
    i < |text| && (forall j | 0 <= j < i :: text[j].marker.NoMarker?) && text[i].marker.Split?
    && u == Bytes(text[..i]) + text[i].marker.before
    && v == text[i].marker.rest + "\n" + Bytes(text[i + 1..])
  }

  lemma BytesOne(l: Line)
    ensures Bytes([l]) == l.raw + "\n"
  {
    assert [l][1..] == [];
    assert l.raw + "\n" + "" == l.raw + "\n";
  }

  lemma Regroup(before: string, first: string, block: string, rest: string, tail: string)
    ensures (before + first) + block + rest + tail == before + (first + block) + (rest + tail)
  {
  }

  lemma Associate(a: string, b: string, c: string)
    ensures a + (b + c) == (a + b) + c
  {
  }

  lemma SplitLineBytes(l: Line, block: Text, rest: Text)
    requires MarkerFound(l) && l.marker.Split? && block != []
    ensures Bytes([Lex(l.marker.before + block[0].raw)] + block[1..] + [Lex(l.marker.rest)] + rest) ==
            l.marker.before + Bytes(block) + (l.marker.rest + "\n" + Bytes(rest))
  {
    var first, last := Lex(l.marker.before + block[0].raw), Lex(l.marker.rest);
    BytesConcat([first] + block[1..] + [last], rest);
    BytesConcat([first] + block[1..], [last]);
    BytesConcat([first], block[1..]);
    BytesOne(first);
    BytesOne(last);
    Associate(l.marker.before, block[0].raw, "\n");
    Regroup(l.marker.before, block[0].raw + "\n", Bytes(block[1..]), l.marker.rest + "\n", Bytes(rest));
  }

  lemma InsertHere(text: Text, block: Text)
    requires text != [] && text[0].marker.Split? && block != [] && forall l | l in text :: MarkerFound(l)
    ensures Bytes(InsertBefore(text, block)) ==
            text[0].marker.before + Bytes(block) + (text[0].marker.rest + "\n" + Bytes(text[1..]))
  {
    var l := text[0];
    assert MarkerFound(l);
    if l.marker.before == "" {
      BytesConcat(block, text);
      assert l.raw == l.marker.rest;
      assert l.marker.before + Bytes(block) == Bytes(block);
    } else {
      SplitLineBytes(l, block, text[1..]);
    }
  }

  lemma MarkerOpensRest(l: Line)
    requires MarkerFound(l) && l.marker.Split?
    ensures |l.marker.rest| >= |STREAM| && l.marker.rest[..|STREAM|] == STREAM
  {
    var k := |l.marker.before|;
    assert l.raw[k..] == l.marker.rest;
    assert l.raw[k..k + |STREAM|] == l.raw[k..][..|STREAM|];
  }

  /** The block's bytes stand between `u` and `v` after the insertion, and the marker is at the start of `v`. */
  ghost predicate Inserted(text: Text, block: Text, i: nat, u: string, v: string)
    requires block != []
  {
    CutAtMarker(text, i, u, v) && Bytes(text) == u + v && Bytes(InsertBefore(text, block)) == u + Bytes(block) + v
    && |v| >= |STREAM| && v[..|STREAM|] == STREAM
  }

  lemma InsertedHere(text: Text, block: Text)
    requires text != [] && text[0].marker.Split? && block != [] && forall l | l in text :: MarkerFound(l)
    ensures Inserted(text, block, 0, text[0].marker.before, text[0].marker.rest + "\n" + Bytes(text[1..]))
  {
    var l := text[0];
    assert MarkerFound(l);
    InsertHere(text, block);
    MarkerOpensRest(l);
    assert Bytes(text[..0]) + l.marker.before == l.marker.before;
    Associate(l.marker.before, l.marker.rest, "\n");
    Associate(l.marker.before, l.marker.rest + "\n", Bytes(text[1..]));
    var v := l.marker.rest + "\n" + Bytes(text[1..]);
    assert v[..|STREAM|] == l.marker.rest[..|STREAM|];
  }

  lemma CutFurtherDown(text: Text, i: nat, u: string, v: string)
    requires text != [] && text[0].marker.NoMarker? && CutAtMarker(text[1..], i, u, v)
    ensures CutAtMarker(text, i + 1, text[0].raw + "\n" + u, v)
  {
    var rest := text[1..];
    assert text[..i + 1][0] == text[0] && text[..i + 1][1..] == rest[..i];
    assert text[i + 2..] == rest[i + 1..];
    Associate(text[0].raw + "\n", Bytes(rest[..i]), rest[i].marker.before);
  }

  lemma InsertedFurtherDown(text: Text, block: Text, i: nat, u: string, v: string)
    requires text != [] && text[0].marker.NoMarker? && block != [] && Inserted(text[1..], block, i, u, v)
    ensures Inserted(text, block, i + 1, text[0].raw + "\n" + u, v)
  {
    var line := text[0].raw + "\n";
    CutFurtherDown(text, i, u, v);
    assert InsertBefore(text, block)[0] == text[0] && InsertBefore(text, block)[1..] == InsertBefore(text[1..], block);
    Associate(line, u, v);
    Associate(line, u + Bytes(block), v);
    Associate(line, u, Bytes(block));
  }

  /**
   The block's bytes go right before the first stream marker of the file, wherever on its line that stands, and no
   other byte changes; without a marker nothing changes.
   */
  lemma {:induction false} InsertedAtFirstMarker(text: Text, block: Text)
    requires block != [] && forall l | l in text :: MarkerFound(l)
    ensures !MentionsStream(text) ==> InsertBefore(text, block) == text
    ensures MentionsStream(text) ==> exists i, u, v :: Inserted(text, block, i, u, v)
  {
    if text != [] {
      if text[0].marker.Split? {
        InsertedHere(text, block);
      } else {
        assert text == [text[0]] + text[1..];
        MentionsConcat([text[0]], text[1..]);
        InsertedAtFirstMarker(text[1..], block);
        if MentionsStream(text) {
          var i, u, v :| Inserted(text[1..], block, i, u, v);
          InsertedFurtherDown(text, block, i, u, v);
        }
      }
    }
  }

  /** The lines of every file are such lines, so this is what the tool does to a file. */
  lemma BlockGoesBeforeFirstMarker(text: Text, block: Text)
    requires Lexed(text) && block != []
    ensures !MentionsStream(text) ==> InsertBefore(text, block) == text
    ensures MentionsStream(text) ==> exists i, u, v :: Inserted(text, block, i, u, v)
  {
    forall l | l in text
      ensures MarkerFound(l)
    {
      LexedMarker(l);
    }
    InsertedAtFirstMarker(text, block);
  }

  // ---------- How a run ends ----------

  /** The index numbers the file's index section declares, none without a section. */
  function InFile(text: Text): seq<int> {
    if Find(text, Indexes).Some? then Declared(SectionBody(text)) else []
  }

  lemma EntriesDeclare(body: Text, n: int)
    ensures n in Blocks(Entries(body)) <==> n in Declared(body)
  {
    var es := Entries(body);
    DeclaredNumbers(body);
    BlocksKeys(es);
    assert forall i | 0 <= i < |es| :: Numbers(es)[i] == es[i].n;
  }

  lemma LoadedKeys(r: Repo, n: int)
    requires LoadBlocks(r).1 != NoBlock
    ensures n in LoadBlocks(r).0.cache <==> n in r.cache || n in InFile(r.text)
  {
    if MentionsIndexes(r.text) {
      EntriesDeclare(SectionBody(r.text), n);
    } else {
      NoMentionNoSection(r.text);
      assert Find(r.text, Indexes).None?;
    }
  }

  lemma KnownMembers(blocks: map<int, Text>, keep: seq<int>)
    ensures Known(blocks, keep) <==> forall n | n in keep :: n in blocks
  {
    if Known(blocks, keep) {
      forall n | n in keep
        ensures n in blocks
      {
        var i :| 0 <= i < |keep| && keep[i] == n;
      }
    }
    if forall n | n in keep :: n in blocks {
      forall i | 0 <= i < |keep|
        ensures keep[i] in blocks
      {
        assert keep[i] in keep;
      }
    }
  }

  lemma NothingLoadedExactlyWhen(r: Repo)
    requires LoadBlocks(r).1 != NoBlock
    ensures LoadBlocks(r).0.cache == map[] <==> r.cache == map[] && InFile(r.text) == []
  {
    forall n
      ensures n in LoadBlocks(r).0.cache <==> n in r.cache || n in InFile(r.text)
    {
      LoadedKeys(r, n);
    }
    var loaded, declared := LoadBlocks(r).0.cache, InFile(r.text);
    if declared != [] {
      var n := declared[0];
      assert n in declared;
      assert n in loaded;
    }
    if r.cache == map[] && declared == [] {
      assert forall n :: n !in loaded;
      assert loaded == map[];
    }
    if loaded == map[] {
      assert forall n :: n !in r.cache;
      assert r.cache == map[];
    }
  }

  /**
   For every pair of files, when the tool gives up and what it then leaves: the word without a section and no
   definitions anywhere leave both files alone, an unknown index leaves the template alone.
   */
  lemma OutcomeExactlyWhen(r: Repo, keep: seq<int>)
    ensures var (after, o) := Run(r, keep);
            (o == NoBlock <==> MentionsIndexes(r.text) && NoSection(r.text, Indexes))
            && (o == NoDefinitions <==> o != NoBlock && r.cache == map[] && InFile(r.text) == [])
            && (o == Unknown <==> o != NoBlock && o != NoDefinitions && exists n :: n in keep && n !in r.cache && n !in InFile(r.text))
            && (o == NoBlock || o == NoDefinitions ==> after == r)
            && (o == Unknown ==> after.text == r.text)
  {
    if LoadBlocks(r).1 != NoBlock {
      forall n
        ensures n in LoadBlocks(r).0.cache <==> n in r.cache || n in InFile(r.text)
      {
        LoadedKeys(r, n);
      }
      NothingLoadedExactlyWhen(r);
      KnownMembers(LoadBlocks(r).0.cache, keep);
    }
  }
}
