/**
 What one run does to a text: where its sections are found, what a substitution leaves alone, where a block is
 inserted, and the shape of a template.
 */
module GsiStagerLaws {
  import opened Prelude
  import opened GsiLines
  import opened GsiBlocks
  import opened GsiParserLaws
  import opened GsiStager

  lemma {:induction false} AttrItemsAreItems(keep: seq<int>)
    ensures AttrLines(AttrItems(keep))
    ensures !MentionsIndexes(AttrItems(keep)) && !MentionsStream(AttrItems(keep))
  {
    if keep != [] {
      AttrItemsAreItems(keep[..|keep| - 1]);
    }
  }

  /** Attribute lines the tool may find: the original ones or generated ones. */
  ghost predicate AttrLines(attrs: Text) {
    attrs != [] && forall i | 0 <= i < |attrs| :: IsAttrItem(attrs[i])
  }

  // ---------- Sections of a text ----------

  ghost predicate NoSection(text: Text, sec: Section) {
    forall i :: !MatchesAt(text, sec, i)
  }

  /** A match cannot straddle the boundary: its second line would have to be an item. */
  lemma NoSectionConcat(a: Text, b: Text, sec: Section)
    requires NoSection(a, sec) && NoSection(b, sec)
    requires a == [] || b == [] || a[|a| - 1] != Header(sec) || !InSection(sec, b[0])
    ensures NoSection(a + b, sec)
  {
    forall i
      ensures !MatchesAt(a + b, sec, i)
    {
      assert !MatchesAt(a, sec, i);
      assert !MatchesAt(b, sec, i - |a|);
    }
  }

  lemma NoHeaderNoSection(a: Text, sec: Section)
    requires Header(sec) !in a
    ensures NoSection(a, sec)
  {
  }

  /** The longest run stops at the first line that is no item. */
  lemma {:induction false} RunEndAt(text: Text, sec: Section, i: nat, e: nat)
    requires i <= e <= |text| && (forall j | i <= j < e :: InSection(sec, text[j]))
    requires e < |text| ==> !InSection(sec, text[e])
    ensures RunEnd(text, sec, i) == e
    decreases e - i
  {
    if i < e {
      RunEndAt(text, sec, i + 1, e);
    }
  }

  /** The section at a known place is the one found, and substitution replaces exactly it. */
  lemma SectionAt(a: Text, sec: Section, items: Text, b: Text, replacement: Text)
    requires NoSection(a, sec) && items != [] && (forall i | 0 <= i < |items| :: InSection(sec, items[i]))
    requires b != [] ==> !InSection(sec, b[0])
    requires !InSection(sec, Header(sec))
    ensures var text := a + [Header(sec)] + items + b;
            Find(text, sec) == Some(|a|)
            && RunEnd(text, sec, |a| + 1) == |a| + 1 + |items|
            && text[|a| + 1..|a| + 1 + |items|] == items
            && Substitute(text, sec, replacement) == a + replacement + b
  {
    SectionFoundAt(a, sec, items, b);
    Around(a, Header(sec), items, b);
  }

  lemma Around<T>(a: seq<T>, h: T, items: seq<T>, b: seq<T>)
    ensures var s := a + [h] + items + b;
            s[..|a|] == a && s[|a|] == h && s[|a| + 1..|a| + 1 + |items|] == items && s[|a| + 1 + |items|..] == b
  {
  }

  lemma SectionFoundAt(a: Text, sec: Section, items: Text, b: Text)
    requires NoSection(a, sec) && items != [] && (forall i | 0 <= i < |items| :: InSection(sec, items[i]))
    requires b != [] ==> !InSection(sec, b[0])
    requires !InSection(sec, Header(sec))
    ensures var text := a + [Header(sec)] + items + b;
            Find(text, sec) == Some(|a|) && RunEnd(text, sec, |a| + 1) == |a| + 1 + |items|
  {
    var text := a + [Header(sec)] + items + b;
    LinesAround(a, Header(sec), items, b);
    forall j | 0 <= j < |a|
      ensures !MatchesAt(text, sec, j)
    {
      assert !MatchesAt(a, sec, j);
      assert text[j] == a[j];
    }
    FoundAt(text, sec, |a|);
    RunEndAt(text, sec, |a| + 1, |a| + 1 + |items|);
  }

  lemma LinesAround<T>(a: seq<T>, h: T, items: seq<T>, b: seq<T>)
    ensures var s := a + [h] + items + b;
            |s| == |a| + 1 + |items| + |b| && s[|a|] == h
            && (forall j | 0 <= j < |a| :: s[j] == a[j])
            && (forall j | |a| + 1 <= j < |a| + 1 + |items| :: s[j] == items[j - |a| - 1])
            && (b != [] ==> s[|a| + 1 + |items|] == b[0])
  {
  }

  lemma FoundAt(text: Text, sec: Section, i: nat)
    requires MatchesAt(text, sec, i) && forall j | 0 <= j < i :: !MatchesAt(text, sec, j)
    ensures Find(text, sec) == Some(i)
  {
    assert Find(text, sec) == FindFrom(text, sec, 0);
  }

  // ---------- Inserting before the marker ----------

  lemma MentionsConcat(a: Text, b: Text)
    ensures MentionsIndexes(a + b) <==> MentionsIndexes(a) || MentionsIndexes(b)
    ensures MentionsStream(a + b) <==> MentionsStream(a) || MentionsStream(b)
  {
    var text := a + b;
    assert forall i | 0 <= i < |a| :: text[i] == a[i];
    assert forall i | 0 <= i < |b| :: text[|a| + i] == b[i];
  }

  /** The line opens with the stream marker. */
  predicate AtMarker(l: Line) {
    l.marker.Split? && l.marker.before == ""
  }

  lemma {:induction false} InsertAt(a: Text, tail: Text, block: Text)
    requires block != [] && !MentionsStream(a) && tail != [] && AtMarker(tail[0])
    ensures InsertBefore(a + tail, block) == a + block + tail
  {
    if a == [] {
      assert a + tail == tail;
    } else {
      assert (a + tail)[0] == a[0] && (a + tail)[1..] == a[1..] + tail;
      InsertAt(a[1..], tail, block);
    }
  }

  /** A line cut before the marker and joined to the header still holds the section's word. */
  lemma JoinedLineMentions(front: string)
    ensures Lex(front + GSI_HEADER.raw).mentions
  {
    assert front + GSI_HEADER.raw == (front + "      ") + GSI_WORD;
    SuffixOccurs(front + "      ", GSI_WORD);
  }

  lemma JoinedLineIsLonger(front: string)
    requires front != ""
    ensures Lex(front + GSI_HEADER.raw) != GSI_HEADER
  {
    assert |front + GSI_HEADER.raw| > |GSI_HEADER.raw|;
  }

  /** When the marker is in the first line, only a marker at its very start fits, with nothing before it. */
  lemma InsertedInFirstLine(a: Text, tail: Text, block: Text, expected: Text)
    requires a + tail != [] && (a + tail)[0].marker.Split? && !(a + tail)[0].mentions
    requires block != [] && block[0] == GSI_HEADER && expected == a + block + tail
    requires InsertBefore(a + tail, block) == expected
    ensures a == [] && AtMarker((a + tail)[0])
  {
    var first := (a + tail)[0];
    var result := InsertBefore(a + tail, block);
    if first.marker.before != "" {
      JoinedLineMentions(first.marker.before);
      JoinedLineIsLonger(first.marker.before);
    } else {
      assert result[0] == GSI_HEADER;
    }
    assert expected[0] == if a == [] then GSI_HEADER else first;
  }

  lemma DropFirst<T>(a: seq<T>, b: seq<T>)
    requires a != []
    ensures (a + b)[0] == a[0] && (a + b)[1..] == a[1..] + b
  {
  }

  /** In a text free of the section's word, the block can land between `a` and `tail` in one way only. */
  lemma {:induction false} InsertedOnlyAt(a: Text, tail: Text, block: Text)
    requires block != [] && block[0] == GSI_HEADER && !MentionsIndexes(a + tail)
    requires InsertBefore(a + tail, block) == a + block + tail
    ensures !MentionsStream(a) && tail != [] && AtMarker(tail[0])
  {
    var text := a + tail;
    assert |a + block + tail| == |text| + |block|;
    assert text != [];
    if text[0].marker.Split? {
      InsertedInFirstLine(a, tail, block, a + block + tail);
    } else {
      assert (a + block + tail)[0] == text[0];
      assert a != [];
      DropFirst(a, tail);
      DropFirst(a, block);
      DropFirst(a + block, tail);
      InsertedOnlyAt(a[1..], tail, block);
    }
  }

  // ---------- Templates ----------

  /** A template around its attribute section and its index section. */
  datatype Template = Template(pre: Text, attrs: Text, mid: Text, body: Text, tail: Text)

  function Front(t: Template, attrs: Text): Text {
    t.pre + [ATTR_HEADER] + attrs + t.mid
  }

  /** The template with other attribute lines and another index body. */
  function Render(t: Template, attrs: Text, body: Text): Text {
    Front(t, attrs) + BlockText(body) + t.tail
  }

  function Original(t: Template): Text {
    Render(t, t.attrs, t.body)
  }

  /** The attribute section is the first one of the text and the index section the first one too. */
  ghost predicate Shaped(t: Template) {
    NoSection(t.pre, Attributes) && NoSection(t.pre, Indexes) && NoSection(t.mid, Indexes)
    && t.attrs != [] && (forall i | 0 <= i < |t.attrs| :: IsAttrItem(t.attrs[i]))
    && (t.mid != [] ==> !IsAttrItem(t.mid[0]))
    && t.body != [] && (forall i | 0 <= i < |t.body| :: IsBody(t.body[i]))
    && (t.tail != [] ==> !IsBody(t.tail[0]))
  }

  function OriginalBlocks(t: Template): map<int, Text> {
    Blocks(Entries(t.body))
  }

  /** Only comments precede the first index, and the index numbers differ. */
  ghost predicate Complete(t: Template) {
    Shaped(t) && Entries(t.body) != [] && Flatten(Entries(t.body)) == t.body && Distinct(Declared(t.body))
  }

  /**
   What staging down to no index at all needs: the section's word occurs nowhere else, and the index
   section sits directly before the line that opens with the stream marker, its first occurrence.
   */
  ghost predicate Reinsertable(t: Template) {
    !MentionsIndexes(t.pre) && !MentionsIndexes(t.mid) && !MentionsIndexes(t.tail)
    && !MentionsStream(t.pre) && !MentionsStream(t.mid)
    && t.tail != [] && AtMarker(t.tail[0])
  }

  lemma FrontMentions(t: Template, keep: seq<int>)
    ensures var front := Front(t, AttrItems(keep));
            (MentionsIndexes(front) <==> MentionsIndexes(t.pre) || MentionsIndexes(t.mid))
            && (MentionsStream(front) <==> MentionsStream(t.pre) || MentionsStream(t.mid))
  {
    AttrItemsAreItems(keep);
    MentionsConcat(t.pre + [ATTR_HEADER] + AttrItems(keep), t.mid);
    MentionsConcat(t.pre + [ATTR_HEADER], AttrItems(keep));
    MentionsConcat(t.pre, [ATTR_HEADER]);
  }

  /** No index section before the place of the template's own. */
  lemma FrontHasNoIndexSection(t: Template, attrs: Text)
    requires Shaped(t) && AttrLines(attrs)
    ensures NoSection(Front(t, attrs), Indexes)
  {
    var section := [ATTR_HEADER] + attrs;
    assert forall i | 0 <= i < |attrs| :: attrs[i] != GSI_HEADER;
    NoHeaderNoSection(section, Indexes);
    NoSectionConcat(t.pre, section, Indexes);
    assert t.pre + section == t.pre + [ATTR_HEADER] + attrs;
    NoSectionConcat(t.pre + section, t.mid, Indexes);
  }

  lemma Reassociate<T>(pre: seq<T>, h: T, attrs: seq<T>, mid: seq<T>, block: seq<T>, tail: seq<T>)
    ensures pre + [h] + attrs + mid + block + tail == pre + [h] + attrs + (mid + block + tail)
    ensures pre + [h] + attrs + mid + block + tail == pre + ([h] + attrs) + (mid + block + tail)
  {
  }

  lemma NoItemAfterAttributes(t: Template, body: Text)
    requires Shaped(t)
    ensures var rest := t.mid + BlockText(body) + t.tail; rest != [] ==> !IsAttrItem(rest[0])
  {
  }

  /** Rewriting the attribute lines touches nothing else. */
  lemma AttributesReplaced(t: Template, attrs: Text, body: Text, items: Text)
    requires Shaped(t) && AttrLines(attrs)
    ensures Substitute(Render(t, attrs, body), Attributes, [ATTR_HEADER] + items) == Render(t, items, body)
  {
    NoItemAfterAttributes(t, body);
    Reassociate(t.pre, ATTR_HEADER, attrs, t.mid, BlockText(body), t.tail);
    Reassociate(t.pre, ATTR_HEADER, items, t.mid, BlockText(body), t.tail);
    SectionAt(t.pre, Attributes, attrs, t.mid + BlockText(body) + t.tail, [ATTR_HEADER] + items);
  }

  ghost predicate AllBody(body: Text) {
    forall i | 0 <= i < |body| :: IsBody(body[i])
  }

  /** With an index section present, the tool finds it, reads its body and replaces exactly it. */
  lemma IndexSectionFound(t: Template, attrs: Text, body: Text, body': Text)
    requires Shaped(t) && AttrLines(attrs) && body != [] && AllBody(body)
    ensures var text := Render(t, attrs, body);
            MentionsIndexes(text) && Find(text, Indexes).Some? && SectionBody(text) == body
            && Substitute(text, Indexes, BlockText(body')) == Render(t, attrs, body')
  {
    FrontHasNoIndexSection(t, attrs);
    IndexSectionAfter(Front(t, attrs), body, t.tail, body');
  }

  lemma IndexSectionAfter(front: Text, body: Text, tail: Text, body': Text)
    requires NoSection(front, Indexes) && body != [] && AllBody(body) && (tail != [] ==> !IsBody(tail[0]))
    ensures var text := front + BlockText(body) + tail;
            MentionsIndexes(text) && Find(text, Indexes).Some? && SectionBody(text) == body
            && Substitute(text, Indexes, BlockText(body')) == front + BlockText(body') + tail
  {
    var text := front + BlockText(body) + tail;
    assert text == front + [GSI_HEADER] + body + tail;
    SectionAt(front, Indexes, body, tail, BlockText(body'));
    assert text[|front|] == GSI_HEADER;
  }
}
