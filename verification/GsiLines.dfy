/**
 Lines of a template as the stager's regular expressions see them. A file is the sequence of its lines
 without their line feeds; each line carries its bytes and what the tool tests about it.
 */
module GsiLines {
  import opened Prelude

  /**
   `Index(n)`: opens index `GSIn`. `Comment`: the first character that is not white space is a hash;
   `deep` when the line starts with eight spaces. `Item`: eight spaces, a dash and a space, opening no
   index. `Deep`: eight spaces and anything else. `Outside`: every other line.
   */
  datatype Kind = Index(n: int) | Comment(deep: bool) | Item | Deep | Outside

  /** The bytes of a line before the first occurrence of the stream marker, and those from there on. */
  datatype Marker = NoMarker | Split(before: string, rest: string)

  /** `mentions`: the line contains the index section's word. */
  datatype Line = Line(raw: string, kind: Kind, mentions: bool, marker: Marker)
  type Text = seq<Line>

  /** A line of a block section. */
  predicate IsBody(l: Line) {
    match l.kind
    case Comment(deep) => deep
    case Outside => false
    case _ => true
  }

  predicate IsAttrItem(l: Line) {
    l.kind.Item? || l.kind.Index?
  }

  predicate IsComment(l: Line) {
    l.kind.Comment?
  }

  // ---------- What the tool tests about the bytes of a line ----------

  const INDEX_PREFIX := "- IndexName: GSI"
  const GSI_WORD := "GlobalSecondaryIndexes:"
  const STREAM := "      StreamSpecification:"

  predicate OccursAt(s: string, w: string, k: int) {
    0 <= k <= |s| - |w| && s[k..k + |w|] == w
  }

  predicate Contains(s: string, w: string) {
    exists k | 0 <= k <= |s| - |w| :: OccursAt(s, w, k)
  }

  /** The leftmost occurrence of `w` in `s` at or after `k`. */
  function FindWord(s: string, w: string, k: nat): (r: Option<nat>)
    ensures r.Some? ==> k <= r.value && OccursAt(s, w, r.value) && forall j | k <= j < r.value :: !OccursAt(s, w, j)
    ensures r.None? ==> forall j | k <= j :: !OccursAt(s, w, j)
    decreases |s| - k
  {
    if k > |s| - |w| then None
    else if OccursAt(s, w, k) then Some(k)
    else FindWord(s, w, k + 1)
  }

  predicate IsSpace(c: char) {
    var n := c as int;
    n == 32 || 9 <= n <= 13 || 28 <= n <= 31 || n == 0x85 || n == 0xA0 || n == 0x1680
    || 0x2000 <= n <= 0x200A || n == 0x2028 || n == 0x2029 || n == 0x202F || n == 0x205F || n == 0x3000
  }

  /** The text without leading white space. */
  function LStrip(s: string): string {
    if s != "" && IsSpace(s[0]) then LStrip(s[1..]) else s
  }

  predicate IsDigit(c: char) {
    '0' <= c <= '9'
  }

  function DigitsValue(s: string, acc: nat): nat {
    if s == "" || !IsDigit(s[0]) then acc
    else DigitsValue(s[1..], 10 * acc + (s[0] as int - '0' as int))
  }

  predicate EightSpaces(s: string) {
    |s| >= 8 && s[..8] == "        "
  }

  function KindOf(s: string): Kind {
    if LStrip(s) != "" && LStrip(s)[0] == '#' then Comment(EightSpaces(s))
    else if !EightSpaces(s) then Outside
    else if OccursAt(s, INDEX_PREFIX, 8) && |s| > 24 && IsDigit(s[24]) then Index(DigitsValue(s[24..], 0))
    else if OccursAt(s, "- ", 8) then Item
    else Deep
  }

  /** A line from its bytes. */
  function Lex(raw: string): Line {
    var marker := match FindWord(raw, STREAM, 0) case None => NoMarker case Some(k) => Split(raw[..k], raw[k..]);
    Line(raw, KindOf(raw), Contains(raw, GSI_WORD), marker)
  }

  // ---------- The lines the tool writes ----------

  const ATTR_HEADER := Line("      " + "AttributeDefinitions:", Outside, false, NoMarker)
  const GSI_HEADER := Line("      " + GSI_WORD, Outside, true, NoMarker)
  const ATTR_PK := Line("        " + ("- " + "{ AttributeName: pk, AttributeType: S }"), Item, false, NoMarker)
  const ATTR_SK := Line("        " + ("- " + "{ AttributeName: sk, AttributeType: S }"), Item, false, NoMarker)

  function Decimal(n: int): string
    decreases if n < 0 then 1 - n else n
  {
    if n < 0 then "-" + Decimal(-n)
    else if n < 10 then [('0' as int + n) as char]
    else Decimal(n / 10) + [('0' as int + n % 10) as char]
  }

  function KeyAttributes(n: int): Text {
    [Line("        - { AttributeName: gsi" + Decimal(n) + "pk, AttributeType: S }", Item, false, NoMarker),
     Line("        - { AttributeName: gsi" + Decimal(n) + "sk, AttributeType: S }", Item, false, NoMarker)]
  }

  // ---------- Those lines are what lexing their bytes gives ----------

  lemma {:induction false} LStripSpaces(pad: string, s: string)
    requires (forall i | 0 <= i < |pad| :: pad[i] == ' ') && s != "" && !IsSpace(s[0])
    ensures LStrip(pad + s) == s
  {
    if pad == "" {
      assert pad + s == s;
    } else {
      assert (pad + s)[1..] == pad[1..] + s;
      LStripSpaces(pad[1..], s);
    }
  }

  /** A text that contains a word contains its letters. */
  lemma ContainsLetter(s: string, w: string, c: char)
    requires c in w && Contains(s, w)
    ensures c in s
  {
    var k :| 0 <= k <= |s| - |w| && OccursAt(s, w, k);
    var i :| 0 <= i < |w| && w[i] == c;
    assert s[k + i] == s[k..k + |w|][i];
  }

  lemma DifferentLetter(s: string, w: string, k: nat, i: nat)
    requires i < |w| && k + i < |s| && s[k + i] != w[i]
    ensures !OccursAt(s, w, k)
  {
    if k <= |s| - |w| {
      assert s[k..k + |w|][i] == s[k + i];
    }
  }

  lemma LacksLetter(s: string, w: string, c: char)
    requires c in w && c !in s
    ensures FindWord(s, w, 0).None?
  {
    if FindWord(s, w, 0).Some? {
      ContainsLetter(s, w, c);
    }
  }

  /** Both markers hold the letter `c`, so a line without it holds neither. */
  lemma NoMarkerWithoutC(s: string)
    requires 'c' !in s
    ensures !Contains(s, GSI_WORD) && FindWord(s, STREAM, 0).None?
  {
    assert GSI_WORD[8] == 'c' && STREAM[15] == 'c';
    if Contains(s, GSI_WORD) {
      ContainsLetter(s, GSI_WORD, 'c');
    }
    LacksLetter(s, STREAM, 'c');
  }

  /** Eight spaces and a dash, then anything that is no index name. */
  lemma ItemKind(rest: string)
    requires rest != "" && rest[0] != 'I'
    ensures KindOf("        " + ("- " + rest)) == Item
  {
    var s := "        " + ("- " + rest);
    LStripSpaces("        ", "- " + rest);
    assert s[..8] == "        " && s[8..10] == "- ";
    assert s[10] == rest[0];
    assert INDEX_PREFIX[2] == 'I';
    DifferentLetter(s, INDEX_PREFIX, 8, 2);
  }

  lemma ItemLine(rest: string)
    requires rest != "" && rest[0] != 'I' && 'c' !in rest
    ensures var s := "        " + ("- " + rest); Lex(s) == Line(s, Item, false, NoMarker)
  {
    ItemKind(rest);
    NoMarkerWithoutC("        " + ("- " + rest));
  }

  lemma DecimalHasNoC(n: int)
    ensures 'c' !in Decimal(n)
    decreases if n < 0 then 1 - n else n
  {
  }

  lemma KeyRest(d: string, last: string)
    requires 'c' !in d && 'c' !in last
    ensures var rest := "{ AttributeName: gsi" + d + last; rest != "" && rest[0] != 'I' && 'c' !in rest
    ensures "        - { AttributeName: gsi" + d + last == "        " + ("- " + ("{ AttributeName: gsi" + d + last))
  {
  }

  lemma GeneratedItemsAreLexed(n: int)
    ensures forall l | l in KeyAttributes(n) :: l == Lex(l.raw)
  {
    DecimalHasNoC(n);
    KeyRest(Decimal(n), "pk, AttributeType: S }");
    KeyRest(Decimal(n), "sk, AttributeType: S }");
    ItemLine("{ AttributeName: gsi" + Decimal(n) + "pk, AttributeType: S }");
    ItemLine("{ AttributeName: gsi" + Decimal(n) + "sk, AttributeType: S }");
  }

  lemma HeaderKind(rest: string)
    requires |rest| >= 2 && 'A' <= rest[0] <= 'Z' && rest[1] != ' '
    ensures KindOf("      " + rest) == Outside
  {
    LStripSpaces("      ", rest);
    var s := "      " + rest;
    assert s[..8][6] == rest[0];
  }

  lemma AttrHeaderIsLexed()
    ensures ATTR_HEADER == Lex(ATTR_HEADER.raw)
  {
    HeaderKind("AttributeDefinitions:");
    NoMarkerWithoutC("      " + "AttributeDefinitions:");
  }

  lemma SuffixOccurs(a: string, b: string)
    ensures Contains(a + b, b)
  {
    assert OccursAt(a + b, b, |a|);
  }

  lemma GsiHeaderHasNoMarker()
    ensures FindWord("      " + GSI_WORD, STREAM, 0).None?
  {
    assert STREAM[11] == 'm';
    assert 'm' !in GSI_WORD;
    LacksLetter("      " + GSI_WORD, STREAM, 'm');
  }

  lemma GsiHeaderIsLexed()
    ensures GSI_HEADER == Lex(GSI_HEADER.raw)
  {
    HeaderKind(GSI_WORD);
    SuffixOccurs("      ", GSI_WORD);
    GsiHeaderHasNoMarker();
  }

  lemma TableKeysAreLexed()
    ensures ATTR_PK == Lex(ATTR_PK.raw) && ATTR_SK == Lex(ATTR_SK.raw)
  {
    ItemLine("{ AttributeName: pk, AttributeType: S }");
    ItemLine("{ AttributeName: sk, AttributeType: S }");
  }
}
