/**
 One run of the stager on a template file and its cache file.
 */
module GsiStager {
  import opened Prelude
  import opened GsiLines
  import opened GsiBlocks
  import opened GsiParserLaws

  // ---------- Searching text ----------

  /** The two block sections the tool looks for by regular expression. */
  datatype Section = Attributes | Indexes

  function Header(sec: Section): Line {
    if sec.Attributes? then ATTR_HEADER else GSI_HEADER
  }

  predicate InSection(sec: Section, l: Line) {
    if sec.Attributes? then IsAttrItem(l) else IsBody(l)
  }

  /** A header directly followed by a line of its section. */
  predicate MatchesAt(text: Text, sec: Section, i: int) {
    0 <= i && i + 1 < |text| && text[i] == Header(sec) && InSection(sec, text[i + 1])
  }

  /** The leftmost match. */
  function FindFrom(text: Text, sec: Section, from: nat): (r: Option<nat>)
    requires from <= |text|
    ensures r.Some? ==> MatchesAt(text, sec, r.value) && forall j | from <= j < r.value :: !MatchesAt(text, sec, j)
    ensures r.Some? ==> from <= r.value
    ensures r.None? ==> forall j | from <= j :: !MatchesAt(text, sec, j)
    decreases |text| - from
  {
    if MatchesAt(text, sec, from) then Some(from)
    else if from == |text| then None
    else FindFrom(text, sec, from + 1)
  }

  function Find(text: Text, sec: Section): Option<nat> {
    FindFrom(text, sec, 0)
  }

  /** Where the longest run of section lines from `i` on ends. */
  function RunEnd(text: Text, sec: Section, i: nat): (e: nat)
    requires i <= |text|
    ensures i <= e <= |text|
    ensures forall j | i <= j < e :: InSection(sec, text[j])
    ensures e < |text| ==> !InSection(sec, text[e])
    decreases |text| - i
  {
    if i < |text| && InSection(sec, text[i]) then RunEnd(text, sec, i + 1) else i
  }

  /** `re.sub(pattern, replacement, text, count=1)`. */
  function Substitute(text: Text, sec: Section, replacement: Text): Text {
    match Find(text, sec)
    case None => text
    case Some(i) => text[..i] + replacement + text[RunEnd(text, sec, i + 1)..]
  }

  /** The index section's word occurs somewhere. */
  predicate MentionsIndexes(text: Text) {
    exists i | 0 <= i < |text| :: text[i].mentions
  }

  /** The stream marker occurs somewhere. */
  predicate MentionsStream(text: Text) {
    exists i | 0 <= i < |text| :: text[i].marker.Split?
  }

  /**
   `text.replace(marker, block + marker, 1)`. When the marker is not at the start of its line the line is
   cut in two, the first part joined to the block's first line.
   */
  function InsertBefore(text: Text, block: Text): Text
    requires block != []
  {
    if text == [] then []
    else
      match text[0].marker
      case NoMarker => [text[0]] + InsertBefore(text[1..], block)
      case Split(before, rest) =>
        if before == "" then block + text
        else [Lex(before + block[0].raw)] + block[1..] + [Lex(rest)] + text[1..]
  }

  // ---------- One run ----------

  /** What the tool keeps between runs: the template and the cache (absent and empty are the same). */
  datatype Repo = Repo(text: Text, cache: map<int, Text>)

  /** `NoBlock` and `NoDefinitions` are the two ways the tool exits early, `Unknown` its exit code 2. */
  datatype Outcome = Done | Unknown | NoBlock | NoDefinitions

  /** The attribute lines for the kept indexes, below their header. */
  function AttrItems(keep: seq<int>): Text {
    if keep == [] then [ATTR_PK, ATTR_SK]
    else AttrItems(keep[..|keep| - 1]) + KeyAttributes(keep[|keep| - 1])
  }

  function BlockText(body: Text): Text {
    if body == [] then [] else [GSI_HEADER] + body
  }

  /** The lines of the index section of a text that has one. */
  function SectionBody(text: Text): Text
    requires Find(text, Indexes).Some?
  {
    var i := Find(text, Indexes).value;
    text[i + 1..RunEnd(text, Indexes, i + 1)]
  }

  /** Merges the definitions in the file over the cached ones; the file wins. */
  function LoadBlocks(r: Repo): (Repo, Outcome) {
    if MentionsIndexes(r.text) && Find(r.text, Indexes).None? then (r, NoBlock)
    else
      var inFile := if MentionsIndexes(r.text) then Blocks(Entries(SectionBody(r.text))) else map[];
      var merged := r.cache + inFile;
      (r.(cache := merged), if merged == map[] then NoDefinitions else Done)
  }

  function Rewrite(text: Text, blocks: map<int, Text>, keep: seq<int>): Text
    requires Known(blocks, keep)
  {
    var trimmed := Substitute(text, Attributes, [ATTR_HEADER] + AttrItems(keep));
    var block := if keep == [] then [] else [GSI_HEADER] + Print(blocks, keep);
    if Find(trimmed, Indexes).Some? then Substitute(trimmed, Indexes, block)
    else if block != [] then InsertBefore(trimmed, block)
    else trimmed
  }

  function Run(r: Repo, keep: seq<int>): (Repo, Outcome) {
    var (r', o) := LoadBlocks(r);
    if o != Done then (r', o)
    else if !Known(r'.cache, keep) then (r', Unknown)
    else (r'.(text := Rewrite(r'.text, r'.cache, keep)), Done)
  }

  /** The tool on its two files. */
  class Stager {
    var text: Text
    var cache: map<int, Text>

    constructor (text: Text, cache: map<int, Text>)
      ensures this.text == text && this.cache == cache
    {
      this.text, this.cache := text, cache;
    }

    method LoadBlocksFromFiles() returns (blocks: map<int, Text>, outcome: Outcome)
      modifies this
      ensures text == old(text)
      ensures (Repo(text, cache), outcome) == LoadBlocks(Repo(old(text), old(cache)))
      ensures outcome == Done ==> blocks == cache
    {
      var inFile: map<int, Text> := map[];
      blocks := map[];
      if MentionsIndexes(text) {
        var found := Find(text, Indexes);
        if found.None? {
          return blocks, NoBlock;
        }
        inFile := ParseIndexBlocks(text[found.value + 1..RunEnd(text, Indexes, found.value + 1)]);
      }
      blocks := cache + inFile;
      if blocks != cache {
        cache := blocks;
      }
      outcome := if blocks == map[] then NoDefinitions else Done;
    }

    method Stage(keep: seq<int>) returns (outcome: Outcome)
      modifies this
      ensures (Repo(text, cache), outcome) == Run(Repo(old(text), old(cache)), keep)
    {
      var blocks: map<int, Text>;
      blocks, outcome := LoadBlocksFromFiles();
      if outcome != Done {
        return;
      }
      if exists i | 0 <= i < |keep| :: keep[i] !in blocks {
        return Unknown;
      }
      var attrLines := [ATTR_PK, ATTR_SK];
      var printed: Text := [];
      for i := 0 to |keep|
        invariant attrLines == AttrItems(keep[..i])
        invariant printed == Print(blocks, keep[..i])
      {
        assert keep[..i + 1][..i] == keep[..i];
        attrLines := attrLines + KeyAttributes(keep[i]);
        printed := printed + blocks[keep[i]];
      }
      assert keep[..|keep|] == keep;
      var newText := Substitute(text, Attributes, [ATTR_HEADER] + attrLines);
      var block := if keep == [] then [] else [GSI_HEADER] + printed;
      if Find(newText, Indexes).Some? {
        newText := Substitute(newText, Indexes, block);
      } else if block != [] {
        newText := InsertBefore(newText, block);
      }
      text := newText;
    }
  }
}
