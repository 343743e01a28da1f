/**
 The index-block parser of the template stager (`infra/tools/stage_gsis.py`): which lines of an index
 section belong to which index, and the dictionary built from them.
 */
module GsiBlocks {
  import opened Prelude
  import opened GsiLines

  /** The index number a line declares, if it is the opening line of an index. */
  function IndexOf(l: Line): Option<int> {
    if l.kind.Index? then Some(l.kind.n) else None
  }

  // ---------- Parsing ----------

  datatype Entry = Entry(n: int, lines: Text)

  /** Entries finished so far, the lines gathered since, and the number of the index being gathered. */
  datatype Scan = Scan(done: seq<Entry>, cur: Text, n: Option<int>)

  /** Where the run of comments that ends `ls` begins. */
  function CommentStart(ls: Text): (k: nat)
    ensures k <= |ls|
    ensures forall i | k <= i < |ls| :: IsComment(ls[i])
    ensures k > 0 ==> !IsComment(ls[k - 1])
  {
    if ls == [] then 0
    else if IsComment(ls[|ls| - 1]) then CommentStart(ls[..|ls| - 1])
    else |ls|
  }

  function StepScan(s: Scan, l: Line): Scan {
    match IndexOf(l)
    case None => s.(cur := s.cur + [l])
    case Some(n) =>
      var k := CommentStart(s.cur);
      Scan(if s.n.Some? then s.done + [Entry(s.n.value, s.cur[..k])] else s.done, s.cur[k..] + [l], Some(n))
  }

  function ScanFrom(s: Scan, body: Text): Scan {
    if body == [] then s else StepScan(ScanFrom(s, body[..|body| - 1]), body[|body| - 1])
  }

  const START := Scan([], [], None)

  function Finish(s: Scan): seq<Entry> {
    if s.n.Some? then s.done + [Entry(s.n.value, s.cur)] else s.done
  }

  function Entries(body: Text): seq<Entry> {
    Finish(ScanFrom(START, body))
  }

  /** The dictionary built from entries in order; a later entry overwrites an earlier one. */
  function Blocks(es: seq<Entry>): map<int, Text> {
    if es == [] then map[] else Blocks(es[..|es| - 1])[es[|es| - 1].n := es[|es| - 1].lines]
  }

  lemma BlocksAppend(es: seq<Entry>, e: Entry)
    ensures Blocks(es + [e]) == Blocks(es)[e.n := e.lines]
  {
    assert (es + [e])[..|es|] == es;
  }

  lemma ScanAppend(s: Scan, body: Text, l: Line)
    ensures ScanFrom(s, body + [l]) == StepScan(ScanFrom(s, body), l)
  {
    assert (body + [l])[..|body|] == body;
  }

  /** The pop loop: moves the comments that end the buffer to the front of a new one. */
  method PopComments(lines: Text) returns (rest: Text, comments: Text)
    ensures rest == lines[..CommentStart(lines)] && comments == lines[CommentStart(lines)..]
  {
    rest, comments := lines, [];
    while rest != [] && IsComment(rest[|rest| - 1])
      invariant lines == rest + comments
      invariant CommentStart(lines) == CommentStart(rest)
    {
      comments := [rest[|rest| - 1]] + comments;
      rest := rest[..|rest| - 1];
    }
  }

  lemma Overwrite(m: map<int, Text>, k: int, v: Text, w: Text)
    ensures m[k := v][k := w] == m[k := w]
  {
  }

  /** The parsing loop, with its dictionary, its line buffer and its pop loop. */
  method ParseIndexBlocks(body: Text) returns (blocks: map<int, Text>)
    ensures blocks == Blocks(Entries(body))
  {
    blocks := map[];
    var currentLines: Text := [];
    var currentN: Option<int> := None;
    ghost var scan := START;
    for i := 0 to |body|
      invariant scan == ScanFrom(START, body[..i])
      invariant currentLines == scan.cur && currentN == scan.n && blocks == Blocks(scan.done)
    {
      var line := body[i];
      assert body[..i + 1] == body[..i] + [line];
      ScanAppend(START, body[..i], line);
      var name := IndexOf(line);
      if name.Some? {
        if currentN.Some? {
          blocks := blocks[currentN.value := currentLines];
        }
        var rest, comments := PopComments(currentLines);
        if currentN.Some? {
          Overwrite(Blocks(scan.done), currentN.value, currentLines, rest);
          blocks := blocks[currentN.value := rest];
          BlocksAppend(scan.done, Entry(currentN.value, rest));
        }
        currentLines := comments + [line];
        currentN := name;
      } else {
        currentLines := currentLines + [line];
      }
      scan := StepScan(scan, line);
    }
    assert body[..|body|] == body;
    if currentN.Some? {
      blocks := blocks[currentN.value := currentLines];
      BlocksAppend(scan.done, Entry(currentN.value, currentLines));
    }
  }
}
