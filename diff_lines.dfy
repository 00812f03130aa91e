/**
 * The colouring branch of `print_diff` (grammar_llama/main.py:93-99). Each line
 * of the unified diff between the original and the corrected chunks is printed
 * green (an addition), red (a removal) or unchanged.
 */
module DiffLines {
  import opened Strings

  datatype LineKind = Added | Removed | Plain

  /** The file headers `unified_diff` writes for `fromfile='original', tofile='corrected'`. */
  const FromHeader: string := "--- original"
  const ToHeader: string := "+++ corrected"

  /** Number of header lines at the top of a non-empty unified diff. */
  const HeaderLines: nat := 2

  /**
   * The classification as written. The order of the two tests does not
   * matter: a line that starts with `-` cannot start with `+`.
   */
  function Classify(line: string): (k: LineKind)
    ensures k == Added <==> StartsWith(line, "+") && !StartsWith(line, "+++")
    ensures k == Removed <==> StartsWith(line, "-") && !StartsWith(line, "---")
    ensures k == Plain <==>
              (!StartsWith(line, "+") && !StartsWith(line, "-"))
              || StartsWith(line, "+++") || StartsWith(line, "---")
  {
    if StartsWith(line, "+") && !StartsWith(line, "+++") then Added
    else if StartsWith(line, "-") && !StartsWith(line, "---") then Removed
    else Plain
  }

  lemma MarkerLine(marker: char, chunk: string)
    ensures StartsWith([marker] + chunk, [marker])
    ensures StartsWith([marker] + chunk, [marker, marker, marker]) <==> StartsWith(chunk, [marker, marker])
  {
    var line := [marker] + chunk;
    if |chunk| >= 2 {
      assert line[..3] == [marker] + chunk[..2];
    }
  }

  /** The two header lines are never coloured. */
  lemma HeadersArePlain()
    ensures Classify(FromHeader) == Plain && Classify(ToHeader) == Plain
  {
    assert FromHeader[..3] == "---" && FromHeader[..1] == "-";
    assert ToHeader[..3] == "+++" && ToHeader[..1] == "+";
  }

  /** Context lines (a leading space) and hunk headers (`@@`) are never coloured. */
  lemma ContextAndHunkArePlain(chunk: string)
    ensures Classify([' '] + chunk) == Plain
    ensures Classify("@@" + chunk) == Plain
  {
    assert ([' '] + chunk)[..1] == " ";
    assert ("@@" + chunk)[..1] == "@";
  }

  /**
   * An added chunk is coloured green exactly when it does not itself start
   * with `++`, and a removed chunk red exactly when it does not start with `--`.
   */
  lemma {:induction false} BodyLineClassified(chunk: string)
    ensures Classify(['+'] + chunk) == Added <==> !StartsWith(chunk, "++")
    ensures Classify(['-'] + chunk) == Removed <==> !StartsWith(chunk, "--")
  {
    MarkerLine('+', chunk);
    MarkerLine('-', chunk);
  }

  /** The addition of the chunk `++i adds one.` is printed without colour. */
  lemma AddedLineMisread()
    ensures Classify("+" + "++i adds one.") == Plain
  {
    assert StartsWith("+" + "++i adds one.", "+++");
  }

  /**
   * The classification with the headers told apart by their position: in a
   * unified diff the first two lines are the headers, and every later line is
   * marked by its first character alone.
   */
  function ClassifyAt(index: nat, line: string): (k: LineKind)
    ensures index < HeaderLines ==> k == Plain
    ensures index >= HeaderLines ==> (k == Added <==> StartsWith(line, "+"))
    ensures index >= HeaderLines ==> (k == Removed <==> StartsWith(line, "-"))
  {
    if index < HeaderLines then Plain
    else if StartsWith(line, "+") then Added
    else if StartsWith(line, "-") then Removed
    else Plain
  }

  /** Every added or removed chunk gets its colour, whatever it starts with. */
  lemma BodyLineClassifiedAt(index: nat, chunk: string)
    requires index >= HeaderLines
    ensures ClassifyAt(index, ['+'] + chunk) == Added
    ensures ClassifyAt(index, ['-'] + chunk) == Removed
    ensures ClassifyAt(index, [' '] + chunk) == Plain
  {
    MarkerLine('+', chunk);
    MarkerLine('-', chunk);
    assert ([' '] + chunk)[..1] == " ";
  }

  /** The corrected classification differs from the written one only on body lines starting with `+++` or `---`. */
  lemma ClassifyAtAgrees(index: nat, line: string)
    requires index >= HeaderLines
    requires !StartsWith(line, "+++") && !StartsWith(line, "---")
    ensures ClassifyAt(index, line) == Classify(line)
  {
  }

  /** On the headers both classifications agree. */
  lemma HeadersAgree()
    ensures ClassifyAt(0, FromHeader) == Classify(FromHeader)
    ensures ClassifyAt(1, ToHeader) == Classify(ToHeader)
  {
    HeadersArePlain();
  }
}
