/**
 * The sentence chunker `chunk_text` (grammar_llama/main.py:84-85), which splits
 * the text with a regular expression (a lookbehind for `.`, `!` or `?`, then
 * one or more whitespace characters), strips every piece and drops the blank
 * ones. The regular expression is written out as a definition: the text is cut
 * at every maximal run of whitespace whose preceding character is a sentence
 * end, and the run itself is dropped.
 */
module Chunker {

  /** Python's `str.isspace`, which is also what `\s` matches in a `str` pattern. */
  predicate IsSpace(c: char) {
    ('\U{09}' <= c <= '\U{0D}') || ('\U{1C}' <= c <= '\U{20}') ||
    c == '\U{85}' || c == '\U{A0}' || c == '\U{1680}' ||
    ('\U{2000}' <= c <= '\U{200A}') || c == '\U{2028}' || c == '\U{2029}' ||
    c == '\U{202F}' || c == '\U{205F}' || c == '\U{3000}'
  }

  /** The characters of the lookbehind `(?<=[.!?])`. */
  predicate IsSentenceEnd(c: char) {
    c == '.' || c == '!' || c == '?'
  }

  /** What `str.strip()` leaves of a non-blank string. */
  predicate Stripped(c: string) {
    c != [] && !IsSpace(c[0]) && !IsSpace(c[|c| - 1])
  }

  /** The last character of `c` ends a sentence. */
  predicate EndsSentence(c: string) {
    c != [] && IsSentenceEnd(c[|c| - 1])
  }

  /** Every character of `s` is whitespace (`s.strip() == ''`). */
  predicate AllSpace(s: string) {
    s == [] || (IsSpace(s[0]) && AllSpace(s[1..]))
  }

  /** Position `j` is where the pattern starts matching: a sentence end, then whitespace. */
  predicate BoundaryAt(s: string, j: int) {
    0 < j < |s| && IsSentenceEnd(s[j - 1]) && IsSpace(s[j])
  }

  predicate NoBoundary(s: string) {
    forall j :: 0 < j < |s| ==> !BoundaryAt(s, j)
  }

  /** The non-whitespace characters of `s`, in order. */
  function Visible(s: string): string {
    if s == [] then [] else (if IsSpace(s[0]) then [] else [s[0]]) + Visible(s[1..])
  }

  function Concat(ss: seq<string>): string {
    if ss == [] then [] else ss[0] + Concat(ss[1..])
  }

  // ---------------------------------------------------------------- strip

  /** `str.lstrip()`: drops the leading whitespace. */
  function TrimStart(s: string): (r: string)
    ensures |r| <= |s| && r == s[|s| - |r|..]
    ensures r == [] || !IsSpace(r[0])
    ensures AllSpace(s[..|s| - |r|])
  {
    if s != [] && IsSpace(s[0]) then
      var r := TrimStart(s[1..]);
      assert s[..|s| - |r|][1..] == s[1..][..|s| - 1 - |r|];
      r
    else
      assert s[..0] == [];
      s
  }

  /** `str.rstrip()`: drops the trailing whitespace. */
  function TrimEnd(s: string): (r: string)
    ensures |r| <= |s| && r == s[..|r|]
    ensures r == [] || !IsSpace(r[|r| - 1])
    ensures AllSpace(s[|r|..])
  {
    if s != [] && IsSpace(s[|s| - 1]) then
      var n := |s| - 1;
      var r := TrimEnd(s[..n]);
      AllSpaceSnoc(s[..n][|r|..], s[n]);
      assert s[|r|..] == s[..n][|r|..] + [s[n]];
      r
    else
      assert s[|s|..] == [];
      s
  }

  lemma {:induction false} AllSpaceSnoc(t: string, c: char)
    requires AllSpace(t) && IsSpace(c)
    ensures AllSpace(t + [c])
    decreases |t|
  {
    if t == [] {
      assert [] + [c] == [c];
      assert [c][1..] == [];
    } else {
      assert (t + [c])[1..] == t[1..] + [c];
      AllSpaceSnoc(t[1..], c);
    }
  }

  /** `str.strip()`: neither starts nor ends with whitespace. */
  function Strip(s: string): (r: string)
    ensures r == [] || Stripped(r)
  {
    TrimEnd(TrimStart(s))
  }

  // ---------------------------------------------------------------- split

  /** The first match position at or after `from`, or `|s|` when there is none. */
  function FirstBoundary(s: string, from: nat): (k: nat)
    ensures k == |s| || (from <= k && BoundaryAt(s, k))
    ensures forall j :: from <= j < k ==> !BoundaryAt(s, j)
    decreases |s| - from
  {
    if from >= |s| then |s|
    else if BoundaryAt(s, from) then from
    else FirstBoundary(s, from + 1)
  }

  /** The end of the whitespace run starting at `from`: `\s+` is greedy. */
  function RunEnd(s: string, from: nat): (e: nat)
    requires from <= |s|
    ensures from <= e <= |s|
    ensures e == |s| || !IsSpace(s[e])
    ensures AllSpace(s[from..e])
    decreases |s| - from
  {
    if from < |s| && IsSpace(s[from]) then
      var e := RunEnd(s, from + 1);
      assert s[from..e][1..] == s[from + 1..e];
      e
    else from
  }

  /**
   * `re.split` with the sentence pattern. A match needs a character before it,
   * so the search starts at index 1. After a cut the rest begins right behind
   * whitespace, where the lookbehind cannot match, so cutting the rest on its
   * own finds the same places as continuing the scan over the whole text.
   */
  function Split(s: string): (pieces: seq<string>)
    ensures |pieces| >= 1
    decreases |s|
  {
    var k := FirstBoundary(s, 1);
    if k == |s| then [s]
    else [s[..k]] + Split(s[RunEnd(s, k)..])
  }

  /** The whitespace runs `re.split` cuts out, one between each two consecutive pieces. */
  function Seps(s: string): (seps: seq<string>)
    ensures |seps| == |Split(s)| - 1
    decreases |s|
  {
    var k := FirstBoundary(s, 1);
    if k == |s| then []
    else [s[k..RunEnd(s, k)]] + Seps(s[RunEnd(s, k)..])
  }

  /** Rejoins pieces with the separators between them. */
  function Interleave(pieces: seq<string>, seps: seq<string>): string
    requires |pieces| == |seps| + 1
    decreases |seps|
  {
    if seps == [] then pieces[0]
    else pieces[0] + seps[0] + Interleave(pieces[1..], seps[1..])
  }

  /** `sep` is whitespace cut out right after the sentence end of `before`, and `after` does not continue it. */
  predicate IsCut(before: string, sep: string, after: string) {
    EndsSentence(before) && sep != [] && AllSpace(sep) && (after == [] || !IsSpace(after[0]))
  }

  /**
   * What `re.split` with the sentence pattern promises: the pieces rejoined with
   * the separators give back the text, each separator is a maximal whitespace
   * run starting at a match, and no piece holds another match.
   */
  predicate IsSplitOf(s: string, pieces: seq<string>, seps: seq<string>) {
    |pieces| == |seps| + 1 &&
    s == Interleave(pieces, seps) &&
    (forall p :: p in pieces ==> NoBoundary(p)) &&
    (forall i :: 0 <= i < |seps| ==> IsCut(pieces[i], seps[i], pieces[i + 1]))
  }

  /** Strips every piece and keeps the non-blank results, in order. */
  function Keep(pieces: seq<string>): seq<string> {
    if pieces == [] then []
    else
      var t := Strip(pieces[0]);
      (if t == [] then [] else [t]) + Keep(pieces[1..])
  }

  /** `chunk_text`. */
  function ChunkText(text: string): seq<string> {
    Keep(Split(text))
  }

  // ---------------------------------------------------------------- helper lemmas

  lemma {:induction false} VisibleAppend(a: string, b: string)
    ensures Visible(a + b) == Visible(a) + Visible(b)
    decreases |a|
  {
    if a == [] {
      assert a + b == b;
    } else {
      assert (a + b)[1..] == a[1..] + b;
      VisibleAppend(a[1..], b);
    }
  }

  lemma {:induction false} VisibleAllSpace(s: string)
    ensures Visible(s) == [] <==> AllSpace(s)
    decreases |s|
  {
    if s != [] {
      VisibleAllSpace(s[1..]);
    }
  }

  /** A string whose last character is not whitespace has something visible. */
  lemma VisibleLast(s: string)
    requires s != [] && !IsSpace(s[|s| - 1])
    ensures Visible(s) != []
  {
    var n := |s| - 1;
    assert s == s[..n] + [s[n]];
    VisibleAppend(s[..n], [s[n]]);
    assert Visible([s[n]]) == [s[n]] + Visible([]);
  }

  lemma {:induction false} TrimStartVisible(s: string)
    ensures Visible(TrimStart(s)) == Visible(s)
    decreases |s|
  {
    if s != [] && IsSpace(s[0]) {
      TrimStartVisible(s[1..]);
    }
  }

  lemma {:induction false} TrimEndVisible(s: string)
    ensures Visible(TrimEnd(s)) == Visible(s)
    decreases |s|
  {
    if s != [] && IsSpace(s[|s| - 1]) {
      var n := |s| - 1;
      TrimEndVisible(s[..n]);
      assert s == s[..n] + [s[n]];
      VisibleAppend(s[..n], [s[n]]);
    }
  }

  /** Stripping removes whitespace only. */
  lemma StripVisible(s: string)
    ensures Visible(Strip(s)) == Visible(s)
  {
    TrimStartVisible(s);
    TrimEndVisible(TrimStart(s));
  }

  lemma StripBlank(s: string)
    ensures Strip(s) == [] <==> AllSpace(s)
  {
    StripVisible(s);
    VisibleAllSpace(s);
    var r := Strip(s);
    VisibleAllSpace(r);
    if r != [] {
      VisibleLast(r);
    }
  }

  /** A piece that ends in a non-space character keeps that character as its last. */
  lemma StripKeepsLast(s: string)
    requires s != [] && !IsSpace(s[|s| - 1])
    ensures Strip(s) != [] && Strip(s)[|Strip(s)| - 1] == s[|s| - 1]
  {
    VisibleLast(s);
    TrimStartVisible(s);
    var a := TrimStart(s);
    assert a != [];
    assert a[|a| - 1] == s[|s| - 1];
    assert TrimEnd(a) == a;
  }

  lemma StripOfClean(s: string)
    requires Stripped(s)
    ensures Strip(s) == s
  {
    assert TrimStart(s) == s;
    assert TrimEnd(s) == s;
  }

  lemma NoBoundarySlice(s: string, a: nat, b: nat)
    requires a <= b <= |s| && NoBoundary(s)
    ensures NoBoundary(s[a..b])
  {
    forall j | 0 < j < b - a ensures !BoundaryAt(s[a..b], j) {
      assert !BoundaryAt(s, a + j);
    }
  }

  lemma StripNoBoundary(s: string)
    requires NoBoundary(s)
    ensures NoBoundary(Strip(s))
  {
    var t := TrimStart(s);
    NoBoundarySlice(s, |s| - |t|, |s|);
    assert s[|s| - |t|..|s|] == t;
    NoBoundarySlice(t, 0, |TrimEnd(t)|);
    assert t[0..|TrimEnd(t)|] == TrimEnd(t);
  }

  // ---------------------------------------------------------------- properties of Split

  /** Every piece but the last ends with a sentence end, since cuts follow one. */
  lemma {:induction false} SplitPiecesEnd(s: string)
    ensures forall i :: 0 <= i < |Split(s)| - 1 ==> EndsSentence(Split(s)[i])
    decreases |s|
  {
    var k := FirstBoundary(s, 1);
    if k < |s| {
      var rest := s[RunEnd(s, k)..];
      SplitPiecesEnd(rest);
      assert Split(s) == [s[..k]] + Split(rest);
    }
  }

  /** No piece contains a place where the pattern would match. */
  lemma {:induction false} SplitPiecesNoBoundary(s: string)
    ensures forall p :: p in Split(s) ==> NoBoundary(p)
    decreases |s|
  {
    var k := FirstBoundary(s, 1);
    if k == |s| {
      assert NoBoundary(s);
    } else {
      var rest := s[RunEnd(s, k)..];
      SplitPiecesNoBoundary(rest);
      forall j | 0 < j < k ensures !BoundaryAt(s[..k], j) {
        assert !BoundaryAt(s, j);
      }
      assert Split(s) == [s[..k]] + Split(rest);
    }
  }

  /** Cutting out a whitespace run keeps the visible characters on both sides. */
  lemma VisibleSplitAt(s: string, k: nat)
    requires k <= |s|
    ensures Visible(s) == Visible(s[..k]) + Visible(s[k..])
  {
    assert s == s[..k] + s[k..];
    VisibleAppend(s[..k], s[k..]);
  }

  lemma VisiblePrefixParts(s: string, k: nat, e: nat)
    requires k <= e <= |s|
    ensures Visible(s[..e]) == Visible(s[..k]) + Visible(s[k..e])
  {
    VisibleSplitAt(s[..e], k);
    assert s[..e][..k] == s[..k];
    assert s[..e][k..] == s[k..e];
  }

  lemma CutSpaceRun(s: string, k: nat, e: nat)
    requires k <= e <= |s| && AllSpace(s[k..e])
    ensures Visible(s) == Visible(s[..k]) + Visible(s[e..])
  {
    VisibleSplitAt(s, e);
    VisiblePrefixParts(s, k, e);
    VisibleAllSpace(s[k..e]);
    assert Visible(s[k..e]) == [];
    assert Visible(s[..k]) + [] == Visible(s[..k]);
  }

  /** The cuts remove only whitespace. */
  lemma {:induction false} SplitVisible(s: string)
    ensures Visible(Concat(Split(s))) == Visible(s)
    decreases |s|
  {
    var k := FirstBoundary(s, 1);
    if k == |s| {
      assert Split(s) == [s];
      assert Concat([s]) == s + Concat([]);
      assert s + [] == s;
    } else {
      var e := RunEnd(s, k);
      var rest := s[e..];
      var ps := Split(s);
      assert ps == [s[..k]] + Split(rest);
      assert ps[0] == s[..k] && ps[1..] == Split(rest);
      assert Concat(ps) == s[..k] + Concat(Split(rest));
      SplitVisible(rest);
      VisibleAppend(s[..k], Concat(Split(rest)));
      CutSpaceRun(s, k, e);
    }
  }

  /** With no match anywhere, `re.split` returns the text itself. */
  lemma SplitWhole(s: string)
    requires NoBoundary(s)
    ensures Split(s) == [s] && Seps(s) == []
  {
    assert FirstBoundary(s, 1) == |s|;
  }

  /** Rejoining the pieces with the cut-out runs gives back the text. */
  lemma {:induction false} SplitRoundTrip(s: string)
    ensures s == Interleave(Split(s), Seps(s))
    decreases |s|
  {
    var k := FirstBoundary(s, 1);
    if k < |s| {
      var e := RunEnd(s, k);
      var rest := s[e..];
      SplitRoundTrip(rest);
      var ps := Split(s);
      var ss := Seps(s);
      assert ps == [s[..k]] + Split(rest);
      assert ss == [s[k..e]] + Seps(rest);
      assert ps[1..] == Split(rest) && ss[1..] == Seps(rest);
      assert Interleave(ps, ss) == s[..k] + s[k..e] + rest;
      assert s == s[..k] + s[k..e] + s[e..];
    }
  }

  /** The first piece of a text that starts with a non-space starts with that character. */
  lemma SplitHead(s: string)
    requires s != []
    ensures Split(s)[0] != [] && Split(s)[0][0] == s[0]
  {
    var k := FirstBoundary(s, 1);
    assert 1 <= k;
  }

  /** Every cut follows a sentence end, removes a non-empty whitespace run, and removes all of it. */
  lemma {:induction false} SplitCuts(s: string)
    ensures forall i :: 0 <= i < |Seps(s)| ==> IsCut(Split(s)[i], Seps(s)[i], Split(s)[i + 1])
    decreases |s|
  {
    var k := FirstBoundary(s, 1);
    if k < |s| {
      var e := RunEnd(s, k);
      var rest := s[e..];
      SplitCuts(rest);
      var ps := Split(s);
      var ss := Seps(s);
      assert ps == [s[..k]] + Split(rest);
      assert ss == [s[k..e]] + Seps(rest);
      assert s[k..e] != [] by {
        assert s[k..e][0] == s[k];
      }
      if rest != [] {
        SplitHead(rest);
      } else {
        assert Split(rest) == [rest];
      }
      assert IsCut(ps[0], ss[0], ps[1]);
      forall i | 1 <= i < |ss| ensures IsCut(ps[i], ss[i], ps[i + 1]) {
        assert ps[i] == Split(rest)[i - 1] && ps[i + 1] == Split(rest)[i];
        assert ss[i] == Seps(rest)[i - 1];
      }
    }
  }

  /** `Split` and `Seps` meet the contract of `re.split`. */
  lemma SplitIsSplit(s: string)
    ensures IsSplitOf(s, Split(s), Seps(s))
  {
    SplitRoundTrip(s);
    SplitPiecesNoBoundary(s);
    SplitCuts(s);
  }

  lemma {:induction false} AllSpaceAt(t: string, i: nat)
    requires AllSpace(t) && i < |t|
    ensures IsSpace(t[i])
    decreases i
  {
    if i > 0 {
      AllSpaceAt(t[1..], i - 1);
    }
  }

  /** A whitespace run that is not followed by whitespace is where the greedy `\s+` stops. */
  lemma RunEndAt(s: string, k: nat, e: nat)
    requires k <= e <= |s| && AllSpace(s[k..e]) && (e == |s| || !IsSpace(s[e]))
    ensures RunEnd(s, k) == e
  {
    var e' := RunEnd(s, k);
    if e' < e {
      AllSpaceAt(s[k..e], e' - k);
    } else if e < e' {
      AllSpaceAt(s[k..e'], e - k);
    }
  }

  /** A text is its first piece followed by the rest. */
  lemma InterleavePrefix(pieces: seq<string>, seps: seq<string>)
    requires |pieces| == |seps| + 1
    ensures |pieces[0]| <= |Interleave(pieces, seps)|
    ensures Interleave(pieces, seps)[..|pieces[0]|] == pieces[0]
  {
    if seps != [] {
      var r := Interleave(pieces[1..], seps[1..]);
      assert Interleave(pieces, seps) == pieces[0] + (seps[0] + r);
    }
  }

  /** The character right after a cut: the next piece's first, or nothing. */
  lemma AfterCut(pieces: seq<string>, seps: seq<string>)
    requires |pieces| == |seps| + 1 && |seps| > 0
    requires forall i :: 0 <= i < |seps| ==> IsCut(pieces[i], seps[i], pieces[i + 1])
    ensures var r := Interleave(pieces[1..], seps[1..]);
      r == [] || !IsSpace(r[0])
  {
    var r := Interleave(pieces[1..], seps[1..]);
    InterleavePrefix(pieces[1..], seps[1..]);
    assert IsCut(pieces[0], seps[0], pieces[1]);
    if seps[1..] != [] {
      assert IsCut(pieces[1], seps[1], pieces[2]);
    }
  }

  /** The split of a text whose first cut comes after `p`. */
  lemma SplitStep(s: string, p: string, sep: string, r: string)
    requires s == p + sep + r && IsCut(p, sep, []) && NoBoundary(p)
    requires r == [] || !IsSpace(r[0])
    ensures FirstBoundary(s, 1) == |p| && RunEnd(s, |p|) == |p| + |sep|
    ensures s[..|p|] == p && s[|p|..|p| + |sep|] == sep && s[|p| + |sep|..] == r
  {
    assert s[..|p|] == p && s[|p|..|p| + |sep|] == sep && s[|p| + |sep|..] == r;
    assert BoundaryAt(s, |p|) by {
      assert s[|p| - 1] == p[|p| - 1] && s[|p|] == sep[0];
    }
    forall j | 1 <= j < |p| ensures !BoundaryAt(s, j) {
      assert !BoundaryAt(p, j);
      assert s[j - 1] == p[j - 1] && s[j] == p[j];
    }
    RunEndAt(s, |p|, |p| + |sep|);
  }

  /** The contract of `re.split` fixes its result: `Split` and `Seps` are the only pieces and separators meeting it. */
  lemma {:induction false} SplitUnique(s: string, pieces: seq<string>, seps: seq<string>)
    requires IsSplitOf(s, pieces, seps)
    ensures pieces == Split(s) && seps == Seps(s)
    decreases |seps|
  {
    assert pieces[0] in pieces;
    if seps == [] {
      SplitWhole(s);
    } else {
      var p := pieces[0];
      var r := Interleave(pieces[1..], seps[1..]);
      assert IsCut(p, seps[0], pieces[1]);
      AfterCut(pieces, seps);
      SplitStep(s, p, seps[0], r);
      assert IsSplitOf(r, pieces[1..], seps[1..]) by {
        forall q | q in pieces[1..] ensures NoBoundary(q) {
          assert q in pieces;
        }
        forall i | 0 <= i < |seps[1..]| ensures IsCut(pieces[1..][i], seps[1..][i], pieces[1..][i + 1]) {
          assert IsCut(pieces[i + 1], seps[i + 1], pieces[i + 2]);
        }
      }
      SplitUnique(r, pieces[1..], seps[1..]);
      assert pieces == [p] + pieces[1..];
      assert seps == [seps[0]] + seps[1..];
    }
  }

  // ---------------------------------------------------------------- properties of Keep

  lemma {:induction false} KeepClean(ps: seq<string>)
    ensures forall c :: c in Keep(ps) ==> Stripped(c)
  {
    if ps != [] {
      KeepClean(ps[1..]);
    }
  }

  /** A piece before the last ends a sentence, so it is kept as the first chunk. */
  lemma KeepEndingHead(ps: seq<string>)
    requires |ps| > 1 && EndsSentence(ps[0])
    ensures Keep(ps) == [Strip(ps[0])] + Keep(ps[1..]) && EndsSentence(Strip(ps[0]))
  {
    StripKeepsLast(ps[0]);
  }

  lemma TailEnds(ps: seq<string>)
    requires ps != [] && forall i :: 0 <= i < |ps| - 1 ==> EndsSentence(ps[i])
    ensures forall i :: 0 <= i < |ps[1..]| - 1 ==> EndsSentence(ps[1..][i])
  {
    forall i | 0 <= i < |ps[1..]| - 1 ensures EndsSentence(ps[1..][i]) {
      assert ps[1..][i] == ps[i + 1];
    }
  }

  lemma ConsEnds(t: string, tail: seq<string>)
    requires EndsSentence(t) && forall i :: 0 <= i < |tail| - 1 ==> EndsSentence(tail[i])
    ensures forall i :: 0 <= i < |[t] + tail| - 1 ==> EndsSentence(([t] + tail)[i])
  {
    forall i | 0 <= i < |[t] + tail| - 1 ensures EndsSentence(([t] + tail)[i]) {
      if i > 0 {
        assert ([t] + tail)[i] == tail[i - 1];
      }
    }
  }

  lemma {:induction false} KeepEnds(ps: seq<string>)
    requires forall i :: 0 <= i < |ps| - 1 ==> EndsSentence(ps[i])
    ensures forall i :: 0 <= i < |Keep(ps)| - 1 ==> EndsSentence(Keep(ps)[i])
  {
    if |ps| == 1 {
      assert Keep(ps[1..]) == [];
    } else if |ps| > 1 {
      TailEnds(ps);
      KeepEnds(ps[1..]);
      KeepEndingHead(ps);
      ConsEnds(Strip(ps[0]), Keep(ps[1..]));
    }
  }

  lemma {:induction false} KeepNoBoundary(ps: seq<string>)
    requires forall p :: p in ps ==> NoBoundary(p)
    ensures forall c :: c in Keep(ps) ==> NoBoundary(c)
  {
    if ps != [] {
      assert ps[0] in ps;
      StripNoBoundary(ps[0]);
      KeepNoBoundary(ps[1..]);
    }
  }

  lemma {:induction false} KeepVisible(ps: seq<string>)
    ensures Visible(Concat(Keep(ps))) == Visible(Concat(ps))
  {
    if ps != [] {
      KeepVisible(ps[1..]);
      var t := Strip(ps[0]);
      StripVisible(ps[0]);
      var head := if t == [] then [] else [t];
      assert Keep(ps) == head + Keep(ps[1..]);
      ConcatAppend(head, Keep(ps[1..]));
      assert Concat(head) == t by {
        if t != [] { assert Concat([t]) == t + Concat([]); }
      }
      VisibleAppend(t, Concat(Keep(ps[1..])));
      VisibleAppend(ps[0], Concat(ps[1..]));
    }
  }

  /** Every chunk is a stripped piece. */
  lemma {:induction false} KeepFromPieces(ps: seq<string>)
    ensures forall c :: c in Keep(ps) ==> exists i :: 0 <= i < |ps| && c == Strip(ps[i])
  {
    if ps != [] {
      KeepFromPieces(ps[1..]);
      var t := Strip(ps[0]);
      assert Keep(ps) == (if t == [] then [] else [t]) + Keep(ps[1..]);
      forall c | c in Keep(ps) ensures exists i :: 0 <= i < |ps| && c == Strip(ps[i]) {
        if c == t {
          assert c == Strip(ps[0]);
        } else {
          KeepTailWitness(ps, c);
        }
      }
    }
  }

  lemma KeepTailWitness(ps: seq<string>, c: string)
    requires ps != [] && c in Keep(ps[1..])
    requires forall c :: c in Keep(ps[1..]) ==> exists i :: 0 <= i < |ps[1..]| && c == Strip(ps[1..][i])
    ensures exists i :: 0 <= i < |ps| && c == Strip(ps[i])
  {
    var i :| 0 <= i < |ps[1..]| && c == Strip(ps[1..][i]);
    assert ps[1..][i] == ps[i + 1];
  }

  /** Every piece that is not blank gives a chunk. */
  lemma {:induction false} KeepKeepsPieces(ps: seq<string>)
    ensures forall i :: 0 <= i < |ps| && Strip(ps[i]) != [] ==> Strip(ps[i]) in Keep(ps)
  {
    if ps != [] {
      KeepKeepsPieces(ps[1..]);
      var t := Strip(ps[0]);
      assert Keep(ps) == (if t == [] then [] else [t]) + Keep(ps[1..]);
      forall i | 0 <= i < |ps| && Strip(ps[i]) != [] ensures Strip(ps[i]) in Keep(ps) {
        if i > 0 {
          assert ps[1..][i - 1] == ps[i];
        }
      }
    }
  }

  lemma {:induction false} ConcatAppend(a: seq<string>, b: seq<string>)
    ensures Concat(a + b) == Concat(a) + Concat(b)
    decreases |a|
  {
    if a == [] {
      assert a + b == b;
    } else {
      assert (a + b)[1..] == a[1..] + b;
      ConcatAppend(a[1..], b);
    }
  }

  // ---------------------------------------------------------------- properties of ChunkText

  /** Every chunk is non-empty and has no leading or trailing whitespace. */
  lemma ChunksAreStripped(text: string)
    ensures forall c :: c in ChunkText(text) ==> Stripped(c)
  {
    KeepClean(Split(text));
  }

  /** Every chunk except possibly the last ends with `.`, `!` or `?`. */
  lemma ChunksEndSentences(text: string)
    ensures forall i :: 0 <= i < |ChunkText(text)| - 1 ==> EndsSentence(ChunkText(text)[i])
  {
    SplitPiecesEnd(text);
    KeepEnds(Split(text));
  }

  /** No chunk holds a sentence end followed by whitespace: every such place was cut. */
  lemma ChunksHaveNoBoundary(text: string)
    ensures forall c :: c in ChunkText(text) ==> NoBoundary(c)
  {
    SplitPiecesNoBoundary(text);
    KeepNoBoundary(Split(text));
  }

  /**
   * Every chunk is a stripped piece of the one split meeting the contract of
   * `re.split`, in the order of the pieces, and every non-blank piece gives a chunk.
   */
  lemma ChunksOfSplit(text: string, pieces: seq<string>, seps: seq<string>)
    requires IsSplitOf(text, pieces, seps)
    ensures ChunkText(text) == Keep(pieces)
    ensures forall c :: c in ChunkText(text) ==> exists i :: 0 <= i < |pieces| && c == Strip(pieces[i])
    ensures forall i :: 0 <= i < |pieces| && Strip(pieces[i]) != [] ==> Strip(pieces[i]) in ChunkText(text)
  {
    SplitUnique(text, pieces, seps);
    KeepFromPieces(pieces);
    KeepKeepsPieces(pieces);
  }

  /** The text `a. c` is cut at the space, not joined into `a.c`. */
  lemma SplitExample()
    ensures Split("a. c") == ["a.", "c"] && Seps("a. c") == [" "]
  {
    var s := "a. c";
    assert BoundaryAt(s, 2);
    assert FirstBoundary(s, 1) == 2;
    assert RunEnd(s, 2) == 3;
    assert s[..2] == "a." && s[2..3] == " " && s[3..] == "c";
    assert Split("c") == ["c"] && Seps("c") == [];
    assert Split(s) == [s[..2]] + Split(s[3..]);
    assert Seps(s) == [s[2..3]] + Seps(s[3..]);
  }

  /** ... and gives the two chunks `a.` and `c`. */
  lemma ChunkExample()
    ensures ChunkText("a. c") == ["a.", "c"]
  {
    SplitExample();
    assert Stripped("a.") && Stripped("c");
    StripOfClean("a.");
    StripOfClean("c");
    var ps := ["a.", "c"];
    assert ps[1..] == ["c"] && ["c"][1..] == [];
    assert Keep(["c"]) == ["c"] + Keep([]);
    assert Keep([]) == [];
    assert ["c"] + [] == ["c"];
    assert Keep(ps) == ["a."] + Keep(["c"]);
    assert ["a."] + ["c"] == ps;
  }

  /** Chunking loses whitespace only: the other characters survive, in order. */
  lemma ChunksKeepText(text: string)
    ensures Visible(Concat(ChunkText(text))) == Visible(text)
  {
    SplitVisible(text);
    KeepVisible(Split(text));
  }

  /** The empty string and every all-whitespace string, and only those, give no chunks. */
  lemma ChunkBlank(text: string)
    ensures ChunkText(text) == [] <==> AllSpace(text)
  {
    ChunksKeepText(text);
    VisibleAllSpace(text);
    var cs := ChunkText(text);
    if cs == [] {
      assert Concat(cs) == [];
      assert Visible([]) == [];
    } else {
      ChunksAreStripped(text);
      assert cs[0] in cs;
      FirstChunkVisible(cs);
    }
  }

  lemma FirstChunkVisible(cs: seq<string>)
    requires cs != [] && Stripped(cs[0])
    ensures Visible(Concat(cs)) != []
  {
    ConcatAppend([cs[0]], cs[1..]);
    assert cs == [cs[0]] + cs[1..];
    assert Concat([cs[0]]) == cs[0] + Concat([]);
    VisibleAppend(cs[0], Concat(cs[1..]));
    assert Visible(cs[0]) == [cs[0][0]] + Visible(cs[0][1..]);
  }

  /** Without a sentence end followed by whitespace, the result is the stripped text or nothing. */
  lemma ChunkUnbroken(text: string)
    requires NoBoundary(text)
    ensures ChunkText(text) == if Strip(text) == [] then [] else [Strip(text)]
  {
    SplitWhole(text);
    assert Keep([text]) == (if Strip(text) == [] then [] else [Strip(text)]) + Keep([]);
  }

  /** Chunking a chunk again gives back that chunk alone. */
  lemma RechunkChunk(text: string)
    ensures forall c :: c in ChunkText(text) ==> ChunkText(c) == [c]
  {
    ChunksAreStripped(text);
    ChunksHaveNoBoundary(text);
    forall c | c in ChunkText(text) ensures ChunkText(c) == [c] {
      ChunkUnbroken(c);
      StripOfClean(c);
    }
  }

  /** A stripped text whose only sentence end, if any, is its last character is a single chunk. */
  lemma SingleSentence(s: string)
    requires Stripped(s)
    requires forall i :: 0 <= i < |s| - 1 ==> !IsSentenceEnd(s[i])
    ensures ChunkText(s) == [s]
  {
    assert NoBoundary(s) by {
      forall j | 0 < j < |s| ensures !BoundaryAt(s, j) {
        assert !IsSentenceEnd(s[j - 1]);
      }
    }
    ChunkUnbroken(s);
    StripOfClean(s);
  }
}
