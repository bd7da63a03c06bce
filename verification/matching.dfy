/** Where the pattern matches. A global `String.prototype.replace` reports
    each match as an offset, the prefix group (the consumed boundary
    character, if any) and the match group, left to right and without
    overlap, and then splices the callback's returns into the unmatched
    gaps. General regular expressions are an oracle here (`Matcher`); the
    literal targets of `isRegex: false` get a concrete scan. */
module Matching {
  import opened Wrappers
  import opened Unicode
  import opened Pattern

  /** One match: the offset the engine reports (`tmpPos`), group 1
      (`auxMatch`) and group 2 (`match`). */
  datatype Occurrence = Occurrence(offset: nat, aux: string, text: string) {
    /** The true position of the match text, `tmpPos + auxMatch.length`. */
    function Start(): nat { offset + |aux| }
    /** Where the consumed span ends and the scan resumes. */
    function End(): nat { offset + |aux| + |text| }
  }

  /** The occurrence really is at its offset in `line`, and is not empty. */
  ghost predicate Occurs(line: string, o: Occurrence) {
    && o.End() <= |line|
    && line[o.offset..o.Start()] == o.aux
    && line[o.Start()..o.End()] == o.text
    && |o.text| > 0
  }

  /** A legal match list for `line`, all at or after `from`: in bounds,
      left to right, non-overlapping. */
  ghost predicate WellFormed(line: string, ms: seq<Occurrence>, from: nat) {
    && (forall k :: 0 <= k < |ms| ==> from <= ms[k].offset && Occurs(line, ms[k]))
    && (forall j, k :: 0 <= j < k < |ms| ==> ms[j].End() <= ms[k].offset)
  }

  /** The regular-expression engine: the matches of a compiled pattern in a
      line. */
  type Matcher = (Compiled, string) -> seq<Occurrence>

  ghost predicate ValidMatcher(m: Matcher) {
    forall c, s :: WellFormed(s, m(c, s), 0)
  }

  // ------------------------------------------------------------ splicing

  /** What `replace` builds from `line[from..]`: each gap copied, each match
      span replaced by the callback's return for it. */
  function Splice(line: string, ms: seq<Occurrence>, pieces: seq<string>, from: nat): string
    requires from <= |line| && |pieces| == |ms| && WellFormed(line, ms, from)
    decreases |ms|
  {
    if |ms| == 0 then line[from..]
    else line[from..ms[0].offset] + pieces[0] + Splice(line, ms[1..], pieces[1..], ms[0].End())
  }

  /** Returning each match's own text (`tmpMatch`) reproduces the line. */
  lemma {:induction false} SpliceOriginals(line: string, ms: seq<Occurrence>, pieces: seq<string>, from: nat)
    requires from <= |line| && |pieces| == |ms| && WellFormed(line, ms, from)
    requires forall k :: 0 <= k < |ms| ==> pieces[k] == ms[k].aux + ms[k].text
    ensures Splice(line, ms, pieces, from) == line[from..]
    decreases |ms|
  {
    if |ms| > 0 {
      var o := ms[0];
      SpliceOriginals(line, ms[1..], pieces[1..], o.End());
      assert line[from..] == line[from..o.offset] + line[o.offset..o.Start()]
                             + line[o.Start()..o.End()] + line[o.End()..];
    }
  }

  /** How much longer the returns are than the spans they replace. */
  function Growth(ms: seq<Occurrence>, pieces: seq<string>): int
    requires |pieces| == |ms|
  {
    if |ms| == 0 then 0
    else (|pieces[0]| - (|ms[0].aux| + |ms[0].text|)) + Growth(ms[1..], pieces[1..])
  }

  /** The output length is the input length adjusted by the net size change
      of the replaced spans only. */
  lemma {:induction false} SpliceLength(line: string, ms: seq<Occurrence>, pieces: seq<string>, from: nat)
    requires from <= |line| && |pieces| == |ms| && WellFormed(line, ms, from)
    ensures |Splice(line, ms, pieces, from)| == |line| - from + Growth(ms, pieces)
    decreases |ms|
  {
    if |ms| > 0 {
      SpliceLength(line, ms[1..], pieces[1..], ms[0].End());
    }
  }

  // -------------------------------------------------------- literal scan

  /** Equal up to the case folding in effect (`fold` is the identity
      without the `i` flag). */
  predicate SameText(a: string, b: string, fold: char -> char) {
    |a| == |b| && forall i :: 0 <= i < |a| ==> fold(a[i]) == fold(b[i])
  }

  predicate LitAt(s: string, i: nat, lit: string, fold: char -> char) {
    i + |lit| <= |s| && SameText(s[i..i + |lit|], lit, fold)
  }

  /** The lookahead `(?=[^W]|$)` at `j`: it tests, and does not consume. */
  predicate AheadOk(s: string, j: nat, b: Boundary)
    requires j <= |s|
  {
    j == |s| || !b.aheadIsWord(s[j])
  }

  /** One attempt of the wrapped pattern at offset `i`. Without a boundary
      it is `()(lit)`. With one it is `(^|[^W])(lit)(?=[^W]|$)`: the `^`
      branch first (only at offset 0), then one consumed non-word
      character. */
  function MatchAt(s: string, i: nat, lit: string, boundary: Option<Boundary>, fold: char -> char)
    : (r: Option<Occurrence>)
    requires i <= |s| && |lit| > 0
    ensures r.Some? ==> r.value.offset == i && Occurs(s, r.value) && SameText(r.value.text, lit, fold)
    ensures r.Some? && boundary.None? ==> r.value.aux == []
    ensures r.Some? && boundary.Some? ==>
              || (i == 0 && r.value.aux == [])
              || (|r.value.aux| == 1 && !boundary.value.prefixIsWord(r.value.aux[0]))
    ensures r.Some? && boundary.Some? ==>
              r.value.End() == |s| || !boundary.value.aheadIsWord(s[r.value.End()])
  {
    match boundary
    case None =>
      if LitAt(s, i, lit, fold) then Some(Occurrence(i, [], s[i..i + |lit|])) else None
    case Some(b) =>
      if i == 0 && LitAt(s, 0, lit, fold) && AheadOk(s, |lit|, b) then
        Some(Occurrence(0, [], s[..|lit|]))
      else if i < |s| && !b.prefixIsWord(s[i]) && LitAt(s, i + 1, lit, fold) && AheadOk(s, i + 1 + |lit|, b) then
        Some(Occurrence(i, [s[i]], s[i + 1..i + 1 + |lit|]))
      else None
  }

  /** The converse of MatchAt's contract: any legal match starting at `i`
      (the literal, an empty prefix without whole-word mode; with it, the
      line start or one non-word character before, and no word character
      after) makes the attempt succeed. When the prefix is empty, or the
      `^` alternative cannot apply, the attempt returns exactly that match. */
  lemma MatchAtComplete(s: string, i: nat, lit: string, boundary: Option<Boundary>, fold: char -> char, o: Occurrence)
    requires i <= |s| && |lit| > 0
    requires o.offset == i && Occurs(s, o) && SameText(o.text, lit, fold)
    requires boundary.None? ==> o.aux == []
    requires boundary.Some? ==>
               || (i == 0 && o.aux == [])
               || (|o.aux| == 1 && !boundary.value.prefixIsWord(o.aux[0]))
    requires boundary.Some? ==> o.End() == |s| || !boundary.value.aheadIsWord(s[o.End()])
    ensures MatchAt(s, i, lit, boundary, fold).Some?
    ensures boundary.None? || o.aux == [] ==> MatchAt(s, i, lit, boundary, fold) == Some(o)
    ensures boundary.Some? && !(i == 0 && LitAt(s, 0, lit, fold) && AheadOk(s, |lit|, boundary.value)) ==>
              MatchAt(s, i, lit, boundary, fold) == Some(o)
  {
    var k := |o.aux|;
    assert s[i + k..i + k + |lit|] == o.text;
    assert LitAt(s, i + k, lit, fold);
    if k == 1 {
      assert s[i] == o.aux[0] by { assert s[i..i + 1][0] == s[i]; }
    }
  }

  /** With whole-word mode at offset 0, the `^` alternative comes first:
      whenever the literal stands at the line start with no word character
      after it, the match has an empty prefix, even if the first character
      would also qualify as a non-word prefix. */
  lemma CaretPreferred(s: string, lit: string, b: Boundary, fold: char -> char)
    requires |lit| > 0 && LitAt(s, 0, lit, fold) && AheadOk(s, |lit|, b)
    ensures MatchAt(s, 0, lit, Some(b), fold) == Some(Occurrence(0, [], s[..|lit|]))
  {
  }

  /** The next match at or after `from`: the leftmost offset where the
      pattern matches. */
  function NextMatch(s: string, from: nat, lit: string, b: Option<Boundary>, fold: char -> char)
    : (r: Option<Occurrence>)
    requires from <= |s| && |lit| > 0
    ensures r.Some? ==> from <= r.value.offset <= |s| && MatchAt(s, r.value.offset, lit, b, fold) == r
    ensures r.Some? ==> forall i :: from <= i < r.value.offset ==> MatchAt(s, i, lit, b, fold).None?
    ensures r.None? ==> forall i :: from <= i <= |s| ==> MatchAt(s, i, lit, b, fold).None?
    decreases |s| - from
  {
    var m := MatchAt(s, from, lit, b, fold);
    if m.Some? then m
    else if from == |s| then None
    else NextMatch(s, from + 1, lit, b, fold)
  }

  /** The global scan: find the leftmost match, resume right after the
      consumed span (so a lookahead character can start the next match). */
  function Scan(s: string, from: nat, lit: string, b: Option<Boundary>, fold: char -> char)
    : (ms: seq<Occurrence>)
    requires from <= |s| && |lit| > 0
    ensures WellFormed(s, ms, from)
    ensures forall k :: 0 <= k < |ms| ==> MatchAt(s, ms[k].offset, lit, b, fold) == Some(ms[k])
    decreases |s| - from
  {
    match NextMatch(s, from, lit, b, fold)
    case None => []
    case Some(o) => [o] + Scan(s, o.End(), lit, b, fold)
  }

  /** The scan misses nothing: every offset where the pattern could match
      is a reported offset or lies inside a span an earlier match
      consumed. */
  lemma {:induction false} ScanComplete(s: string, from: nat, lit: string, b: Option<Boundary>, fold: char -> char, i: nat)
    requires from <= i <= |s| && |lit| > 0
    requires MatchAt(s, i, lit, b, fold).Some?
    ensures var ms := Scan(s, from, lit, b, fold);
            exists k :: 0 <= k < |ms| && ms[k].offset <= i < ms[k].End()
    decreases |s| - from
  {
    var o := NextMatch(s, from, lit, b, fold).value;
    var rest := Scan(s, o.End(), lit, b, fold);
    var ms := [o] + rest;
    assert Scan(s, from, lit, b, fold) == ms;
    assert o.offset <= i;
    if i >= o.End() {
      ScanComplete(s, o.End(), lit, b, fold, i);
      var k :| 0 <= k < |rest| && rest[k].offset <= i < rest[k].End();
      assert ms[k + 1] == rest[k];
    } else {
      assert ms[0].offset <= i < ms[0].End();
    }
  }

  /** In whole-word mode every reported match starts the line or follows a
      consumed non-word character, and is followed by the end of the line
      or a non-word character. */
  lemma ScanRespectsBoundary(s: string, from: nat, lit: string, b: Boundary, fold: char -> char)
    requires from <= |s| && |lit| > 0
    ensures var ms := Scan(s, from, lit, Some(b), fold);
            forall k :: 0 <= k < |ms| ==>
              && ((ms[k].offset == 0 && ms[k].aux == []) || (|ms[k].aux| == 1 && !b.prefixIsWord(ms[k].aux[0])))
              && (ms[k].End() == |s| || !b.aheadIsWord(s[ms[k].End()]))
  {
    var ms := Scan(s, from, lit, Some(b), fold);
    forall k | 0 <= k < |ms|
      ensures MatchAt(s, ms[k].offset, lit, Some(b), fold) == Some(ms[k])
    {
    }
  }

  function Identity(c: char): char { c }

  /** The matcher of literal mode: the compiled source is an escaped
      literal, so unescaping it gives back the text to look for; the `i`
      flag folds case with `toUpper`. An empty literal, which the source
      would match at every position, yields nothing here. */
  function LiteralMatcher(cc: CharClasses): Matcher {
    (c: Compiled, s: string) =>
      var lit := Unescape(c.source);
      if |lit| == 0 then [] else Scan(s, 0, lit, c.boundary, if 'i' in c.flags then cc.toUpper else Identity)
  }

  /** The literal matcher on a compiled literal `lit` is the scan for it. */
  lemma LiteralMatcherScans(cc: CharClasses, c: Compiled, lit: string, s: string)
    requires Unescape(c.source) == lit && |lit| > 0
    ensures LiteralMatcher(cc)(c, s) == Scan(s, 0, lit, c.boundary, if 'i' in c.flags then cc.toUpper else Identity)
  {
  }

  /** The literal scan is a legal regular-expression engine. */
  lemma LiteralMatcherValid(cc: CharClasses)
    ensures ValidMatcher(LiteralMatcher(cc))
  {
    forall c: Compiled, s: string
      ensures WellFormed(s, LiteralMatcher(cc)(c, s), 0)
    {
      var lit := Unescape(c.source);
      if |lit| > 0 {
        var ms := Scan(s, 0, lit, c.boundary, if 'i' in c.flags then cc.toUpper else Identity);
        assert LiteralMatcher(cc)(c, s) == ms;
      }
    }
  }
}
