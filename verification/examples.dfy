/** Worked inputs, with the ASCII character classes and the literal
    matcher. */
module Examples {
  import opened Wrappers
  import opened Unicode
  import opened Pattern
  import opened Matching
  import opened Engine
  import opened Context
  import opened JsString
  import opened FindrText
  import opened MultiLine
  import SnrText
  import Casing

  /** The document of the multi-line example: one `a` on each of two
      lines, the first one selected by the key its preview gave it. */
  function TwoLines(): MultiParams {
    MultiParams("a\na", Target.Text("a"), Literal("b"), Keys([Num(0)]), map[], DefaultOptions(), None)
  }

  /** The literal matcher over the ASCII classes. */
  function AsciiLiteral(): (m: Matcher)
    ensures ValidMatcher(m)
    ensures m == LiteralMatcher(Ascii())
  {
    LiteralMatcherValid(Ascii());
    LiteralMatcher(Ascii())
  }

  lemma SplitTwoLines()
    ensures Split("a\na", '\n') == ["a", "a"]
  {
    SplitJoin(["a", "a"], '\n');
    assert Join(["a", "a"], '\n') == "a\na";
  }

  lemma CompileA(wordLike: Boundary)
    ensures Compile(Target.Text("a"), DefaultOptions(), wordLike) == Success(Compiled("a", "g", None))
  {
    assert Escape("a") == "a";
  }

  lemma ScanA()
    ensures LiteralMatcher(Ascii())(Compiled("a", "g", None), "a") == [Occurrence(0, "", "a")]
  {
    assert Unescape("a") == "a";
    assert MatchAt("a", 0, "a", None, Identity) == Some(Occurrence(0, "", "a"));
    assert NextMatch("a", 0, "a", None, Identity) == Some(Occurrence(0, "", "a"));
    assert MatchAt("a", 1, "a", None, Identity) == None;
    assert NextMatch("a", 1, "a", None, Identity) == None;
    assert Scan("a", 0, "a", None, Identity) == [Occurrence(0, "", "a")];
  }

  /** The one-line call on a line `a` of the example: applied exactly when
      the offset makes its key `0`. */
  lemma LineA(n: nat, before: nat)
    ensures var r := Run(LineParams(TwoLines(), "a", n, before), Ascii(), UtilsWordLike(Ascii()), AsciiLiteral());
            && r.Success?
            && (before == 0 ==> r.value.replaced == "b" && r.value.results == [])
            && (before != 0 ==> r.value.replaced == "a" && |r.value.results| == 1)
  {
    var p := LineParams(TwoLines(), "a", n, before);
    CompileA(UtilsWordLike(Ascii()));
    ScanA();
    var ms := [Occurrence(0, "", "a")];
    assert IsApplied(p, 0) <==> before == 0;
    var st := Fold(ms, CasedOf(p, Ascii()), AppliedOf(p), RecordOf(p));
    assert Fold([], CasedOf(p, Ascii()), AppliedOf(p), RecordOf(p)) == Success(ScanState(0, 0, [], []));
    assert ms[..0] == [];
    assert CasedReplacement(p, Ascii(), ms[0], 0) == Success("b");
  }

  /** The loop over a two-line document. */
  lemma RunTwoLines(mp: MultiParams, engine: LineEngine, count: string -> nat, base: KeyBase,
                    a: string, b: string, o1: Output<FindrResult>, o2: Output<FindrResult>)
    requires engine(LineParams(mp, a, 1, 0)) == Success(o1)
    requires engine(LineParams(mp, b, 2, Before(Lines(o1.results, [o1.replaced], count(a)), base))) == Success(o2)
    ensures RunLines(mp, engine, count, [a, b], base)
              == Success(Lines(o1.results + o2.results, [o1.replaced, o2.replaced], count(a) + count(b)))
  {
    var lines := [a, b];
    assert lines[..1] == [a] && [a][..0] == [] && lines[1] == b && [a][0] == a;
    assert RunLines(mp, engine, count, [], base) == Success(Lines([], [], 0));
    assert Before(Lines([], [], 0), base) == 0;
    assert [] + o1.results == o1.results && [] + [o1.replaced] == [o1.replaced];
    assert |[a]| == 1;
    assert [o1.replaced] + [o2.replaced] == [o1.replaced, o2.replaced];
    assert RunLines(mp, engine, count, lines[..1], base) == Success(Lines(o1.results, [o1.replaced], count(a)));
    assert RunLines(mp, engine, count, [a], base) == Success(Lines(o1.results, [o1.replaced], count(a)));
  }

  /** A whole multi-line call on a two-line document, from its two
      one-line calls. */
  lemma TwoLineCall(mp: MultiParams, cc: CharClasses, wordLike: Boundary, matcher: Matcher, base: KeyBase,
                    a: string, b: string, o1: Output<FindrResult>, o2: Output<FindrResult>)
    requires ValidMatcher(matcher)
    requires Split(mp.source, '\n') == [a, b]
    requires Run(LineParams(mp, a, 1, 0), cc, wordLike, matcher) == Success(o1)
    requires Run(LineParams(mp, b, 2, Before(Lines(o1.results, [o1.replaced], MatchCountOf(mp, wordLike, matcher)(a)), base)),
                 cc, wordLike, matcher) == Success(o2)
    ensures MultiLineWith(mp, cc, wordLike, matcher, base)
              == Success(Output(o1.results + o2.results, Join([o1.replaced, o2.replaced], '\n')))
  {
    var engine := EngineOf(cc, wordLike, matcher);
    var count := MatchCountOf(mp, wordLike, matcher);
    RunTwoLines(mp, engine, count, base, a, b, o1, o2);
  }

  /** As written, selecting key 0 (the first line's match in a preview)
      applies the second line's match as well: the first line records
      nothing, so the second line's offset stays 0 and its match gets key 0
      too. */
  lemma SelectingFirstKeyAppliesBoth()
    ensures FindrMultiLine(TwoLines(), Ascii(), AsciiLiteral()) == Success(Output([], "b\nb"))
  {
    var mp := TwoLines();
    var w := UtilsWordLike(Ascii());
    SplitTwoLines();
    LineA(1, 0);
    LineA(2, 0);
    var o := Output([], "b");
    assert Before(Lines([], ["b"], MatchCountOf(mp, w, AsciiLiteral())("a")), PreviousResults) == 0;
    TwoLineCall(mp, Ascii(), w, AsciiLiteral(), PreviousResults, "a", "a", o, o);
    assert Join(["b", "b"], '\n') == "b\nb";
    assert o.results + o.results == [];
    assert FindrMultiLine(mp, Ascii(), AsciiLiteral()) == MultiLineWith(mp, Ascii(), w, AsciiLiteral(), PreviousResults);
  }

  /** A line `a` previewed records its one match. */
  lemma PreviewLineA(n: nat, before: nat)
    ensures var r := Run(LineParams(TwoLines().(selection := Keys([])), "a", n, before), Ascii(),
                         UtilsWordLike(Ascii()), AsciiLiteral());
            && r.Success? && r.value.replaced == "a" && |r.value.results| == 1
  {
    var p := LineParams(TwoLines().(selection := Keys([])), "a", n, before);
    CompileA(UtilsWordLike(Ascii()));
    ScanA();
    var ms := [Occurrence(0, "", "a")];
    assert !IsApplied(p, 0);
    assert Fold([], CasedOf(p, Ascii()), AppliedOf(p), RecordOf(p)) == Success(ScanState(0, 0, [], []));
    assert ms[..0] == [];
    assert CasedReplacement(p, Ascii(), ms[0], 0) == Success("b");
  }

  /** The same document previewed: unchanged, with one record per line. */
  lemma PreviewTwoLines()
    ensures var r := FindrMultiLine(TwoLines().(selection := Keys([])), Ascii(), AsciiLiteral());
            && r.Success?
            && r.value.replaced == "a\na"
            && |r.value.results| == 2
  {
    var mp := TwoLines().(selection := Keys([]));
    var w := UtilsWordLike(Ascii());
    SplitTwoLines();
    PreviewLineA(1, 0);
    PreviewLineA(2, 1);
    var o1 := Run(LineParams(mp, "a", 1, 0), Ascii(), w, AsciiLiteral()).value;
    var o2 := Run(LineParams(mp, "a", 2, 1), Ascii(), w, AsciiLiteral()).value;
    assert Before(Lines(o1.results, [o1.replaced], MatchCountOf(mp, w, AsciiLiteral())("a")), PreviousResults) == 1;
    TwoLineCall(mp, Ascii(), w, AsciiLiteral(), PreviousResults, "a", "a", o1, o2);
    assert Join(["a", "a"], '\n') == "a\na";
    assert FindrMultiLine(mp, Ascii(), AsciiLiteral()) == MultiLineWith(mp, Ascii(), w, AsciiLiteral(), PreviousResults);
  }

  /** ... and the two records are keyed 0 and 1. */
  lemma PreviewKeysTwoLines()
    ensures var r := FindrMultiLine(TwoLines().(selection := Keys([])), Ascii(), AsciiLiteral());
            && r.Success? && |r.value.results| == 2
            && r.value.results[0].resultKey == Num(0)
            && r.value.results[1].resultKey == Num(1)
  {
    var mp := TwoLines().(selection := Keys([]));
    PreviewTwoLines();
    MultiLineRecords(mp, Ascii(), UtilsWordLike(Ascii()), AsciiLiteral(), PreviousResults);
  }

  /** With the offset counting matches, key 0 selects only the first
      line's match, and the second one is recorded under key 1, the key
      the preview gave it. */
  lemma ByMatchesSelectsFirstOnly()
    ensures var r := FindrMultiLineByMatches(TwoLines(), Ascii(), AsciiLiteral());
            && r.Success?
            && r.value.replaced == "b\na"
            && |r.value.results| == 1
            && r.value.results[0].resultKey == Num(1)
  {
    var mp := TwoLines();
    var engine := EngineOf(Ascii(), UtilsWordLike(Ascii()), AsciiLiteral());
    var count := MatchCountOf(mp, UtilsWordLike(Ascii()), AsciiLiteral());
    SplitTwoLines();
    LineA(1, 0);
    LineA(2, 1);
    CompileA(UtilsWordLike(Ascii()));
    ScanA();
    assert count("a") == 1;
    var o1 := engine(LineParams(mp, "a", 1, 0)).value;
    var o2 := engine(LineParams(mp, "a", 2, 1)).value;
    RunTwoLines(mp, engine, count, PreviousMatches, "a", "a", o1, o2);
    assert Join(["b", "a"], '\n') == "b\na";
    RunResultsTagged(LineParams(mp, "a", 2, 1), Ascii(), UtilsWordLike(Ascii()), AsciiLiteral());
  }

  // ------------------------------------------------------ case preservation

  /** `findr`'s rules on three spellings of a match. */
  lemma FindrCaseAllCaps()
    ensures Casing.EvaluateCase(Ascii(), true, "HELLO", "hi") == Success("HI")
  {
    assert Upper(Ascii(), "HELLO") == "HELLO" && Lower(Ascii(), "HELLO") == "hello";
    assert Upper(Ascii(), "hi") == "HI";
  }

  lemma FindrCaseCapitalised()
    ensures Casing.EvaluateCase(Ascii(), true, "Hello", "hi") == Success("Hi")
    ensures Casing.EvaluateCase(Ascii(), true, "Hello", "").Failure?
  {
    assert Upper(Ascii(), "Hello")[1] == 'E';
    assert !Casing.IsUpperCase(Ascii(), "Hello");
    assert Casing.StartsUpper(Ascii(), "Hello");
    assert [Ascii().toUpper('h')] + "hi"[1..] == "Hi";
  }

  lemma FindrCaseLower()
    ensures Casing.EvaluateCase(Ascii(), true, "hello", "hi") == Success("hi")
  {
    assert Upper(Ascii(), "hello")[0] == 'H';
  }

  /** snr-text's rule on an all-caps match: only the first letter. */
  lemma SnrTextCaseRule()
    ensures SnrText.MatchCase(Ascii(), true, "HELLO", "hi") == Success("Hi")
    ensures SnrText.MatchCase(Ascii(), false, "HELLO", "hi") == Success("hi")
  {
    assert Casing.StartsUpper(Ascii(), "HELLO");
    assert [Ascii().toUpper('h')] + "hi"[1..] == "Hi";
  }

  // ---------------------------------------------------------------- context

  /** A match of `quick` at offset 4 of `the quick fox`, with a window of
      three characters and the default filters. */
  function QuickParams(): Params {
    Params("the quick fox", Target.Text("quick"), Literal("fast"), Keys([]), map[],
           DefaultOptions().(ctxLen := 3), None)
  }

  lemma QuickContext()
    ensures MakeResult(QuickParams(), Occurrence(4, "", "quick"), "fast", 0).context == "he [-quick][+fast] fo"
  {
    var s := "the quick fox";
    assert CtxBefore(s, 4, 3) == s[1..4] == "he ";
    assert CtxAfter(s, 9, 3) == s[9..12] == " fo";
  }

  /** The extended context runs from the line start and stops before the
      line's last character. */
  lemma QuickExtendedContext()
    ensures MakeResult(QuickParams(), Occurrence(4, "", "quick"), "fast", 0).extContext == "the [-quick][+fast] fo"
  {
    var s := "the quick fox";
    assert ExtBefore(s, 4) == s[..4] == "the ";
    assert ExtAfter(s, 9) == s[9..12] == " fo";
  }

  // ------------------------------------------------------- word boundaries

  function TomcatParams(): Params {
    Params("tomcat", Target.Text("cat"), Literal("dog"), All, map[],
           DefaultOptions().(isWordMatched := true), None)
  }

  lemma CompileCat(wordLike: Boundary)
    ensures Compile(Target.Text("cat"), TomcatParams().options, wordLike) == Success(Compiled("cat", "g", Some(wordLike)))
  {
    assert Escape("cat") == "cat";
  }

  /** With utils.ts's class, `m` does not count as a word character, so
      whole-word `cat` is found inside `tomcat`, with the `m` consumed as
      its prefix. */
  lemma UtilsClassMatchesInsideWord()
    ensures AsciiLiteral()(Compiled("cat", "g", Some(UtilsWordLike(Ascii()))), "tomcat") == [Occurrence(2, "m", "cat")]
  {
    var w := UtilsWordLike(Ascii());
    var b := Some(w);
    var s := "tomcat";
    assert Unescape("cat") == "cat";
    assert !w.prefixIsWord('m') by {
      assert 'm' !in UtilsClassLiterals;
      assert !Ascii().isNumber('m');
    }
    assert LitAt(s, 3, "cat", Identity) by {
      assert s[3..6] == "cat";
    }
    assert !LitAt(s, 0, "cat", Identity) && !LitAt(s, 1, "cat", Identity) && !LitAt(s, 2, "cat", Identity) by {
      assert s[0] != 'c' && s[1] != 'c' && s[2] != 'c';
    }
    assert AheadOk(s, 6, w);
    assert s[2] == 'm' && [s[2]] == "m" && s[2 + 1..2 + 1 + 3] == "cat";
    assert MatchAt(s, 0, "cat", b, Identity) == None;
    assert MatchAt(s, 1, "cat", b, Identity) == None;
    assert MatchAt(s, 2, "cat", b, Identity) == Some(Occurrence(2, "m", "cat"));
    assert NextMatch(s, 0, "cat", b, Identity) == Some(Occurrence(2, "m", "cat"));
    assert MatchAt(s, 6, "cat", b, Identity) == None;
    assert NextMatch(s, 6, "cat", b, Identity) == None;
    assert Scan(s, 0, "cat", b, Identity) == [Occurrence(2, "m", "cat")];
    LiteralMatcherScans(Ascii(), Compiled("cat", "g", b), "cat", s);
  }

  /** A call is its compiled pattern's scan. */
  lemma RunOf(p: Params, cc: CharClasses, wordLike: Boundary, m: Matcher, c: Compiled)
    requires ValidMatcher(m)
    requires Compile(p.target, p.options, wordLike) == Success(c)
    ensures Run(p, cc, wordLike, m) == Replace(p, cc, m(c, p.source))
  {
  }

  /** A scan over a single applied match splices its replacement in and
      records nothing. */
  lemma OneApplied(p: Params, cc: CharClasses, o: Occurrence, t: string)
    requires WellFormed(p.source, [o], 0)
    requires IsApplied(p, 0) && CasedReplacement(p, cc, o, 0) == Success(t)
    ensures Replace(p, cc, [o]) == Success(Output([], Splice(p.source, [o], [o.aux + t], 0)))
  {
    var ms := [o];
    var cased, applied, record := CasedOf(p, cc), AppliedOf(p), RecordOf(p);
    assert cased(o, 0) == Success(t) && applied(0);
    assert ms[..0] == [] && ms[0] == o;
    assert Fold([], cased, applied, record) == Success(ScanState(0, 0, [], []));
    assert Decide(o, 0, 0, cased, applied, record) == Success(Applied(o.aux + t));
    assert [] + [o.aux + t] == [o.aux + t];
    assert Step(ScanState(0, 0, [], []), o, cased, applied, record) == Success(ScanState(1, 0, [], [o.aux + t]));
    assert Fold(ms, cased, applied, record) == Success(ScanState(1, 0, [], [o.aux + t]));
  }

  lemma SpliceTomcat()
    ensures Splice("tomcat", [Occurrence(2, "m", "cat")], ["mdog"], 0) == "tomdog"
  {
    var s := "tomcat";
    assert s[0..2] == "to" && s[6..] == "";
    assert Splice(s, [], [], 6) == "";
  }

  /** So `findr` rewrites `tomcat` to `tomdog` although `cat` is no whole
      word there. */
  lemma UtilsClassReplacesInsideWord()
    ensures Findr(TomcatParams(), Ascii(), AsciiLiteral()) == Success(Output([], "tomdog"))
  {
    var p := TomcatParams();
    var o := Occurrence(2, "m", "cat");
    var c := Compiled("cat", "g", Some(UtilsWordLike(Ascii())));
    UtilsClassMatchesInsideWord();
    CompileCat(UtilsWordLike(Ascii()));
    assert CasedReplacement(p, Ascii(), o, 0) == Success("dog");
    OneApplied(p, Ascii(), o, "dog");
    assert o.aux + "dog" == "mdog";
    SpliceTomcat();
    RunOf(p, Ascii(), UtilsWordLike(Ascii()), AsciiLiteral(), c);
  }

  /** With the Letter-or-Number class of findr-text's `snr`, nothing is
      found in `tomcat`. */
  lemma SnrClassRespectsWord()
    ensures AsciiLiteral()(Compiled("cat", "g", Some(SnrWordLike(Ascii()))), "tomcat") == []
    ensures Snr(TomcatParams(), Ascii(), AsciiLiteral()) == Success(Output([], "tomcat"))
  {
    var b := Some(SnrWordLike(Ascii()));
    var s := "tomcat";
    assert Unescape("cat") == "cat";
    assert MatchAt(s, 6, "cat", b, Identity) == None;
    assert MatchAt(s, 5, "cat", b, Identity) == None;
    assert MatchAt(s, 4, "cat", b, Identity) == None;
    assert MatchAt(s, 3, "cat", b, Identity) == None;
    assert MatchAt(s, 2, "cat", b, Identity) == None;
    assert MatchAt(s, 1, "cat", b, Identity) == None;
    assert MatchAt(s, 0, "cat", b, Identity) == None;
    assert NextMatch(s, 0, "cat", b, Identity) == None;
    var p := TomcatParams();
    CompileCat(SnrWordLike(Ascii()));
    assert Fold([], CasedOf(p, Ascii()), AppliedOf(p), RecordOf(p)) == Success(ScanState(0, 0, [], []));
  }
}
