/** `findr` (findr-text/src/findr.ts) and its near-duplicate `snr`
    (findr-text/src/snr.ts): prepare the pattern, scan one line once,
    apply the selected matches and preview the others. The two differ only
    in the whole-word boundary class, so both are `Run` with a different
    `Boundary`. */
module FindrText {
  import opened Wrappers
  import opened Errors
  import opened Unicode
  import opened Pattern
  import opened Matching
  import opened Engine
  import opened Context
  import Casing

  /** The `config` of `findr`. A missing filter (`null`) shows the text as
      it is. */
  datatype Options = Options(
    ctxLen: int,
    isRegex: bool,
    isCaseMatched: bool,
    isWordMatched: bool,
    isCasePreserved: bool,
    filterCtxMatch: Option<string -> string>,
    filterCtxReplacement: Option<string -> string>)

  /** The destructuring defaults of `findr`. */
  function DefaultOptions(): Options {
    Options(0, false, true, false, false, Some(MarkRemoved), Some(MarkAdded))
  }

  /** The arguments of `findr`. */
  datatype Params = Params(
    source: string,
    target: Target,
    replacement: Replacement,
    selection: Selection,
    metadata: Metadata,
    options: Options,
    buildResultKey: Option<nat -> Key>)

  /** One preview record. */
  datatype FindrResult = FindrResult(
    context: string,
    extContext: string,
    source: string,
    resultKey: Key,
    metadata: Metadata)

  /** `{results, replaced}`. */
  datatype Output<R> = Output(results: seq<R>, replaced: string)

  /** Steps 1 to 4 of a call: read the target (escaped in literal mode,
      `evalRegex` in regex mode), merge the flags, wrap into two groups. */
  function Compile(target: Target, options: Options, wordLike: Boundary): (r: Result<Compiled, Error>)
    ensures r.Failure? <==> target.Unsupported?
    ensures r.Failure? ==> r.error == InvalidTargetType
    ensures r.Success? ==> (r.value.boundary.Some? <==> options.isWordMatched)
    ensures r.Success? && options.isWordMatched ==> r.value.boundary == Some(wordLike)
    // regex mode: a RegExp keeps its source, and its flags join the defaults
    ensures options.isRegex && target.RegExp? ==>
              r.Success? && r.value.source == target.source
              && r.value.flags == MergeFlags(Some(target.flags), FindrDefaultFlags(options.isCaseMatched))
    // regex mode: a string is read as `/source/flags`
    ensures options.isRegex && target.Text? ==>
              r.Success? && r.value.source == ParseSlashes(target.text).source
              && r.value.flags == MergeFlags(ParseSlashes(target.text).flags, FindrDefaultFlags(options.isCaseMatched))
    // literal mode: exactly the default flags
    ensures r.Success? && !options.isRegex ==> r.value.flags == FindrDefaultFlags(options.isCaseMatched)
  {
    var data :- if options.isRegex then EvalRegex(target) else EscapeTarget(target);
    Success(PrepareRegExp(data.source, MergeFlags(data.flags, FindrDefaultFlags(options.isCaseMatched)),
                          options.isWordMatched, wordLike))
  }

  /** `evaluateCase(match, match.replace(finalRgx, r))`, with the inner
      replace taken as returning `r`. */
  function CasedReplacement(p: Params, cc: CharClasses, o: Occurrence, replaceIndex: nat): Result<string, Error> {
    var r :- ComputeReplacement(p.replacement, replaceIndex, o, p.source);
    Casing.EvaluateCase(cc, p.options.isCasePreserved, o.text, r)
  }

  /** Whether the match with this `replaceIndex` is applied. */
  predicate IsApplied(p: Params, replaceIndex: nat) {
    Selected(p.selection, KeyOf(p.buildResultKey, replaceIndex))
  }

  /** The record pushed for a previewed match. */
  function MakeResult(p: Params, o: Occurrence, cased: string, searchIndex: nat): FindrResult {
    var shownMatch := ApplyFilter(p.options.filterCtxMatch, o.text);
    var shownReplacement := ApplyFilter(p.options.filterCtxReplacement, cased);
    FindrResult(
      CtxBefore(p.source, o.Start(), p.options.ctxLen) + shownMatch + shownReplacement
        + CtxAfter(p.source, o.End(), p.options.ctxLen),
      ExtBefore(p.source, o.Start()) + shownMatch + shownReplacement + ExtAfter(p.source, o.End()),
      p.source,
      KeyOf(p.buildResultKey, searchIndex),
      ResultMetadata(o.text, searchIndex, p.metadata))
  }

  /** The replacement callback's three roles, as the scan sees them. */
  function CasedOf(p: Params, cc: CharClasses): (Occurrence, nat) -> Result<string, Error> {
    (o: Occurrence, i: nat) => CasedReplacement(p, cc, o, i)
  }

  function AppliedOf(p: Params): nat -> bool {
    (i: nat) => IsApplied(p, i)
  }

  function RecordOf(p: Params): (Occurrence, string, nat) -> FindrResult {
    (o: Occurrence, c: string, si: nat) => MakeResult(p, o, c, si)
  }

  /** The `source.replace(initialRgx, callback)` scan over the matches `ms`
      of the source. */
  function Replace(p: Params, cc: CharClasses, ms: seq<Occurrence>): Result<Output<FindrResult>, Error>
    requires WellFormed(p.source, ms, 0)
  {
    var st :- Fold(ms, CasedOf(p, cc), AppliedOf(p), RecordOf(p));
    Success(Output(st.records, Splice(p.source, ms, st.pieces, 0)))
  }

  /** A whole call with the given whole-word class. */
  function Run(p: Params, cc: CharClasses, wordLike: Boundary, matcher: Matcher): Result<Output<FindrResult>, Error>
    requires ValidMatcher(matcher)
  {
    var c :- Compile(p.target, p.options, wordLike);
    Replace(p, cc, matcher(c, p.source))
  }

  /** `findr`: the boundary class is utils.ts's `WordLike`. */
  function Findr(p: Params, cc: CharClasses, matcher: Matcher): Result<Output<FindrResult>, Error>
    requires ValidMatcher(matcher)
  {
    Run(p, cc, UtilsWordLike(cc), matcher)
  }

  /** findr-text's `snr`: the boundary class is Letter or Number. */
  function Snr(p: Params, cc: CharClasses, matcher: Matcher): Result<Output<FindrResult>, Error>
    requires ValidMatcher(matcher)
  {
    Run(p, cc, SnrWordLike(cc), matcher)
  }

  // ------------------------------------------------------------ the scan

  /** The indices of the previewed matches, in match order. */
  function Previewed(p: Params, n: nat): seq<nat> {
    Unselected(AppliedOf(p), n)
  }

  /** The scan throws exactly when some match's replacement cannot be
      computed: an invalid replacement (as soon as there is one match), or
      capitalising an empty replacement. */
  lemma ReplaceFails(p: Params, cc: CharClasses, ms: seq<Occurrence>)
    requires WellFormed(p.source, ms, 0)
    ensures Replace(p, cc, ms).Failure? <==>
              exists k :: 0 <= k < |ms| && CasedReplacement(p, cc, ms[k], k).Failure?
    ensures p.replacement.InvalidReplacement? ==> (Replace(p, cc, ms).Failure? <==> |ms| > 0)
  {
    FoldSucceeds(ms, CasedOf(p, cc), AppliedOf(p), RecordOf(p));
    if p.replacement.InvalidReplacement? && |ms| > 0 {
      assert CasedReplacement(p, cc, ms[0], 0).Failure?;
    }
  }

  /** Each match puts exactly one piece into the output: an applied match
      its prefix group and its cased replacement, any other match its own
      text. */
  lemma ReplacePieces(p: Params, cc: CharClasses, ms: seq<Occurrence>)
    requires WellFormed(p.source, ms, 0)
    requires Replace(p, cc, ms).Success?
    ensures forall k :: 0 <= k < |ms| ==> CasedReplacement(p, cc, ms[k], k).Success?
    ensures var st := Fold(ms, CasedOf(p, cc), AppliedOf(p), RecordOf(p)).value;
            && Replace(p, cc, ms).value.replaced == Splice(p.source, ms, st.pieces, 0)
            && |st.pieces| == |ms|
            && (forall k :: 0 <= k < |ms| ==>
                  st.pieces[k] == (if IsApplied(p, k) then ms[k].aux + CasedReplacement(p, cc, ms[k], k).value
                                   else ms[k].aux + ms[k].text))
  {
    FoldSpec(ms, CasedOf(p, cc), AppliedOf(p), RecordOf(p));
  }

  /** Applied matches record nothing; every other match gets exactly one
      record, in match order, built with its position among the records as
      `searchIndex`. */
  lemma ReplaceRecords(p: Params, cc: CharClasses, ms: seq<Occurrence>)
    requires WellFormed(p.source, ms, 0)
    requires Replace(p, cc, ms).Success?
    ensures var out := Replace(p, cc, ms).value;
            var u := Previewed(p, |ms|);
            && |out.results| == |u|
            && (forall j :: 0 <= j < |u| ==>
                  && CasedReplacement(p, cc, ms[u[j]], u[j]).Success?
                  && out.results[j] == MakeResult(p, ms[u[j]], CasedReplacement(p, cc, ms[u[j]], u[j]).value, j))
  {
    FoldSpec(ms, CasedOf(p, cc), AppliedOf(p), RecordOf(p));
  }

  /** With nothing selected (the default empty `replacementKeys`), the line
      comes back unchanged. */
  lemma NothingSelectedKeepsSource(p: Params, cc: CharClasses, ms: seq<Occurrence>)
    requires WellFormed(p.source, ms, 0)
    requires forall k :: 0 <= k < |ms| ==> !IsApplied(p, k)
    requires Replace(p, cc, ms).Success?
    ensures Replace(p, cc, ms).value.replaced == p.source
  {
    ReplacePieces(p, cc, ms);
    var st := Fold(ms, CasedOf(p, cc), AppliedOf(p), RecordOf(p)).value;
    SpliceOriginals(p.source, ms, st.pieces, 0);
  }

  /** With nothing selected, every match gets a record, the j-th one for
      the j-th match. */
  lemma NothingSelectedRecordsAll(p: Params, cc: CharClasses, ms: seq<Occurrence>)
    requires WellFormed(p.source, ms, 0)
    requires forall k :: 0 <= k < |ms| ==> !IsApplied(p, k)
    requires Replace(p, cc, ms).Success?
    ensures forall k :: 0 <= k < |ms| ==> CasedReplacement(p, cc, ms[k], k).Success?
    ensures |Replace(p, cc, ms).value.results| == |ms|
    ensures forall j :: 0 <= j < |ms| ==>
              Replace(p, cc, ms).value.results[j]
                == MakeResult(p, ms[j], CasedReplacement(p, cc, ms[j], j).value, j)
  {
    ReplaceRecords(p, cc, ms);
    ReplaceFails(p, cc, ms);
    var applied := AppliedOf(p);
    forall k | 0 <= k < |ms|
      ensures !applied(k)
    {
      assert !IsApplied(p, k);
    }
    UnselectedAll(applied, |ms|);
    var u := Previewed(p, |ms|);
    var rs := Replace(p, cc, ms).value.results;
    assert |u| == |ms|;
    forall j | 0 <= j < |ms|
      ensures rs[j] == MakeResult(p, ms[j], CasedReplacement(p, cc, ms[j], j).value, j)
    {
      assert u[j] == j;
      assert rs[j] == MakeResult(p, ms[u[j]], CasedReplacement(p, cc, ms[u[j]], u[j]).value, j);
    }
  }

  /** The default selection is the empty list. */
  lemma DefaultSelectionPreviewsAll(p: Params, cc: CharClasses, ms: seq<Occurrence>)
    requires WellFormed(p.source, ms, 0)
    requires p.selection == Keys([])
    requires Replace(p, cc, ms).Success?
    ensures Replace(p, cc, ms).value.replaced == p.source
    ensures |Replace(p, cc, ms).value.results| == |ms|
  {
    NothingSelectedKeepsSource(p, cc, ms);
    NothingSelectedRecordsAll(p, cc, ms);
  }

  /** With `"all"`, nothing is recorded and every match is replaced by its
      prefix group and its cased replacement. */
  lemma SelectAllAppliesEverything(p: Params, cc: CharClasses, ms: seq<Occurrence>)
    requires WellFormed(p.source, ms, 0)
    requires p.selection == All
    requires Replace(p, cc, ms).Success?
    ensures forall k :: 0 <= k < |ms| ==> CasedReplacement(p, cc, ms[k], k).Success?
    ensures Replace(p, cc, ms).value.results == []
    ensures var st := Fold(ms, CasedOf(p, cc), AppliedOf(p), RecordOf(p)).value;
            && Replace(p, cc, ms).value.replaced == Splice(p.source, ms, st.pieces, 0)
            && forall k :: 0 <= k < |ms| ==> st.pieces[k] == ms[k].aux + CasedReplacement(p, cc, ms[k], k).value
  {
    ReplacePieces(p, cc, ms);
    ReplaceRecords(p, cc, ms);
    assert forall k :: 0 <= k < |ms| ==> AppliedOf(p)(k);
    UnselectedNone(AppliedOf(p), |ms|);
  }

  /** A replacement function sees the current `replaceIndex` as `index` and
      `tmpPos + auxMatch.length` as `position`, and with case preservation
      off its return goes into the output verbatim. */
  lemma ComputedReplacementArguments(p: Params, cc: CharClasses, ms: seq<Occurrence>, f: ReplaceArgs -> string)
    requires WellFormed(p.source, ms, 0)
    requires p.selection == All && p.replacement == Computed(f) && !p.options.isCasePreserved
    ensures Replace(p, cc, ms).Success?
    ensures var st := Fold(ms, CasedOf(p, cc), AppliedOf(p), RecordOf(p)).value;
            && Replace(p, cc, ms).value.replaced == Splice(p.source, ms, st.pieces, 0)
            && forall k :: 0 <= k < |ms| ==>
                 st.pieces[k] == ms[k].aux + f(ReplaceArgs(k, ms[k].text, ms[k].offset + |ms[k].aux|, p.source))
  {
    forall k | 0 <= k < |ms|
      ensures CasedReplacement(p, cc, ms[k], k) == Success(f(ReplaceArgs(k, ms[k].text, ms[k].offset + |ms[k].aux|, p.source)))
    {
    }
    assert Replace(p, cc, ms).Success? by {
      ReplaceFails(p, cc, ms);
    }
    SelectAllAppliesEverything(p, cc, ms);
  }

  /** Every record's metadata carries its match text and its `searchIndex`
      unless the caller's metadata overrides them; its key is
      `buildResultKey(searchIndex)`. */
  lemma ResultKeysAndIndices(p: Params, cc: CharClasses, ms: seq<Occurrence>)
    requires WellFormed(p.source, ms, 0)
    requires Replace(p, cc, ms).Success?
    ensures var rs := Replace(p, cc, ms).value.results;
            forall j :: 0 <= j < |rs| ==>
              && rs[j].source == p.source
              && rs[j].resultKey == KeyOf(p.buildResultKey, j)
              && rs[j].metadata.Keys == p.metadata.Keys + {"match", "searchIndex"}
              && (forall key :: key in p.metadata ==> rs[j].metadata[key] == p.metadata[key])
              && ("searchIndex" !in p.metadata ==> rs[j].metadata["searchIndex"] == Number(j))
  {
    ReplaceRecords(p, cc, ms);
  }

  /** The two contexts of a record, with the default markers. */
  lemma MarkedContexts(p: Params, o: Occurrence, cased: string, searchIndex: nat)
    requires p.options.filterCtxMatch == Some(MarkRemoved)
    requires p.options.filterCtxReplacement == Some(MarkAdded)
    ensures var r := MakeResult(p, o, cased, searchIndex);
            var shown := MarkRemoved(o.text) + MarkAdded(cased);
            && r.context == CtxBefore(p.source, o.Start(), p.options.ctxLen) + shown + CtxAfter(p.source, o.End(), p.options.ctxLen)
            && r.extContext == ExtBefore(p.source, o.Start()) + shown + ExtAfter(p.source, o.End())
  {
    assert ApplyFilter(p.options.filterCtxMatch, o.text) == MarkRemoved(o.text);
    assert ApplyFilter(p.options.filterCtxReplacement, cased) == MarkAdded(cased);
  }

  /** The context of a record is the window before the match, the filtered
      match, the filtered cased replacement and the window after it. */
  lemma ResultContexts(p: Params, o: Occurrence, cased: string, searchIndex: nat)
    requires o.End() <= |p.source|
    requires p.options.ctxLen >= 0
    requires p.options.filterCtxMatch == Some(MarkRemoved)
    requires p.options.filterCtxReplacement == Some(MarkAdded)
    ensures var r := MakeResult(p, o, cased, searchIndex);
            var n := p.options.ctxLen;
            var line := p.source;
            var shown := "[-" + o.text + "][+" + cased + "]";
            var after := line[o.End()..JsString.Min(o.End() + n, |line|)];
            && (n <= o.Start() ==> r.context == line[o.Start() - n..o.Start()] + shown + after)
            && (o.Start() < n <= |line| ==> r.context == shown + after)
  {
    var n := p.options.ctxLen;
    var line := p.source;
    var shown := MarkRemoved(o.text) + MarkAdded(cased);
    var after := CtxAfter(line, o.End(), n);
    var before := CtxBefore(line, o.Start(), n);
    assert MakeResult(p, o, cased, searchIndex).context == before + shown + after by {
      MarkedContexts(p, o, cased, searchIndex);
    }
    assert shown == "[-" + o.text + "][+" + cased + "]";
    if n <= o.Start() {
      assert before == line[o.Start() - n..o.Start()];
    } else if n <= |line| {
      assert before + shown == shown;
    }
  }

  /** The extended context uses the whole line on either side of the
      match, minus the line's last character. */
  lemma ResultExtendedContext(p: Params, o: Occurrence, cased: string, searchIndex: nat)
    requires o.End() < |p.source|
    requires p.options.filterCtxMatch == Some(MarkRemoved)
    requires p.options.filterCtxReplacement == Some(MarkAdded)
    ensures var line := p.source;
            MakeResult(p, o, cased, searchIndex).extContext + [line[|line| - 1]]
              == line[..o.Start()] + "[-" + o.text + "][+" + cased + "]" + line[o.End()..]
  {
    var line := p.source;
    var shown := MarkRemoved(o.text) + MarkAdded(cased);
    var ext := ExtAfter(line, o.End());
    MarkedContexts(p, o, cased, searchIndex);
    assert MakeResult(p, o, cased, searchIndex).extContext == ExtBefore(line, o.Start()) + shown + ext;
    assert shown == "[-" + o.text + "][+" + cased + "]";
    assert ext + [line[|line| - 1]] == line[o.End()..];
  }

  // ----------------------------------------------------------- whole calls

  /** A target that is neither a string nor a RegExp throws before any
      scanning, in both modes. */
  lemma UnsupportedTargetFails(p: Params, cc: CharClasses, matcher: Matcher)
    requires ValidMatcher(matcher)
    requires p.target.Unsupported?
    ensures Findr(p, cc, matcher) == Failure(InvalidTargetType)
    ensures Snr(p, cc, matcher) == Failure(InvalidTargetType)
  {
  }

  /** In literal mode the compiled source unescapes to the target text, the
      flags are exactly the defaults, and the literal matcher therefore
      looks for that text. */
  lemma LiteralModeCompiles(t: string, options: Options, wordLike: Boundary)
    requires !options.isRegex
    ensures Compile(Target.Text(t), options, wordLike).Success?
    ensures var c := Compile(Target.Text(t), options, wordLike).value;
            && Unescape(c.source) == t
            && c.flags == FindrDefaultFlags(options.isCaseMatched)
            && ('i' in c.flags <==> !options.isCaseMatched)
  {
  }

  /** A successful call with nothing selected returns its source
      unchanged, whichever boundary class it uses. */
  lemma PreviewKeepsSource(p: Params, cc: CharClasses, wordLike: Boundary, matcher: Matcher)
    requires ValidMatcher(matcher)
    requires p.selection == Keys([])
    requires Run(p, cc, wordLike, matcher).Success?
    ensures Run(p, cc, wordLike, matcher).value.replaced == p.source
  {
    var c := Compile(p.target, p.options, wordLike).value;
    DefaultSelectionPreviewsAll(p, cc, matcher(c, p.source));
  }

  /** Every record of a successful call names the call's source, carries
      the caller's metadata plus `match` and `searchIndex`, and is keyed by
      `buildResultKey` of its position among the records. */
  lemma RunResultsTagged(p: Params, cc: CharClasses, wordLike: Boundary, matcher: Matcher)
    requires ValidMatcher(matcher)
    requires Run(p, cc, wordLike, matcher).Success?
    ensures var rs := Run(p, cc, wordLike, matcher).value.results;
            forall j :: 0 <= j < |rs| ==>
              && rs[j].source == p.source
              && rs[j].resultKey == KeyOf(p.buildResultKey, j)
              && rs[j].metadata.Keys == p.metadata.Keys + {"match", "searchIndex"}
              && (forall key :: key in p.metadata ==> rs[j].metadata[key] == p.metadata[key])
              && ("searchIndex" !in p.metadata ==> rs[j].metadata["searchIndex"] == Number(j))
  {
    var c := Compile(p.target, p.options, wordLike).value;
    ResultKeysAndIndices(p, cc, matcher(c, p.source));
  }

  /** Outside whole-word mode findr-text's `snr` is `findr`: the two
      differ only in the boundary class. */
  lemma SnrIsFindrWithoutWholeWord(p: Params, cc: CharClasses, matcher: Matcher)
    requires ValidMatcher(matcher)
    requires !p.options.isWordMatched
    ensures Snr(p, cc, matcher) == Findr(p, cc, matcher)
  {
    assert Compile(p.target, p.options, SnrWordLike(cc)) == Compile(p.target, p.options, UtilsWordLike(cc));
  }

  /** Whole-word matching in findr-text's `snr` on a literal target: the
      consumed prefix is empty at the start of the line or one character
      that is neither a letter nor a number, and the character after the
      match (not consumed) is neither a letter nor a number. */
  lemma SnrWholeWord(p: Params, cc: CharClasses, t: string)
    requires p.target == Target.Text(t) && |t| > 0
    requires !p.options.isRegex && p.options.isWordMatched
    ensures var c := Compile(p.target, p.options, SnrWordLike(cc)).value;
            var ms := LiteralMatcher(cc)(c, p.source);
            forall k :: 0 <= k < |ms| ==>
              && ((ms[k].offset == 0 && ms[k].aux == [])
                  || (|ms[k].aux| == 1 && !cc.isLetter(ms[k].aux[0]) && !cc.isNumber(ms[k].aux[0])))
              && (ms[k].End() == |p.source|
                  || (!cc.isLetter(p.source[ms[k].End()]) && !cc.isNumber(p.source[ms[k].End()])))
  {
    var c := Compile(p.target, p.options, SnrWordLike(cc)).value;
    var fold := if 'i' in c.flags then cc.toUpper else Identity;
    var w := SnrWordLike(cc);
    assert c.boundary == Some(w) && Unescape(c.source) == t;
    LiteralMatcherScans(cc, c, t, p.source);
    ScanRespectsBoundary(p.source, 0, t, w, fold);
  }
}
