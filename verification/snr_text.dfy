/** The older `snr` of the snr-text package (snr-text/src/snr.ts): the
    same scan as `findr` with its own configuration, a first-letter-only
    case rule, `pointers`/`buildPointer` for the selection keys and an
    unfiltered one-string context. */
module SnrText {
  import opened Wrappers
  import opened Errors
  import opened Unicode
  import opened Pattern
  import opened Matching
  import opened Engine
  import opened Context
  import Casing

  /** The caller's `config`: every field optional. */
  datatype SnrConfig = SnrConfig(
    ctxLen: Option<int>,
    isRegex: Option<bool>,
    isCaseSensitive: Option<bool>,
    shouldMatchWord: Option<bool>,
    shouldMatchCase: Option<bool>)

  /** `{...defaultConfig, ...config}` after the merge. */
  datatype Settings = Settings(
    ctxLen: int,
    isRegex: bool,
    isCaseSensitive: bool,
    shouldMatchWord: bool,
    shouldMatchCase: bool)

  function Pick<T>(given: Option<T>, default: T): T {
    if given.Some? then given.value else default
  }

  /** The defaults are a 10-character window and every switch off; a field
      the caller gives wins. */
  function Resolve(config: Option<SnrConfig>): (s: Settings)
    ensures config.None? ==> s == Settings(10, false, false, false, false)
    ensures config.Some? && config.value.ctxLen.Some? ==> s.ctxLen == config.value.ctxLen.value
    ensures config.Some? && config.value.ctxLen.None? ==> s.ctxLen == 10
    ensures config.Some? && config.value.isRegex.Some? ==> s.isRegex == config.value.isRegex.value
    ensures config.Some? && config.value.isCaseSensitive.Some? ==> s.isCaseSensitive == config.value.isCaseSensitive.value
    ensures config.Some? && config.value.shouldMatchWord.Some? ==> s.shouldMatchWord == config.value.shouldMatchWord.value
    ensures config.Some? && config.value.shouldMatchCase.Some? ==> s.shouldMatchCase == config.value.shouldMatchCase.value
    ensures config.Some? && config.value.isRegex.None? ==> !s.isRegex
    ensures config.Some? && config.value.isCaseSensitive.None? ==> !s.isCaseSensitive
    ensures config.Some? && config.value.shouldMatchWord.None? ==> !s.shouldMatchWord
    ensures config.Some? && config.value.shouldMatchCase.None? ==> !s.shouldMatchCase
  {
    match config
    case None => Settings(10, false, false, false, false)
    case Some(c) =>
      Settings(Pick(c.ctxLen, 10), Pick(c.isRegex, false), Pick(c.isCaseSensitive, false),
               Pick(c.shouldMatchWord, false), Pick(c.shouldMatchCase, false))
  }

  /** The arguments of `snr`; a pointer is a key (string or number). */
  datatype SnrParams = SnrParams(
    source: string,
    target: Target,
    replacement: Replacement,
    pointers: Selection,
    metadata: Metadata,
    config: Option<SnrConfig>,
    buildPointer: Option<nat -> Key>)

  /** One preview record. */
  datatype SnrResult = SnrResult(text: string, pointer: Key, metadata: Metadata)

  datatype SnrOutput = SnrOutput(results: seq<SnrResult>, replaced: string)

  /** The default flags as written: `i` is added when `isCaseSensitive`
      holds. */
  function SnrTextDefaultFlags(isCaseSensitive: bool): string {
    if isCaseSensitive then "gi" else "g"
  }

  function Compile(target: Target, s: Settings, cc: CharClasses): (r: Result<Compiled, Error>)
    ensures r.Failure? <==> target.Unsupported?
    ensures r.Success? ==> (r.value.boundary.Some? <==> s.shouldMatchWord)
    ensures r.Success? && s.shouldMatchWord ==> r.value.boundary == Some(SnrTextWordLike(cc))
    ensures r.Success? && target.Text? && !s.isRegex ==> Unescape(r.value.source) == target.text
    ensures s.isRegex && target.RegExp? ==>
              r.Success? && r.value.source == target.source
              && r.value.flags == MergeFlags(Some(target.flags), SnrTextDefaultFlags(s.isCaseSensitive))
    ensures s.isRegex && target.Text? ==>
              r.Success? && r.value.source == ParseSlashes(target.text).source
              && r.value.flags == MergeFlags(ParseSlashes(target.text).flags, SnrTextDefaultFlags(s.isCaseSensitive))
  {
    var data :- if s.isRegex then EvalRegex(target) else EscapeTarget(target);
    Success(PrepareRegExp(data.source, MergeFlags(data.flags, SnrTextDefaultFlags(s.isCaseSensitive)),
                          s.shouldMatchWord, SnrTextWordLike(cc)))
  }

  /** `shouldTransform ? matchCase(rep) : rep`: only a match starting with
      an uppercase letter changes the replacement, and only its first
      character; capitalising an empty replacement throws. */
  function MatchCase(cc: CharClasses, shouldMatchCase: bool, matched: string, rep: string): (r: Result<string, Error>)
    ensures !(shouldMatchCase && Casing.StartsUpper(cc, matched)) ==> r == Success(rep)
    ensures shouldMatchCase && Casing.StartsUpper(cc, matched) ==>
              && (r.Failure? <==> rep == [])
              && (r.Success? ==> |r.value| == |rep| && r.value[0] == cc.toUpper(rep[0]) && r.value[1..] == rep[1..])
  {
    if shouldMatchCase && Casing.StartsUpper(cc, matched) then Casing.CapitaliseFirst(cc, rep) else Success(rep)
  }

  function CasedReplacement(p: SnrParams, cc: CharClasses, o: Occurrence, replaceIndex: nat): Result<string, Error> {
    var r :- ComputeReplacement(p.replacement, replaceIndex, o, p.source);
    MatchCase(cc, Resolve(p.config).shouldMatchCase, o.text, r)
  }

  predicate IsApplied(p: SnrParams, replaceIndex: nat) {
    Selected(p.pointers, KeyOf(p.buildPointer, replaceIndex))
  }

  /** The record: the window before the raw offset, the whole consumed
      span (prefix character included), the cased replacement and the
      window after the span. */
  function MakeResult(p: SnrParams, o: Occurrence, cased: string, searchIndex: nat): SnrResult {
    var n := Resolve(p.config).ctxLen;
    SnrResult(CtxBefore(p.source, o.offset, n) + o.aux + o.text + cased + CtxAfter(p.source, o.End(), n),
              KeyOf(p.buildPointer, searchIndex),
              ResultMetadata(o.text, searchIndex, p.metadata))
  }

  function CasedOf(p: SnrParams, cc: CharClasses): (Occurrence, nat) -> Result<string, Error> {
    (o: Occurrence, i: nat) => CasedReplacement(p, cc, o, i)
  }

  function AppliedOf(p: SnrParams): nat -> bool {
    (i: nat) => IsApplied(p, i)
  }

  function RecordOf(p: SnrParams): (Occurrence, string, nat) -> SnrResult {
    (o: Occurrence, c: string, si: nat) => MakeResult(p, o, c, si)
  }

  function Replace(p: SnrParams, cc: CharClasses, ms: seq<Occurrence>): Result<SnrOutput, Error>
    requires WellFormed(p.source, ms, 0)
  {
    var st :- Fold(ms, CasedOf(p, cc), AppliedOf(p), RecordOf(p));
    Success(SnrOutput(st.records, Splice(p.source, ms, st.pieces, 0)))
  }

  /** `snr` of snr-text. */
  function Snr(p: SnrParams, cc: CharClasses, matcher: Matcher): Result<SnrOutput, Error>
    requires ValidMatcher(matcher)
  {
    var c :- Compile(p.target, Resolve(p.config), cc);
    Replace(p, cc, matcher(c, p.source))
  }

  // --------------------------------------------------------------- lemmas

  /** The flags as written: `i` exactly when `isCaseSensitive` holds or the
      literal syntax carried it, the opposite of `findr`'s rule; always
      global, no duplicates. */
  lemma SnrTextFlags(target: Target, s: Settings, cc: CharClasses)
    requires Compile(target, s, cc).Success?
    ensures var f := Compile(target, s, cc).value.flags;
            && 'g' in f && NoDuplicates(f)
            && (!s.isRegex ==> f == SnrTextDefaultFlags(s.isCaseSensitive))
            && (!s.isRegex ==> ('i' in f <==> s.isCaseSensitive))
  {
    var data := (if s.isRegex then EvalRegex(target) else EscapeTarget(target)).value;
    FlagsMerge(data.flags, s.isCaseSensitive);
  }

  lemma FlagsMerge(extracted: Option<string>, isCaseSensitive: bool)
    ensures var f := MergeFlags(extracted, SnrTextDefaultFlags(isCaseSensitive));
            && 'g' in f && NoDuplicates(f)
            && ('i' in f <==> isCaseSensitive || (extracted.Some? && 'i' in extracted.value))
  {
    var d := SnrTextDefaultFlags(isCaseSensitive);
    assert NoDuplicates(d);
    if extracted.Some? && extracted.value != [] {
      var all := extracted.value + d;
      assert 'g' in all by { assert all[|extracted.value|] == 'g'; }
      if isCaseSensitive {
        assert 'i' in all by { assert all[|extracted.value| + 1] == 'i'; }
      }
      assert 'i' in all ==> isCaseSensitive || 'i' in extracted.value;
    }
  }

  /** There is no all-caps rule: however the match is cased, at most the
      first character of the replacement changes. */
  lemma NoAllCapsRule(cc: CharClasses, shouldMatchCase: bool, matched: string, rep: string)
    requires |rep| > 0
    ensures MatchCase(cc, shouldMatchCase, matched, rep).Success?
    ensures MatchCase(cc, shouldMatchCase, matched, rep).value[1..] == rep[1..]
  {
  }

  lemma ReplaceFails(p: SnrParams, cc: CharClasses, ms: seq<Occurrence>)
    requires WellFormed(p.source, ms, 0)
    ensures Replace(p, cc, ms).Failure? <==>
              exists k :: 0 <= k < |ms| && CasedReplacement(p, cc, ms[k], k).Failure?
  {
    FoldSucceeds(ms, CasedOf(p, cc), AppliedOf(p), RecordOf(p));
  }

  /** A selected match (`"all"` or its pointer listed) becomes its prefix
      and its cased replacement; any other one is left as it was. */
  lemma ReplacePieces(p: SnrParams, cc: CharClasses, ms: seq<Occurrence>)
    requires WellFormed(p.source, ms, 0)
    requires Replace(p, cc, ms).Success?
    ensures forall k :: 0 <= k < |ms| ==> CasedReplacement(p, cc, ms[k], k).Success?
    ensures var st := Fold(ms, CasedOf(p, cc), AppliedOf(p), RecordOf(p)).value;
            && Replace(p, cc, ms).value.replaced == Splice(p.source, ms, st.pieces, 0)
            && |st.pieces| == |ms|
            && (forall k :: 0 <= k < |ms| ==>
                  st.pieces[k] == (if IsApplied(p, k) then ms[k].aux + CasedReplacement(p, cc, ms[k], k).value
                                   else ms[k].aux + ms[k].text))
  {
    FoldSpec(ms, CasedOf(p, cc), AppliedOf(p), RecordOf(p));
  }

  /** The unselected matches get one record each, in match order, the j-th
      built with `searchIndex` j. */
  lemma ReplaceRecords(p: SnrParams, cc: CharClasses, ms: seq<Occurrence>)
    requires WellFormed(p.source, ms, 0)
    requires Replace(p, cc, ms).Success?
    ensures var out := Replace(p, cc, ms).value;
            var u := Unselected(AppliedOf(p), |ms|);
            && |out.results| == |u|
            && (forall j :: 0 <= j < |u| ==>
                  && CasedReplacement(p, cc, ms[u[j]], u[j]).Success?
                  && out.results[j] == MakeResult(p, ms[u[j]], CasedReplacement(p, cc, ms[u[j]], u[j]).value, j))
  {
    FoldSpec(ms, CasedOf(p, cc), AppliedOf(p), RecordOf(p));
  }

  /** A replacement function sees the current `replaceIndex` as `index`
      and `pos + auxMatch.length` as `position`; without `shouldMatchCase`
      its return goes into the output verbatim. */
  lemma ComputedArguments(p: SnrParams, cc: CharClasses, ms: seq<Occurrence>, f: ReplaceArgs -> string)
    requires WellFormed(p.source, ms, 0)
    requires p.pointers == All && p.replacement == Computed(f) && !Resolve(p.config).shouldMatchCase
    ensures Replace(p, cc, ms).Success?
    ensures var st := Fold(ms, CasedOf(p, cc), AppliedOf(p), RecordOf(p)).value;
            && Replace(p, cc, ms).value.replaced == Splice(p.source, ms, st.pieces, 0)
            && forall k :: 0 <= k < |ms| ==>
                 st.pieces[k] == ms[k].aux + f(ReplaceArgs(k, ms[k].text, ms[k].offset + |ms[k].aux|, p.source))
  {
    forall k | 0 <= k < |ms|
      ensures CasedReplacement(p, cc, ms[k], k) == Success(f(ReplaceArgs(k, ms[k].text, ms[k].offset + |ms[k].aux|, p.source)))
    {
    }
    assert Replace(p, cc, ms).Success? by {
      ReplaceFails(p, cc, ms);
    }
    ReplacePieces(p, cc, ms);
    assert forall k :: 0 <= k < |ms| ==> IsApplied(p, k);
  }

  /** Every record is keyed by `buildPointer` of its position among the
      records, which is also its `searchIndex` unless the caller's metadata
      overrides it; the caller's metadata is kept. */
  lemma ResultPointers(p: SnrParams, cc: CharClasses, ms: seq<Occurrence>)
    requires WellFormed(p.source, ms, 0)
    requires Replace(p, cc, ms).Success?
    ensures var rs := Replace(p, cc, ms).value.results;
            forall j :: 0 <= j < |rs| ==>
              && rs[j].pointer == KeyOf(p.buildPointer, j)
              && rs[j].metadata.Keys == p.metadata.Keys + {"match", "searchIndex"}
              && (forall key :: key in p.metadata ==> rs[j].metadata[key] == p.metadata[key])
              && ("searchIndex" !in p.metadata ==> rs[j].metadata["searchIndex"] == Number(j))
  {
    ReplaceRecords(p, cc, ms);
  }

  /** The default empty `pointers` leaves the text alone. */
  lemma NoPointersKeepsSource(p: SnrParams, cc: CharClasses, ms: seq<Occurrence>)
    requires WellFormed(p.source, ms, 0)
    requires p.pointers == Keys([])
    requires Replace(p, cc, ms).Success?
    ensures Replace(p, cc, ms).value.replaced == p.source
  {
    ReplacePieces(p, cc, ms);
    var st := Fold(ms, CasedOf(p, cc), AppliedOf(p), RecordOf(p)).value;
    SpliceOriginals(p.source, ms, st.pieces, 0);
  }

  /** `"all"` records nothing. */
  lemma AllPointersRecordNothing(p: SnrParams, cc: CharClasses, ms: seq<Occurrence>)
    requires WellFormed(p.source, ms, 0)
    requires p.pointers == All
    requires Replace(p, cc, ms).Success?
    ensures Replace(p, cc, ms).value.results == []
  {
    ReplaceRecords(p, cc, ms);
    assert forall k :: 0 <= k < |ms| ==> AppliedOf(p)(k);
    UnselectedNone(AppliedOf(p), |ms|);
  }

  /** With a window that fits on both sides, a record's text is the line
      around the consumed span with the cased replacement inserted right
      after the span. */
  lemma ResultText(p: SnrParams, o: Occurrence, cased: string, searchIndex: nat)
    requires Occurs(p.source, o)
    requires var n := Resolve(p.config).ctxLen;
             0 <= n <= o.offset && o.End() + n <= |p.source|
    ensures var n := Resolve(p.config).ctxLen;
            MakeResult(p, o, cased, searchIndex).text
              == p.source[o.offset - n..o.End()] + cased + p.source[o.End()..o.End() + n]
  {
    var n := Resolve(p.config).ctxLen;
    var s := p.source;
    var before := CtxBefore(s, o.offset, n);
    var after := CtxAfter(s, o.End(), n);
    assert before == s[o.offset - n..o.offset];
    assert after == s[o.End()..o.End() + n];
    assert o.aux + o.text == s[o.offset..o.End()];
    calc {
      MakeResult(p, o, cased, searchIndex).text;
      before + o.aux + o.text + cased + after;
      before + (o.aux + o.text) + cased + after;
      { assert s[o.offset - n..o.End()] == before + s[o.offset..o.End()]; }
      s[o.offset - n..o.End()] + cased + after;
    }
  }

  /** Whole-word mode on a literal target: the consumed prefix is the line
      start or one character that is neither a letter nor a number, but the
      character after the match only has to be a non-letter (a digit may
      follow). */
  lemma WholeWordBoundary(p: SnrParams, cc: CharClasses, t: string)
    requires p.target == Target.Text(t) && |t| > 0
    requires !Resolve(p.config).isRegex && Resolve(p.config).shouldMatchWord
    ensures var c := Compile(p.target, Resolve(p.config), cc).value;
            var ms := LiteralMatcher(cc)(c, p.source);
            forall k :: 0 <= k < |ms| ==>
              && ((ms[k].offset == 0 && ms[k].aux == [])
                  || (|ms[k].aux| == 1 && !cc.isLetter(ms[k].aux[0]) && !cc.isNumber(ms[k].aux[0])))
              && (ms[k].End() == |p.source| || !cc.isLetter(p.source[ms[k].End()]))
  {
    var c := Compile(p.target, Resolve(p.config), cc).value;
    assert c.boundary == Some(SnrTextWordLike(cc)) && Unescape(c.source) == t;
    ScanKeepsWords(cc, c, t, p.source);
  }

  /** The literal scan of any pattern wrapped with snr-text's class. */
  lemma ScanKeepsWords(cc: CharClasses, c: Compiled, t: string, s: string)
    requires c.boundary == Some(SnrTextWordLike(cc)) && Unescape(c.source) == t && |t| > 0
    ensures var ms := LiteralMatcher(cc)(c, s);
            forall k :: 0 <= k < |ms| ==>
              && ((ms[k].offset == 0 && ms[k].aux == [])
                  || (|ms[k].aux| == 1 && !cc.isLetter(ms[k].aux[0]) && !cc.isNumber(ms[k].aux[0])))
              && (ms[k].End() == |s| || !cc.isLetter(s[ms[k].End()]))
  {
    var fold := if 'i' in c.flags then cc.toUpper else Identity;
    LiteralMatcherScans(cc, c, t, s);
    ScanRespectsBoundary(s, 0, t, SnrTextWordLike(cc), fold);
  }
}
