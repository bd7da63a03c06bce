/** `findrMultiLine` (findr-text/src/multiline.ts) and `snrMultiLine`
    (findr-text/src/snr.ts): split the document on `\n`, run the one-line
    engine on each line with its 1-based line number in the metadata and a
    key builder offset by a running count, and rejoin the outputs. */
module MultiLine {
  import opened Wrappers
  import opened Errors
  import opened Unicode
  import opened Pattern
  import opened Matching
  import opened Engine
  import opened JsString
  import opened FindrText

  /** The arguments of the multi-line entry points; a caller key builder
      receives `(index, lineNumber)`. */
  datatype MultiParams = MultiParams(
    source: string,
    target: Target,
    replacement: Replacement,
    selection: Selection,
    metadata: Metadata,
    options: Options,
    buildResultKey: Option<(nat, nat) -> Key>)

  /** What the running key offset counts. The source counts the records of
      earlier lines; `PreviousMatches` counts their matches instead. */
  datatype KeyBase = PreviousResults | PreviousMatches

  /** The per-line key builder: the caller's, told the line number, or the
      running offset plus the index. */
  function LineKeys(bk: Option<(nat, nat) -> Key>, lineNumber: nat, before: nat): nat -> Key {
    match bk
    case Some(f) => (i: nat) => f(i, lineNumber)
    case None => (i: nat) => Num(before + i)
  }

  /** The one-line call made for a line: same target, replacement,
      selection and options, the line as source, `lineNumber` added to (and
      overriding) the caller's metadata. */
  function LineParams(mp: MultiParams, line: string, lineNumber: nat, before: nat): Params {
    Params(line, mp.target, mp.replacement, mp.selection,
           mp.metadata["lineNumber" := Number(lineNumber)], mp.options,
           Some(LineKeys(mp.buildResultKey, lineNumber, before)))
  }

  /** The one-line call the loop makes on each line. */
  type LineEngine = Params -> Result<Output<FindrResult>, Error>

  /** `findr` (or findr-text's `snr`) with the given boundary class. */
  function EngineOf(cc: CharClasses, wordLike: Boundary, matcher: Matcher): LineEngine
    requires ValidMatcher(matcher)
  {
    (p: Params) => Run(p, cc, wordLike, matcher)
  }

  /** How many matches the one-line call finds on a line; it depends on
      neither the selection nor the key builder. */
  function MatchCountOf(mp: MultiParams, wordLike: Boundary, matcher: Matcher): string -> nat
    requires ValidMatcher(matcher)
  {
    (line: string) =>
      match Compile(mp.target, mp.options, wordLike)
      case Success(c) => |matcher(c, line)|
      case Failure(_) => 0
  }

  /** The accumulated output after some lines. */
  datatype Lines = Lines(results: seq<FindrResult>, replaced: seq<string>, matches: nat)

  /** The running offset for the next line. */
  function Before(st: Lines, base: KeyBase): nat {
    if base.PreviousResults? then |st.results| else st.matches
  }

  /** The `forEach` over the lines, as a left fold; a throw on any line
      aborts the call. */
  function RunLines(mp: MultiParams, engine: LineEngine, count: string -> nat,
                    lines: seq<string>, base: KeyBase): (r: Result<Lines, Error>)
    ensures r.Success? ==> |r.value.replaced| == |lines|
    decreases |lines|
  {
    if |lines| == 0 then Success(Lines([], [], 0))
    else
      var n := |lines|;
      var acc :- RunLines(mp, engine, count, lines[..n - 1], base);
      var out :- engine(LineParams(mp, lines[n - 1], n, Before(acc, base)));
      Success(Lines(acc.results + out.results, acc.replaced + [out.replaced], acc.matches + count(lines[n - 1])))
  }

  function MultiLineWith(mp: MultiParams, cc: CharClasses, wordLike: Boundary, matcher: Matcher,
                         base: KeyBase): Result<Output<FindrResult>, Error>
    requires ValidMatcher(matcher)
  {
    var st :- RunLines(mp, EngineOf(cc, wordLike, matcher), MatchCountOf(mp, wordLike, matcher),
                       Split(mp.source, '\n'), base);
    Success(Output(st.results, Join(st.replaced, '\n')))
  }

  /** `findrMultiLine`, as written. */
  function FindrMultiLine(mp: MultiParams, cc: CharClasses, matcher: Matcher): Result<Output<FindrResult>, Error>
    requires ValidMatcher(matcher)
  {
    MultiLineWith(mp, cc, UtilsWordLike(cc), matcher, PreviousResults)
  }

  /** `snrMultiLine`, as written: the same loop around findr-text's `snr`. */
  function SnrMultiLine(mp: MultiParams, cc: CharClasses, matcher: Matcher): Result<Output<FindrResult>, Error>
    requires ValidMatcher(matcher)
  {
    MultiLineWith(mp, cc, SnrWordLike(cc), matcher, PreviousResults)
  }

  /** `findrMultiLine` with the default key offset counting the matches of
      earlier lines, so that a key from a preview selects the same match
      whatever else is selected. */
  function FindrMultiLineByMatches(mp: MultiParams, cc: CharClasses, matcher: Matcher): Result<Output<FindrResult>, Error>
    requires ValidMatcher(matcher)
  {
    MultiLineWith(mp, cc, UtilsWordLike(cc), matcher, PreviousMatches)
  }

  // ------------------------------------------- what the loop needs of a line

  /** A preview leaves the line alone. */
  ghost predicate PreviewKeeps(engine: LineEngine) {
    forall p: Params :: p.selection == Keys([]) && engine(p).Success? ==> engine(p).value.replaced == p.source
  }

  /** Records name the call's source, keep the caller's metadata and are
      keyed by the builder applied to their position. */
  ghost predicate Tags(engine: LineEngine) {
    forall p: Params :: engine(p).Success? ==>
      var rs := engine(p).value.results;
      forall j :: 0 <= j < |rs| ==>
        && rs[j].source == p.source
        && rs[j].resultKey == KeyOf(p.buildResultKey, j)
        && (forall key :: key in p.metadata ==> key in rs[j].metadata && rs[j].metadata[key] == p.metadata[key])
        && ("searchIndex" !in p.metadata ==> "searchIndex" in rs[j].metadata && rs[j].metadata["searchIndex"] == Number(j))
  }

  /** A preview records every match that `count` counts. */
  ghost predicate PreviewCounts(mp: MultiParams, engine: LineEngine, count: string -> nat) {
    forall line, n, before ::
      mp.selection == Keys([]) && engine(LineParams(mp, line, n, before)).Success? ==>
        |engine(LineParams(mp, line, n, before)).value.results| == count(line)
  }

  /** `findr` and `snr` have all three. */
  lemma EngineFacts(mp: MultiParams, cc: CharClasses, wordLike: Boundary, matcher: Matcher)
    requires ValidMatcher(matcher)
    ensures PreviewKeeps(EngineOf(cc, wordLike, matcher))
    ensures Tags(EngineOf(cc, wordLike, matcher))
    ensures PreviewCounts(mp, EngineOf(cc, wordLike, matcher), MatchCountOf(mp, wordLike, matcher))
  {
    var engine := EngineOf(cc, wordLike, matcher);
    forall p: Params | p.selection == Keys([]) && engine(p).Success?
      ensures engine(p).value.replaced == p.source
    {
      PreviewKeepsSource(p, cc, wordLike, matcher);
    }
    forall p: Params | engine(p).Success?
      ensures var rs := engine(p).value.results;
              forall j :: 0 <= j < |rs| ==>
                && rs[j].source == p.source
                && rs[j].resultKey == KeyOf(p.buildResultKey, j)
                && (forall key :: key in p.metadata ==> key in rs[j].metadata && rs[j].metadata[key] == p.metadata[key])
                && ("searchIndex" !in p.metadata ==> "searchIndex" in rs[j].metadata && rs[j].metadata["searchIndex"] == Number(j))
    {
      RunResultsTagged(p, cc, wordLike, matcher);
    }
    forall line, n, before | mp.selection == Keys([]) && engine(LineParams(mp, line, n, before)).Success?
      ensures |engine(LineParams(mp, line, n, before)).value.results| == MatchCountOf(mp, wordLike, matcher)(line)
    {
      var p := LineParams(mp, line, n, before);
      var c := Compile(p.target, p.options, wordLike).value;
      NothingSelectedRecordsAll(p, cc, matcher(c, p.source));
    }
  }

  // --------------------------------------------------------------- lines

  /** Each line's output is the one-line call on that line alone, with line
      number `i + 1` and the running offset of the lines before it. */
  lemma {:induction false} RunLinesPerLine(mp: MultiParams, engine: LineEngine, count: string -> nat,
                                           lines: seq<string>, base: KeyBase)
    requires RunLines(mp, engine, count, lines, base).Success?
    ensures forall i :: 0 <= i < |lines| ==>
              && RunLines(mp, engine, count, lines[..i], base).Success?
              && var before := Before(RunLines(mp, engine, count, lines[..i], base).value, base);
                 && engine(LineParams(mp, lines[i], i + 1, before)).Success?
                 && RunLines(mp, engine, count, lines, base).value.replaced[i]
                      == engine(LineParams(mp, lines[i], i + 1, before)).value.replaced
    decreases |lines|
  {
    if |lines| > 0 {
      var n := |lines|;
      var init := lines[..n - 1];
      RunLinesPerLine(mp, engine, count, init, base);
      var st := RunLines(mp, engine, count, lines, base).value;
      var acc := RunLines(mp, engine, count, init, base).value;
      assert st.replaced == acc.replaced + [engine(LineParams(mp, lines[n - 1], n, Before(acc, base))).value.replaced];
      forall i | 0 <= i < n
        ensures RunLines(mp, engine, count, lines[..i], base).Success?
        ensures var before := Before(RunLines(mp, engine, count, lines[..i], base).value, base);
                && engine(LineParams(mp, lines[i], i + 1, before)).Success?
                && st.replaced[i] == engine(LineParams(mp, lines[i], i + 1, before)).value.replaced
      {
        if i < n - 1 {
          assert init[..i] == lines[..i] && init[i] == lines[i];
          assert st.replaced[i] == acc.replaced[i];
        } else {
          assert lines[..i] == init;
        }
      }
    }
  }

  /** One step of the loop: the records after a line are the records
      before it followed by that line's call's own records. */
  lemma RecordsStep(mp: MultiParams, engine: LineEngine, count: string -> nat,
                    lines: seq<string>, base: KeyBase)
    requires |lines| > 0 && RunLines(mp, engine, count, lines, base).Success?
    ensures RunLines(mp, engine, count, lines[..|lines| - 1], base).Success?
    ensures var acc := RunLines(mp, engine, count, lines[..|lines| - 1], base).value;
            var out := engine(LineParams(mp, lines[|lines| - 1], |lines|, Before(acc, base)));
            && out.Success?
            && RunLines(mp, engine, count, lines, base).value.results == acc.results + out.value.results
  {
  }

  /** Line `i` appends exactly the records of its own call (line number
      `i + 1`, the running offset of the lines before it) to the records of
      the lines before it. */
  ghost predicate AppendsLine(mp: MultiParams, engine: LineEngine, count: string -> nat,
                              lines: seq<string>, base: KeyBase, i: nat)
    requires i < |lines|
  {
    && RunLines(mp, engine, count, lines[..i], base).Success?
    && RunLines(mp, engine, count, lines[..i + 1], base).Success?
    && var acc := RunLines(mp, engine, count, lines[..i], base).value;
       var out := engine(LineParams(mp, lines[i], i + 1, Before(acc, base)));
       && out.Success?
       && RunLines(mp, engine, count, lines[..i + 1], base).value.results == acc.results + out.value.results
  }

  /** The records are the per-line calls' records joined end to end: none
      before the first line, and each line appends its own call's records. */
  lemma RecordsConcatenated(mp: MultiParams, engine: LineEngine, count: string -> nat,
                            lines: seq<string>, base: KeyBase)
    requires RunLines(mp, engine, count, lines, base).Success?
    ensures RunLines(mp, engine, count, lines[..0], base) == Success(Lines([], [], 0))
    ensures forall i :: 0 <= i < |lines| ==> AppendsLine(mp, engine, count, lines, base, i)
  {
    RunLinesPerLine(mp, engine, count, lines, base);
    forall i | 0 <= i < |lines|
      ensures AppendsLine(mp, engine, count, lines, base, i)
    {
      PrefixStep(mp, engine, count, lines, base, i);
    }
  }

  lemma PrefixStep(mp: MultiParams, engine: LineEngine, count: string -> nat,
                   lines: seq<string>, base: KeyBase, i: nat)
    requires i < |lines| && RunLines(mp, engine, count, lines, base).Success?
    requires i + 1 < |lines| ==> RunLines(mp, engine, count, lines[..i + 1], base).Success?
    ensures AppendsLine(mp, engine, count, lines, base, i)
  {
    var pre := lines[..i + 1];
    if i + 1 == |lines| {
      assert pre == lines;
    }
    RecordsStep(mp, engine, count, pre, base);
    assert pre[..i] == lines[..i] && pre[i] == lines[i];
  }

  /** With nothing selected, every line comes back unchanged. */
  lemma {:induction false} PreviewKeepsLines(mp: MultiParams, engine: LineEngine, count: string -> nat,
                                             lines: seq<string>, base: KeyBase)
    requires PreviewKeeps(engine)
    requires mp.selection == Keys([])
    requires RunLines(mp, engine, count, lines, base).Success?
    ensures RunLines(mp, engine, count, lines, base).value.replaced == lines
    decreases |lines|
  {
    if |lines| > 0 {
      var n := |lines|;
      PreviewKeepsLines(mp, engine, count, lines[..n - 1], base);
      assert lines == lines[..n - 1] + [lines[n - 1]];
    }
  }

  /** With nothing selected, a multi-line call returns its document
      unchanged. */
  lemma MultiLinePreviewKeepsSource(mp: MultiParams, cc: CharClasses, wordLike: Boundary, matcher: Matcher, base: KeyBase)
    requires ValidMatcher(matcher)
    requires mp.selection == Keys([])
    requires MultiLineWith(mp, cc, wordLike, matcher, base).Success?
    ensures MultiLineWith(mp, cc, wordLike, matcher, base).value.replaced == mp.source
  {
    EngineFacts(mp, cc, wordLike, matcher);
    PreviewKeepsLines(mp, EngineOf(cc, wordLike, matcher), MatchCountOf(mp, wordLike, matcher),
                      Split(mp.source, '\n'), base);
    JoinSplit(mp.source, '\n');
  }

  /** One output line per input line: as long as no line's output contains
      a `\n`, splitting the rejoined output gives back the per-line
      outputs, as many as the document has lines. */
  lemma LinesRejoin(mp: MultiParams, engine: LineEngine, count: string -> nat, base: KeyBase)
    requires RunLines(mp, engine, count, Split(mp.source, '\n'), base).Success?
    requires var outs := RunLines(mp, engine, count, Split(mp.source, '\n'), base).value.replaced;
             forall i :: 0 <= i < |outs| ==> '\n' !in outs[i]
    ensures var outs := RunLines(mp, engine, count, Split(mp.source, '\n'), base).value.replaced;
            && |outs| == |Split(mp.source, '\n')|
            && Split(Join(outs, '\n'), '\n') == outs
  {
    var outs := RunLines(mp, engine, count, Split(mp.source, '\n'), base).value.replaced;
    SplitJoin(outs, '\n');
  }

  // ------------------------------------------------------------- records

  /** The number stored under a metadata key, or 0. */
  function NumberAt(m: Metadata, key: string): nat {
    if key in m && m[key].Number? && m[key].n >= 0 then m[key].n else 0
  }

  function LineOf(r: FindrResult): nat {
    NumberAt(r.metadata, "lineNumber")
  }

  /** Every record names a line of the document as its source, carries that
      line's number (over any caller `lineNumber`) and the rest of the
      caller's metadata. */
  ghost predicate FromLines(mp: MultiParams, lines: seq<string>, rs: seq<FindrResult>) {
    forall j :: 0 <= j < |rs| ==>
      && 1 <= LineOf(rs[j]) <= |lines|
      && rs[j].source == lines[LineOf(rs[j]) - 1]
      && "lineNumber" in rs[j].metadata && rs[j].metadata["lineNumber"] == Number(LineOf(rs[j]))
      && (forall key :: key in mp.metadata && key != "lineNumber" ==> key in rs[j].metadata && rs[j].metadata[key] == mp.metadata[key])
  }

  /** Records come in line order. */
  ghost predicate InLineOrder(rs: seq<FindrResult>) {
    forall i, j :: 0 <= i < j < |rs| ==> LineOf(rs[i]) <= LineOf(rs[j])
  }

  /** Keys from a caller's builder are built from the record's own
      `searchIndex` and line number. */
  ghost predicate CallerKeyed(mp: MultiParams, rs: seq<FindrResult>) {
    mp.buildResultKey.Some? && "searchIndex" !in mp.metadata ==>
      forall j :: 0 <= j < |rs| ==>
        rs[j].resultKey == mp.buildResultKey.value(NumberAt(rs[j].metadata, "searchIndex"), LineOf(rs[j]))
  }

  /** The records of the call on the last line are all from that line. */
  lemma LineRecords(mp: MultiParams, engine: LineEngine, lines: seq<string>, before: nat)
    requires Tags(engine) && |lines| > 0
    requires engine(LineParams(mp, lines[|lines| - 1], |lines|, before)).Success?
    ensures var rs := engine(LineParams(mp, lines[|lines| - 1], |lines|, before)).value.results;
            && FromLines(mp, lines, rs)
            && (forall j :: 0 <= j < |rs| ==> LineOf(rs[j]) == |lines|)
            && CallerKeyed(mp, rs)
            && (mp.buildResultKey.None? ==> forall j :: 0 <= j < |rs| ==> rs[j].resultKey == Num(before + j))
  {
    var p := LineParams(mp, lines[|lines| - 1], |lines|, before);
    var rs := engine(p).value.results;
    forall j | 0 <= j < |rs|
      ensures LineOf(rs[j]) == |lines|
    {
      assert "lineNumber" in p.metadata;
    }
  }

  /** Records of the earlier lines stay records of the longer document. */
  lemma FromLinesExtend(mp: MultiParams, lines: seq<string>, rs: seq<FindrResult>)
    requires |lines| > 0 && FromLines(mp, lines[..|lines| - 1], rs)
    ensures FromLines(mp, lines, rs)
    ensures forall j :: 0 <= j < |rs| ==> LineOf(rs[j]) < |lines|
  {
    forall j | 0 <= j < |rs|
      ensures lines[..|lines| - 1][LineOf(rs[j]) - 1] == lines[LineOf(rs[j]) - 1]
    {
    }
  }

  lemma FromLinesConcat(mp: MultiParams, lines: seq<string>, a: seq<FindrResult>, b: seq<FindrResult>)
    requires FromLines(mp, lines, a) && FromLines(mp, lines, b)
    ensures FromLines(mp, lines, a + b)
  {
    forall j | 0 <= j < |a + b|
      ensures (a + b)[j] == if j < |a| then a[j] else b[j - |a|]
    {
    }
  }

  lemma InLineOrderConcat(a: seq<FindrResult>, b: seq<FindrResult>, n: nat)
    requires InLineOrder(a) && forall j :: 0 <= j < |a| ==> LineOf(a[j]) <= n
    requires forall j :: 0 <= j < |b| ==> LineOf(b[j]) == n
    ensures InLineOrder(a + b)
  {
    var rs := a + b;
    forall i, j | 0 <= i < j < |rs|
      ensures LineOf(rs[i]) <= LineOf(rs[j])
    {
      if j >= |a| {
        assert rs[j] == b[j - |a|];
        if i < |a| {
          assert rs[i] == a[i];
        } else {
          assert rs[i] == b[i - |a|];
        }
      } else {
        assert rs[i] == a[i] && rs[j] == a[j];
      }
    }
  }

  /** Every record of the fold comes from a line of the document and is
      tagged with it. */
  lemma {:induction false} RecordsFromLines(mp: MultiParams, engine: LineEngine, count: string -> nat,
                                            lines: seq<string>, base: KeyBase)
    requires Tags(engine)
    requires RunLines(mp, engine, count, lines, base).Success?
    ensures FromLines(mp, lines, RunLines(mp, engine, count, lines, base).value.results)
    decreases |lines|
  {
    if |lines| > 0 {
      var n := |lines|;
      RecordsFromLines(mp, engine, count, lines[..n - 1], base);
      var acc := RunLines(mp, engine, count, lines[..n - 1], base).value;
      var before := Before(acc, base);
      LineRecords(mp, engine, lines, before);
      var out := engine(LineParams(mp, lines[n - 1], n, before)).value;
      FromLinesExtend(mp, lines, acc.results);
      FromLinesConcat(mp, lines, acc.results, out.results);
    }
  }

  /** The fold's records come in line order. */
  lemma {:induction false} RecordsInLineOrder(mp: MultiParams, engine: LineEngine, count: string -> nat,
                                              lines: seq<string>, base: KeyBase)
    requires Tags(engine)
    requires RunLines(mp, engine, count, lines, base).Success?
    ensures InLineOrder(RunLines(mp, engine, count, lines, base).value.results)
    decreases |lines|
  {
    if |lines| > 0 {
      var n := |lines|;
      RecordsInLineOrder(mp, engine, count, lines[..n - 1], base);
      RecordsFromLines(mp, engine, count, lines[..n - 1], base);
      var acc := RunLines(mp, engine, count, lines[..n - 1], base).value;
      var before := Before(acc, base);
      LineRecords(mp, engine, lines, before);
      var out := engine(LineParams(mp, lines[n - 1], n, before)).value;
      FromLinesExtend(mp, lines, acc.results);
      InLineOrderConcat(acc.results, out.results, n);
    }
  }

  lemma CallerKeyedConcat(mp: MultiParams, a: seq<FindrResult>, b: seq<FindrResult>)
    requires CallerKeyed(mp, a) && CallerKeyed(mp, b)
    ensures CallerKeyed(mp, a + b)
  {
    if mp.buildResultKey.Some? && "searchIndex" !in mp.metadata {
      forall j | 0 <= j < |a + b|
        ensures (a + b)[j] == if j < |a| then a[j] else b[j - |a|]
      {
      }
    }
  }

  /** The fold's records are keyed by the caller's builder from their own
      `searchIndex` and line number. */
  lemma {:induction false} RecordsCallerKeyed(mp: MultiParams, engine: LineEngine, count: string -> nat,
                                              lines: seq<string>, base: KeyBase)
    requires Tags(engine)
    requires RunLines(mp, engine, count, lines, base).Success?
    ensures CallerKeyed(mp, RunLines(mp, engine, count, lines, base).value.results)
    decreases |lines|
  {
    if |lines| > 0 {
      var n := |lines|;
      RecordsCallerKeyed(mp, engine, count, lines[..n - 1], base);
      var acc := RunLines(mp, engine, count, lines[..n - 1], base).value;
      var before := Before(acc, base);
      LineRecords(mp, engine, lines, before);
      var out := engine(LineParams(mp, lines[n - 1], n, before)).value;
      assert RunLines(mp, engine, count, lines, base).value.results == acc.results + out.results;
      CallerKeyedConcat(mp, acc.results, out.results);
    }
  }

  /** Records keyed `Num(start)`, `Num(start + 1)`, ... */
  ghost predicate KeyedFrom(rs: seq<FindrResult>, start: nat) {
    forall j :: 0 <= j < |rs| ==> rs[j].resultKey == Num(start + j)
  }

  lemma KeyedFromConcat(a: seq<FindrResult>, b: seq<FindrResult>)
    requires KeyedFrom(a, 0) && KeyedFrom(b, |a|)
    ensures KeyedFrom(a + b, 0)
  {
    forall j | 0 <= j < |a + b|
      ensures (a + b)[j] == if j < |a| then a[j] else b[j - |a|]
    {
    }
  }

  /** With the source's default keys, the fold's records are keyed 0, 1,
      2, ... across the document, whatever is selected. */
  lemma {:induction false} RecordsKeyedInOrder(mp: MultiParams, engine: LineEngine, count: string -> nat,
                                               lines: seq<string>)
    requires Tags(engine) && mp.buildResultKey.None?
    requires RunLines(mp, engine, count, lines, PreviousResults).Success?
    ensures var rs := RunLines(mp, engine, count, lines, PreviousResults).value.results;
            forall j :: 0 <= j < |rs| ==> rs[j].resultKey == Num(j)
    decreases |lines|
  {
    if |lines| > 0 {
      var n := |lines|;
      RecordsKeyedInOrder(mp, engine, count, lines[..n - 1]);
      var acc := RunLines(mp, engine, count, lines[..n - 1], PreviousResults).value;
      assert KeyedFrom(acc.results, 0);
      LineRecords(mp, engine, lines, |acc.results|);
      var out := engine(LineParams(mp, lines[n - 1], n, |acc.results|)).value;
      assert KeyedFrom(out.results, |acc.results|);
      assert RunLines(mp, engine, count, lines, PreviousResults).value.results == acc.results + out.results;
      KeyedFromConcat(acc.results, out.results);
    }
  }

  /** The records of a multi-line call: each from one line and tagged with
      it, in line order; with the default keys of the source they are keyed
      0, 1, 2, ... across the whole document, whatever is selected. */
  lemma MultiLineRecords(mp: MultiParams, cc: CharClasses, wordLike: Boundary, matcher: Matcher, base: KeyBase)
    requires ValidMatcher(matcher)
    requires MultiLineWith(mp, cc, wordLike, matcher, base).Success?
    ensures var rs := MultiLineWith(mp, cc, wordLike, matcher, base).value.results;
            && FromLines(mp, Split(mp.source, '\n'), rs)
            && InLineOrder(rs)
            && CallerKeyed(mp, rs)
            && (mp.buildResultKey.None? && base.PreviousResults? ==>
                  forall j :: 0 <= j < |rs| ==> rs[j].resultKey == Num(j))
  {
    EngineFacts(mp, cc, wordLike, matcher);
    var engine := EngineOf(cc, wordLike, matcher);
    var count := MatchCountOf(mp, wordLike, matcher);
    var lines := Split(mp.source, '\n');
    RecordsFromLines(mp, engine, count, lines, base);
    RecordsInLineOrder(mp, engine, count, lines, base);
    RecordsCallerKeyed(mp, engine, count, lines, base);
    if mp.buildResultKey.None? && base.PreviousResults? {
      RecordsKeyedInOrder(mp, engine, count, lines);
    }
  }

  /** Two loops whose one-line calls and match counts agree on every line
      produce the same result. */
  lemma {:induction false} RunLinesAgree(mp: MultiParams, e1: LineEngine, e2: LineEngine,
                                         c1: string -> nat, c2: string -> nat,
                                         lines: seq<string>, base: KeyBase)
    requires forall line, n, before :: e1(LineParams(mp, line, n, before)) == e2(LineParams(mp, line, n, before))
    requires forall line :: c1(line) == c2(line)
    ensures RunLines(mp, e1, c1, lines, base) == RunLines(mp, e2, c2, lines, base)
    decreases |lines|
  {
    if |lines| > 0 {
      RunLinesAgree(mp, e1, e2, c1, c2, lines[..|lines| - 1], base);
    }
  }

  /** Outside whole-word mode `snrMultiLine` is `findrMultiLine`. */
  lemma SnrMultiLineIsFindrMultiLine(mp: MultiParams, cc: CharClasses, matcher: Matcher)
    requires ValidMatcher(matcher)
    requires !mp.options.isWordMatched
    ensures SnrMultiLine(mp, cc, matcher) == FindrMultiLine(mp, cc, matcher)
  {
    var s, u := SnrWordLike(cc), UtilsWordLike(cc);
    assert Compile(mp.target, mp.options, s) == Compile(mp.target, mp.options, u);
    forall line, n, before
      ensures EngineOf(cc, s, matcher)(LineParams(mp, line, n, before))
                == EngineOf(cc, u, matcher)(LineParams(mp, line, n, before))
    {
      SnrIsFindrWithoutWholeWord(LineParams(mp, line, n, before), cc, matcher);
    }
    RunLinesAgree(mp, EngineOf(cc, s, matcher), EngineOf(cc, u, matcher),
                  MatchCountOf(mp, s, matcher), MatchCountOf(mp, u, matcher), Split(mp.source, '\n'), PreviousResults);
  }

  // ------------------------------------------------------ the key offset

  function Sum(s: seq<nat>): nat {
    if |s| == 0 then 0 else Sum(s[..|s| - 1]) + s[|s| - 1]
  }

  /** The match counts of the lines. */
  function Counts(count: string -> nat, lines: seq<string>): (cs: seq<nat>)
    ensures |cs| == |lines| && forall i :: 0 <= i < |lines| ==> cs[i] == count(lines[i])
  {
    seq(|lines|, i requires 0 <= i < |lines| => count(lines[i]))
  }

  /** The fold's match counter is the total match count of the lines,
      whatever is selected. */
  lemma {:induction false} MatchesCounted(mp: MultiParams, engine: LineEngine, count: string -> nat,
                                          lines: seq<string>, base: KeyBase)
    requires RunLines(mp, engine, count, lines, base).Success?
    ensures RunLines(mp, engine, count, lines, base).value.matches == Sum(Counts(count, lines))
    decreases |lines|
  {
    if |lines| > 0 {
      var n := |lines|;
      MatchesCounted(mp, engine, count, lines[..n - 1], base);
      assert Counts(count, lines)[..n - 1] == Counts(count, lines[..n - 1]);
    }
  }

  /** With the offset counting earlier matches, line `i` numbers its
      matches from the total match count of the lines before it: a
      match's default key is its index among all matches of the document,
      whatever is selected. */
  lemma ByMatchesOffset(mp: MultiParams, cc: CharClasses, matcher: Matcher)
    requires ValidMatcher(matcher)
    requires FindrMultiLineByMatches(mp, cc, matcher).Success?
    ensures var engine := EngineOf(cc, UtilsWordLike(cc), matcher);
            var count := MatchCountOf(mp, UtilsWordLike(cc), matcher);
            var lines := Split(mp.source, '\n');
            forall i :: 0 <= i < |lines| ==>
              && RunLines(mp, engine, count, lines[..i], PreviousMatches).Success?
              && Before(RunLines(mp, engine, count, lines[..i], PreviousMatches).value, PreviousMatches)
                   == Sum(Counts(count, lines[..i]))
  {
    var engine := EngineOf(cc, UtilsWordLike(cc), matcher);
    var count := MatchCountOf(mp, UtilsWordLike(cc), matcher);
    var lines := Split(mp.source, '\n');
    RunLinesPerLine(mp, engine, count, lines, PreviousMatches);
    forall i | 0 <= i < |lines|
      ensures Before(RunLines(mp, engine, count, lines[..i], PreviousMatches).value, PreviousMatches)
                == Sum(Counts(count, lines[..i]))
    {
      MatchesCounted(mp, engine, count, lines[..i], PreviousMatches);
    }
  }

  /** A preview is the same under both offsets: with nothing selected, the
      records of earlier lines are exactly their matches. */
  lemma {:induction false} PreviewSameUnderBothOffsets(mp: MultiParams, engine: LineEngine, count: string -> nat,
                                                       lines: seq<string>)
    requires PreviewCounts(mp, engine, count)
    requires mp.selection == Keys([])
    ensures RunLines(mp, engine, count, lines, PreviousResults) == RunLines(mp, engine, count, lines, PreviousMatches)
    ensures RunLines(mp, engine, count, lines, PreviousMatches).Success? ==>
              |RunLines(mp, engine, count, lines, PreviousMatches).value.results|
                == RunLines(mp, engine, count, lines, PreviousMatches).value.matches
    decreases |lines|
  {
    if |lines| > 0 {
      PreviewSameUnderBothOffsets(mp, engine, count, lines[..|lines| - 1]);
    }
  }

  /** The corrected `findrMultiLine` previews exactly as the source does. */
  lemma ByMatchesPreviewUnchanged(mp: MultiParams, cc: CharClasses, matcher: Matcher)
    requires ValidMatcher(matcher)
    requires mp.selection == Keys([])
    ensures FindrMultiLineByMatches(mp, cc, matcher) == FindrMultiLine(mp, cc, matcher)
  {
    EngineFacts(mp, cc, UtilsWordLike(cc), matcher);
    PreviewSameUnderBothOffsets(mp, EngineOf(cc, UtilsWordLike(cc), matcher),
                                MatchCountOf(mp, UtilsWordLike(cc), matcher), Split(mp.source, '\n'));
  }
}
