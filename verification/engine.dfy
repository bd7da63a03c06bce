/** The single-pass engine shared by `findr`, findr-text's `snr` and
    snr-text's `snr`: the callback `replace` runs once per match, left to
    right. Each match is either applied (the prefix group plus the cased
    replacement goes into the output, nothing is recorded) or previewed (one
    record is pushed and the match's own text goes back into the output).
    Two counters drive it: `replaceIndex` counts every match and feeds the
    selection key; `searchIndex` counts recorded matches only. */
module Engine {
  import opened Wrappers
  import opened Errors
  import opened Matching

  /** `resultKey`: a string or a number. */
  datatype Key = Num(n: int) | Str(s: string)

  /** `replacementKeys`: the sentinel `"all"` or an explicit list of keys
      (default empty: preview everything). */
  datatype Selection = All | Keys(keys: seq<Key>)

  /** `replacementKeys === "all" || replacementKeys.includes(key)`. */
  predicate Selected(sel: Selection, key: Key) {
    sel.All? || key in sel.keys
  }

  /** `buildResultKey ? buildResultKey(index) : index`. */
  function KeyOf(buildResultKey: Option<nat -> Key>, index: nat): Key {
    if buildResultKey.Some? then buildResultKey.value(index) else Num(index)
  }

  datatype MetaValue = Text(s: string) | Number(n: int)

  type Metadata = map<string, MetaValue>

  /** `{match, searchIndex, ...metadata}`: the caller's entries come last
      and so win over the two built-in ones. */
  function ResultMetadata(matched: string, searchIndex: nat, metadata: Metadata): (m: Metadata)
    ensures "match" in m && "searchIndex" in m
    ensures forall k :: k in metadata ==> k in m && m[k] == metadata[k]
    ensures "match" !in metadata ==> m["match"] == Text(matched)
    ensures "searchIndex" !in metadata ==> m["searchIndex"] == Number(searchIndex)
    ensures m.Keys == metadata.Keys + {"match", "searchIndex"}
  {
    map["match" := Text(matched), "searchIndex" := Number(searchIndex)] + metadata
  }

  /** What a replacement function receives; the capture-group arrays are
      not modelled. */
  datatype ReplaceArgs = ReplaceArgs(index: nat, matched: string, position: nat, source: string)

  /** `replacement`: a string, a function, or some other value (which
      throws when the first match is met). */
  datatype Replacement =
    | Literal(text: string)
    | Computed(f: ReplaceArgs -> string)
    | InvalidReplacement

  /** `replacementCB()`: the function gets the current `replaceIndex` as
      `index` and the true position `tmpPos + auxMatch.length`. */
  function ComputeReplacement(rep: Replacement, replaceIndex: nat, o: Occurrence, line: string)
    : (r: Result<string, Error>)
    ensures r.Failure? <==> rep.InvalidReplacement?
    ensures r.Failure? ==> r.error == InvalidReplacementType
    ensures rep.Literal? ==> r == Success(rep.text)
    ensures rep.Computed? ==> r == Success(rep.f(ReplaceArgs(replaceIndex, o.text, o.offset + |o.aux|, line)))
  {
    match rep
    case Literal(t) => Success(t)
    case Computed(f) => Success(f(ReplaceArgs(replaceIndex, o.text, o.Start(), line)))
    case InvalidReplacement => Failure(InvalidReplacementType)
  }

  // ------------------------------------------------------------ the fold

  /** The outcome for one match. */
  datatype Decision<R> = Applied(text: string) | Previewed(record: R, text: string)

  /** The scan's state after some prefix of the matches. */
  datatype ScanState<R> = ScanState(replaceIndex: nat, searchIndex: nat, records: seq<R>, pieces: seq<string>)

  /** The callback body for one match: compute the cased replacement (which
      may throw), then apply or preview. */
  function Decide<R>(o: Occurrence, replaceIndex: nat, searchIndex: nat,
                     cased: (Occurrence, nat) -> Result<string, Error>,
                     selected: nat -> bool,
                     record: (Occurrence, string, nat) -> R): (r: Result<Decision<R>, Error>)
    ensures r.Success? <==> cased(o, replaceIndex).Success?
    ensures r.Failure? ==> r.error == cased(o, replaceIndex).error
    ensures r.Success? ==> (r.value.Applied? <==> selected(replaceIndex))
    ensures r.Success? && r.value.Applied? ==> r.value.text == o.aux + cased(o, replaceIndex).value
    ensures r.Success? && r.value.Previewed? ==>
              r.value.text == o.aux + o.text
              && r.value.record == record(o, cased(o, replaceIndex).value, searchIndex)
  {
    var c :- cased(o, replaceIndex);
    if selected(replaceIndex) then Success(Applied(o.aux + c))
    else Success(Previewed(record(o, c, searchIndex), o.aux + o.text))
  }

  /** One callback invocation: both counters and the outputs advance. */
  function Step<R>(st: ScanState<R>, o: Occurrence,
                   cased: (Occurrence, nat) -> Result<string, Error>,
                   selected: nat -> bool,
                   record: (Occurrence, string, nat) -> R): Result<ScanState<R>, Error>
  {
    var d :- Decide(o, st.replaceIndex, st.searchIndex, cased, selected, record);
    match d
    case Applied(t) =>
      Success(ScanState(st.replaceIndex + 1, st.searchIndex, st.records, st.pieces + [t]))
    case Previewed(rec, t) =>
      Success(ScanState(st.replaceIndex + 1, st.searchIndex + 1, st.records + [rec], st.pieces + [t]))
  }

  /** The whole scan, as a left fold over the matches; the first throw
      aborts it. */
  function Fold<R>(ms: seq<Occurrence>,
                   cased: (Occurrence, nat) -> Result<string, Error>,
                   selected: nat -> bool,
                   record: (Occurrence, string, nat) -> R): (r: Result<ScanState<R>, Error>)
    ensures r.Success? ==> r.value.replaceIndex == |ms| && |r.value.pieces| == |ms|
    ensures r.Success? ==> r.value.searchIndex == |r.value.records|
    decreases |ms|
  {
    if |ms| == 0 then Success(ScanState(0, 0, [], []))
    else
      var st :- Fold(ms[..|ms| - 1], cased, selected, record);
      Step(st, ms[|ms| - 1], cased, selected, record)
  }

  /** The indices, in match order, of the matches that are not selected:
      the ones that get a record. */
  function Unselected(selected: nat -> bool, n: nat): (u: seq<nat>)
    ensures forall j :: 0 <= j < |u| ==> u[j] < n && !selected(u[j])
    ensures forall j, k :: 0 <= j < k < |u| ==> u[j] < u[k]
    ensures forall k :: 0 <= k < n && !selected(k) ==> k in u
  {
    if n == 0 then []
    else Unselected(selected, n - 1) + (if selected(n - 1) then [] else [n - 1])
  }

  /** When no index is selected, the unselected indices are all of them. */
  lemma {:induction false} UnselectedAll(selected: nat -> bool, n: nat)
    requires forall k :: 0 <= k < n ==> !selected(k)
    ensures |Unselected(selected, n)| == n
    ensures forall j :: 0 <= j < n ==> Unselected(selected, n)[j] == j
  {
    if n > 0 {
      var u := Unselected(selected, n - 1);
      UnselectedAll(selected, n - 1);
      assert !selected(n - 1);
      var v := Unselected(selected, n);
      assert v == u + [n - 1];
      forall j | 0 <= j < n
        ensures v[j] == j
      {
        if j < n - 1 {
          assert v[j] == u[j];
        }
      }
    }
  }

  /** When every index is selected, none is left unselected. */
  lemma UnselectedNone(selected: nat -> bool, n: nat)
    requires forall k :: 0 <= k < n ==> selected(k)
    ensures Unselected(selected, n) == []
  {
  }

  /** Each match's slot in the output: its replacement when selected, its
      own text otherwise. */
  ghost predicate PiecesFaithful<R>(ms: seq<Occurrence>,
                                    cased: (Occurrence, nat) -> Result<string, Error>,
                                    selected: nat -> bool,
                                    st: ScanState<R>)
  {
    && |st.pieces| == |ms|
    && forall k :: 0 <= k < |ms| ==>
         && cased(ms[k], k).Success?
         && st.pieces[k] == (if selected(k) then ms[k].aux + cased(ms[k], k).value
                             else ms[k].aux + ms[k].text)
  }

  /** One record per unselected match, in match order, the j-th one built
      with `searchIndex` j. */
  ghost predicate RecordsFaithful<R>(ms: seq<Occurrence>,
                                     cased: (Occurrence, nat) -> Result<string, Error>,
                                     selected: nat -> bool,
                                     record: (Occurrence, string, nat) -> R,
                                     st: ScanState<R>)
  {
    var u := Unselected(selected, |ms|);
    && |st.records| == |u|
    && forall j :: 0 <= j < |u| ==>
         u[j] < |ms| && cased(ms[u[j]], u[j]).Success?
         && st.records[j] == record(ms[u[j]], cased(ms[u[j]], u[j]).value, j)
  }

  lemma StepPieces<R>(ms: seq<Occurrence>,
                      cased: (Occurrence, nat) -> Result<string, Error>,
                      selected: nat -> bool,
                      record: (Occurrence, string, nat) -> R,
                      st: ScanState<R>)
    requires |ms| > 0 && st.replaceIndex == |ms| - 1
    requires PiecesFaithful(ms[..|ms| - 1], cased, selected, st)
    requires Step(st, ms[|ms| - 1], cased, selected, record).Success?
    ensures PiecesFaithful(ms, cased, selected, Step(st, ms[|ms| - 1], cased, selected, record).value)
  {
    var n := |ms| - 1;
    var st' := Step(st, ms[n], cased, selected, record).value;
    assert st'.pieces[..n] == st.pieces;
    forall k | 0 <= k < n
      ensures ms[..n][k] == ms[k]
    {
    }
  }

  lemma StepRecords<R>(ms: seq<Occurrence>,
                       cased: (Occurrence, nat) -> Result<string, Error>,
                       selected: nat -> bool,
                       record: (Occurrence, string, nat) -> R,
                       st: ScanState<R>)
    requires |ms| > 0 && st.replaceIndex == |ms| - 1 && st.searchIndex == |st.records|
    requires RecordsFaithful(ms[..|ms| - 1], cased, selected, record, st)
    requires Step(st, ms[|ms| - 1], cased, selected, record).Success?
    ensures RecordsFaithful(ms, cased, selected, record, Step(st, ms[|ms| - 1], cased, selected, record).value)
  {
    var n := |ms| - 1;
    var st' := Step(st, ms[n], cased, selected, record).value;
    var u := Unselected(selected, n);
    assert Unselected(selected, n + 1) == u + (if selected(n) then [] else [n]);
    forall j | 0 <= j < |u|
      ensures ms[..n][u[j]] == ms[u[j]]
    {
    }
  }

  /** The scan succeeds exactly when every match's replacement can be
      computed. */
  lemma {:induction false} FoldSucceeds<R>(ms: seq<Occurrence>,
                                           cased: (Occurrence, nat) -> Result<string, Error>,
                                           selected: nat -> bool,
                                           record: (Occurrence, string, nat) -> R)
    ensures Fold(ms, cased, selected, record).Success? <==>
              forall k :: 0 <= k < |ms| ==> cased(ms[k], k).Success?
    decreases |ms|
  {
    if |ms| > 0 {
      var n := |ms| - 1;
      FoldSucceeds(ms[..n], cased, selected, record);
      assert forall k :: 0 <= k < n ==> ms[..n][k] == ms[k];
    }
  }

  /** After a successful scan, match k is applied exactly when
      `selected(k)` and every other match is left as it was; the unselected
      matches get one record each, in match order, with `searchIndex` 0, 1,
      2, ... */
  lemma {:induction false} FoldSpec<R>(ms: seq<Occurrence>,
                                       cased: (Occurrence, nat) -> Result<string, Error>,
                                       selected: nat -> bool,
                                       record: (Occurrence, string, nat) -> R)
    requires Fold(ms, cased, selected, record).Success?
    ensures PiecesFaithful(ms, cased, selected, Fold(ms, cased, selected, record).value)
    ensures RecordsFaithful(ms, cased, selected, record, Fold(ms, cased, selected, record).value)
    decreases |ms|
  {
    if |ms| > 0 {
      var n := |ms| - 1;
      FoldSpec(ms[..n], cased, selected, record);
      var st := Fold(ms[..n], cased, selected, record).value;
      StepPieces(ms, cased, selected, record, st);
      StepRecords(ms, cased, selected, record, st);
    }
  }
}
