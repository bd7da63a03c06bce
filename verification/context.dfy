/** The context windows of a previewed match, computed with JavaScript
    `slice` arithmetic exactly as the source does, including its two
    quirks: a window start before the line wraps around from the end
    instead of clamping, and the extended context drops the line's last
    character (`slice(..., -1)`). */
module Context {
  import opened Wrappers
  import opened JsString

  /** `source.slice(pos - ctxLen, pos)`. */
  function CtxBefore(line: string, pos: nat, ctxLen: int): (r: string)
    // enough text before the match: exactly the ctxLen preceding characters
    ensures 0 <= ctxLen <= pos <= |line| ==> r == line[pos - ctxLen..pos]
    // too little text before the match: the negative start wraps past it
    ensures pos < ctxLen <= |line| ==> r == []
    ensures pos <= |line| < ctxLen <= |line| + pos ==> r == line[|line| + pos - ctxLen..pos]
    ensures pos <= |line| && |line| + pos < ctxLen ==> r == line[..pos]
    ensures pos <= |line| && ctxLen < 0 ==> r == []
  {
    Slice(line, pos - ctxLen, pos)
  }

  /** `source.slice(end, end + ctxLen)`: at most ctxLen characters starting
      right after the match, clamped at the end of the line. */
  function CtxAfter(line: string, end: nat, ctxLen: int): (r: string)
    ensures end <= |line| && ctxLen >= 0 ==> r == line[end..Min(end + ctxLen, |line|)]
  {
    Slice(line, end, end + ctxLen)
  }

  /** A negative ctxLen puts the stop index before `end`, which gives
      nothing, unless the stop index falls below zero and `slice` re-reads
      it from the end of the line (`"abcdef".slice(2, -3)` is `"c"`). */
  lemma CtxAfterNegative(line: string, end: nat, ctxLen: int)
    requires end <= |line| && ctxLen < 0
    ensures 0 <= end + ctxLen ==> CtxAfter(line, end, ctxLen) == []
    ensures end + ctxLen < 0 < |line| + ctxLen ==>
              CtxAfter(line, end, ctxLen) == line[end..|line| + end + ctxLen]
    ensures end + ctxLen < 0 && |line| + ctxLen <= 0 ==> CtxAfter(line, end, ctxLen) == []
  {
  }

  /** The example of the doc comment above: a stop index of -3 on a
      six-character line is read as 3. */
  lemma CtxAfterNegativeExample()
    ensures CtxAfter("abcdef", 2, -5) == "c"
  {
    CtxAfterNegative("abcdef", 2, -5);
  }

  /** `source.slice(0, pos)`: everything before the match. */
  function ExtBefore(line: string, pos: nat): (r: string)
    ensures pos <= |line| ==> r == line[..pos]
  {
    Slice(line, 0, pos)
  }

  /** `source.slice(end, -1)`: the rest of the line after the match,
      without the line's final character. */
  function ExtAfter(line: string, end: nat): (r: string)
    ensures end < |line| ==> r + [line[|line| - 1]] == line[end..]
    ensures end == |line| ==> r == []
  {
    Slice(line, end, -1)
  }

  /** The default `filterCtxMatch`: `[-match]`. */
  function MarkRemoved(matched: string): string {
    "[-" + matched + "]"
  }

  /** The default `filterCtxReplacement`: `[+replacement]`. */
  function MarkAdded(replacement: string): string {
    "[+" + replacement + "]"
  }

  /** `filter ? filter(x) : x`. */
  function ApplyFilter(filter: Option<string -> string>, x: string): string {
    if filter.Some? then filter.value(x) else x
  }

  /** Around a match that does not end the line, the extended context with
      the markers removed, followed by the dropped last character, is the
      whole line again. */
  lemma ExtendedContextCoversLine(line: string, pos: nat, len: nat)
    requires pos + len < |line|
    ensures ExtBefore(line, pos) + line[pos..pos + len] + ExtAfter(line, pos + len) + [line[|line| - 1]] == line
  {
    var e := pos + len;
    assert ExtAfter(line, e) + [line[|line| - 1]] == line[e..];
    assert line == line[..pos] + line[pos..e] + line[e..];
  }
}
