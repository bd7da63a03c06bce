/** Pattern preparation (utils.ts, and the identical local copies in both
    snr.ts files): escaping a literal target, reading `/source/flags`
    syntax, merging flags and wrapping the pattern into the two-group shape
    `(prefix)(match)`. */
module Pattern {
  import opened Wrappers
  import opened Errors
  import opened Unicode
  import JsString

  /** What the caller passed as `target`. `Unsupported` stands for every
      other JavaScript value (a number, `null`, an object, ...). */
  datatype Target =
    | Text(text: string)
    | RegExp(source: string, flags: string)
    | Unsupported

  /** A pattern source with the flags read off it, if any. */
  datatype RegexData = RegexData(source: string, flags: Option<string>)

  // ---------------------------------------------------------------- escaping

  /** The characters `escapeRegExp` prefixes with a backslash. */
  const Metacharacters: string := ".*+?^${}()|[]\\"

  predicate IsMeta(c: char) {
    c in Metacharacters
  }

  /** How one character is written in an escaped pattern. */
  function EscapeChar(c: char): string {
    if IsMeta(c) then ['\\', c] else [c]
  }

  function CountMeta(s: string): nat {
    if |s| == 0 then 0 else (if IsMeta(s[0]) then 1 else 0) + CountMeta(s[1..])
  }

  /** `escapeRegExp` on a string: each metacharacter gets a backslash in
      front of it; every other character is copied. */
  function Escape(s: string): (r: string)
    ensures |r| == |s| + CountMeta(s)
    ensures |s| > 0 ==> r == EscapeChar(s[0]) + Escape(s[1..])
  {
    if |s| == 0 then [] else EscapeChar(s[0]) + Escape(s[1..])
  }

  /** Strips one backslash from each backslash pair: the inverse of
      `Escape`. */
  function Unescape(s: string): string {
    if |s| == 0 then []
    else if s[0] == '\\' && |s| >= 2 then [s[1]] + Unescape(s[2..])
    else [s[0]] + Unescape(s[1..])
  }

  /** Escaping works character by character. */
  lemma {:induction false} EscapeConcat(a: string, b: string)
    ensures Escape(a + b) == Escape(a) + Escape(b)
    decreases |a|
  {
    if |a| > 0 {
      assert (a + b)[1..] == a[1..] + b;
      EscapeConcat(a[1..], b);
    } else {
      assert a + b == b;
    }
  }

  /** Stripping one backslash per escape pair recovers the literal. */
  lemma {:induction false} UnescapeEscape(s: string)
    ensures Unescape(Escape(s)) == s
    decreases |s|
  {
    if |s| > 0 {
      var e := Escape(s);
      var tail := Escape(s[1..]);
      UnescapeEscape(s[1..]);
      if IsMeta(s[0]) {
        assert e == ['\\', s[0]] + tail;
        assert e[2..] == tail;
      } else {
        assert e == [s[0]] + tail;
        assert e[1..] == tail;
        assert s[0] != '\\';
      }
      assert s == [s[0]] + s[1..];
    }
  }

  lemma {:induction false} CountMetaZero(s: string)
    ensures CountMeta(s) == 0 <==> forall i :: 0 <= i < |s| ==> !IsMeta(s[i])
    decreases |s|
  {
    if |s| > 0 {
      CountMetaZero(s[1..]);
      assert forall i :: 1 <= i < |s| ==> s[i] == s[1..][i - 1];
    }
  }

  /** Escaping leaves a string unchanged exactly when it has no
      metacharacter. */
  lemma EscapeFixedPoints(s: string)
    ensures Escape(s) == s <==> forall i :: 0 <= i < |s| ==> !IsMeta(s[i])
  {
    CountMetaZero(s);
    if CountMeta(s) == 0 {
      EscapeNoMeta(s);
    }
  }

  lemma {:induction false} EscapeNoMeta(s: string)
    requires CountMeta(s) == 0
    ensures Escape(s) == s
    decreases |s|
  {
    if |s| > 0 {
      EscapeNoMeta(s[1..]);
      assert s == [s[0]] + s[1..];
    }
  }

  /** `escapeRegExp(target)` as literal mode uses it: a RegExp target is
      escaped through its `.source`, its own flags are dropped, and any
      other non-string value fails when `.replace` is called on it. */
  function EscapeTarget(t: Target): (r: Result<RegexData, Error>)
    ensures t.Unsupported? <==> r.Failure?
    ensures r.Success? ==> r.value.flags == None
    ensures t.Text? ==> r.Success? && Unescape(r.value.source) == t.text
    ensures t.RegExp? ==> r.Success? && Unescape(r.value.source) == t.source
  {
    match t
    case Text(s) => UnescapeEscape(s); Success(RegexData(Escape(s), None))
    case RegExp(src, _) => UnescapeEscape(src); Success(RegexData(Escape(src), None))
    case Unsupported => Failure(InvalidTargetType)
  }

  // -------------------------------------------------------- /source/flags

  /** `\w` of a JavaScript RegExp without the `u` flag. */
  predicate IsRegexWordChar(c: char) {
    'a' <= c <= 'z' || 'A' <= c <= 'Z' || '0' <= c <= '9' || c == '_'
  }

  predicate AllWord(s: string) {
    forall i :: 0 <= i < |s| ==> IsRegexWordChar(s[i])
  }

  /** The characters `.` refuses to match. */
  predicate IsLineTerminator(c: char) {
    c == '\n' || c == '\r' || c == '\U{2028}' || c == '\U{2029}'
  }

  /** How far a greedy `.+` starting at `i` can run: up to the first line
      terminator, or the end. */
  function Reach(s: string, i: nat): (e: nat)
    requires i <= |s|
    ensures i <= e <= |s|
    ensures forall k :: i <= k < e ==> !IsLineTerminator(s[k])
    ensures e < |s| ==> IsLineTerminator(s[e])
    decreases |s| - i
  {
    if i == |s| || IsLineTerminator(s[i]) then i else Reach(s, i + 1)
  }

  /** Whether a closing `/` at `q` satisfies `\/(?=(\w*$))`. */
  predicate ClosesAt(s: string, q: nat)
    requires q < |s|
  {
    s[q] == '/' && AllWord(s[q + 1..])
  }

  /** The backtracking of `(.+)\/`: the closing slash is tried at `e - 1`,
      `e - 2`, ... down to `p + 2` (the group needs one character). */
  function Backtrack(s: string, p: nat, e: nat): (q: Option<nat>)
    requires e <= |s|
    ensures q.Some? ==> p + 2 <= q.value < e && ClosesAt(s, q.value)
    ensures q.Some? ==> forall k :: q.value < k < e ==> !ClosesAt(s, k)
    ensures q.None? ==> forall k :: p + 2 <= k < e ==> !ClosesAt(s, k)
    decreases e
  {
    if e < p + 3 then None
    else if ClosesAt(s, e - 1) then Some(e - 1)
    else Backtrack(s, p, e - 1)
  }

  /** One attempt of `/\/(.+)\/(?=(\w*$))/` starting at `p`. */
  function TryAt(s: string, p: nat): Option<nat>
    requires p < |s|
  {
    if s[p] == '/' then Backtrack(s, p, Reach(s, p + 1)) else None
  }

  /** `source.match(...)` without the `g` flag: the leftmost start that
      succeeds, with the opening and closing slash positions. */
  function Search(s: string, p: nat): (r: Option<(nat, nat)>)
    requires p <= |s|
    ensures r.Some? ==> p <= r.value.0 < |s| && TryAt(s, r.value.0) == Some(r.value.1)
    ensures r.Some? ==> forall k :: p <= k < r.value.0 ==> TryAt(s, k).None?
    ensures r.None? ==> forall k :: p <= k < |s| ==> TryAt(s, k).None?
    decreases |s| - p
  {
    if p == |s| then None
    else match TryAt(s, p)
      case Some(q) => Some((p, q))
      case None => Search(s, p + 1)
  }

  /** `evalRegex` on a string: `{source: results[1], flags: results[2]}`
      when the literal syntax matched, `{source}` otherwise. */
  function ParseSlashes(s: string): (r: RegexData)
    ensures r.flags.None? ==> r.source == s
    ensures r.flags.Some? ==>
              && |r.source| > 0 && AllWord(r.flags.value)
              && (forall i :: 0 <= i < |r.source| ==> !IsLineTerminator(r.source[i]))
              && exists p :: 0 <= p <= |s| && s[p..] == ['/'] + r.source + ['/'] + r.flags.value
  {
    match Search(s, 0)
    case None => RegexData(s, None)
    case Some((p, q)) =>
      var e := Reach(s, p + 1);
      assert s[p..] == ['/'] + s[p + 1..q] + ['/'] + s[q + 1..];
      RegexData(s[p + 1..q], Some(s[q + 1..]))
  }

  /** On a line without line terminators whose text after the last `/` is
      all word characters and which has at least one character between its
      first and last `/`, the literal syntax is read as source = the text
      between those slashes and flags = the suffix. */
  lemma ParseSlashesReadsLiteral(s: string, first: nat, last: nat)
    requires first + 2 <= last < |s|
    requires s[first] == '/' && s[last] == '/'
    requires forall k :: 0 <= k < first ==> s[k] != '/'
    requires forall k :: last < k < |s| ==> s[k] != '/'
    requires AllWord(s[last + 1..])
    requires forall k :: 0 <= k < |s| ==> !IsLineTerminator(s[k])
    ensures ParseSlashes(s) == RegexData(s[first + 1..last], Some(s[last + 1..]))
  {
    assert Reach(s, first + 1) == |s|;
    assert ClosesAt(s, last);
    var t := TryAt(s, first);
    assert t == Some(last);
    var r := Search(s, 0);
    assert r.Some?;
    var (p, q) := r.value;
    assert p == first;
  }

  /** Writing a source and flags in literal syntax and reading it back
      gives them back. */
  lemma ParseSlashesRoundTrip(source: string, flags: string)
    requires |source| > 0
    requires forall i :: 0 <= i < |source| ==> !IsLineTerminator(source[i])
    requires AllWord(flags)
    requires forall i :: 0 <= i < |source| ==> source[i] != '/'
    ensures ParseSlashes(['/'] + source + ['/'] + flags) == RegexData(source, Some(flags))
  {
    var s := ['/'] + source + ['/'] + flags;
    var last := |source| + 1;
    assert s[last + 1..] == flags;
    assert s[1..last] == source;
    forall k | 0 <= k < |s|
      ensures !IsLineTerminator(s[k])
    {
      if 1 <= k < last {
        assert s[k] == source[k - 1];
      } else if k > last {
        assert s[k] == flags[k - last - 1];
      }
    }
    forall k | last < k < |s|
      ensures s[k] != '/'
    {
      assert s[k] == flags[k - last - 1];
    }
    ParseSlashesReadsLiteral(s, 0, last);
  }

  /** A string with no `/` followed only by word characters is taken whole,
      without flags. */
  lemma ParseSlashesWhole(s: string)
    requires forall q :: 0 <= q < |s| ==> !ClosesAt(s, q)
    ensures ParseSlashes(s) == RegexData(s, None)
  {
  }

  /** `evalRegex`: a RegExp passes through with its own source and flags, a
      string is read by `ParseSlashes`, and anything else throws. */
  function EvalRegex(t: Target): (r: Result<RegexData, Error>)
    ensures t.Unsupported? <==> r.Failure?
    ensures r.Failure? ==> r.error == InvalidTargetType
    ensures t.RegExp? ==> r == Success(RegexData(t.source, Some(t.flags)))
    ensures t.Text? ==> r == Success(ParseSlashes(t.text))
  {
    match t
    case RegExp(src, fl) => Success(RegexData(src, Some(fl)))
    case Unsupported => Failure(InvalidTargetType)
    case Text(s) => Success(ParseSlashes(s))
  }

  // ----------------------------------------------------------------- flags

  predicate NoDuplicates(s: string) {
    forall i, j :: 0 <= i < j < |s| ==> s[i] != s[j]
  }

  /** `[...new Set(chars)]`: each character once, in order of first
      appearance. */
  function Dedup(s: string): (r: string)
    ensures forall c :: c in r <==> c in s
    ensures NoDuplicates(r)
    ensures forall i, j :: 0 <= i < j < |r| ==> JsString.IndexOf(s, r[i]) < JsString.IndexOf(s, r[j])
    decreases |s|
  {
    if |s| == 0 then []
    else
      var init := s[..|s| - 1];
      var c := s[|s| - 1];
      var d := Dedup(init);
      assert s == init + [c];
      forall x | x in init
        ensures JsString.IndexOf(s, x) == JsString.IndexOf(init, x)
      {
        IndexOfPrefix(init, [c], x);
      }
      if c in d then d
      else
        assert forall x | x in init :: JsString.IndexOf(s, x) < |s| - 1;
        assert JsString.IndexOf(s, c) == |s| - 1;
        d + [c]
  }

  lemma IndexOfPrefix(a: string, b: string, x: char)
    requires x in a
    ensures x in a + b
    ensures JsString.IndexOf(a + b, x) == JsString.IndexOf(a, x)
  {
    var s := a + b;
    var i := JsString.IndexOf(a, x);
    var j := JsString.IndexOf(s, x);
    assert s[i] == x;
  }

  /** The default flags of `findr`: `g`, plus `i` when matching ignores
      case. */
  function FindrDefaultFlags(isCaseMatched: bool): string {
    if isCaseMatched then "g" else "gi"
  }

  /** `rgxData.flags ? [...new Set([...rgxData.flags, ...defaultFlags])]
      : defaultFlags`: absent or empty extracted flags give the defaults. */
  function MergeFlags(extracted: Option<string>, defaults: string): string {
    if extracted.None? || extracted.value == [] then defaults
    else Dedup(extracted.value + defaults)
  }

  /** The flags `findr` compiles with: always global, case-insensitive
      exactly when asked for or when the literal syntax carried `i`, no
      flag twice, and exactly the defaults when nothing was extracted. */
  lemma FindrFlags(extracted: Option<string>, isCaseMatched: bool)
    ensures var f := MergeFlags(extracted, FindrDefaultFlags(isCaseMatched));
            && 'g' in f
            && ('i' in f <==> !isCaseMatched || (extracted.Some? && 'i' in extracted.value))
            && NoDuplicates(f)
            && (extracted.None? || extracted.value == [] ==> f == FindrDefaultFlags(isCaseMatched))
  {
    var d := FindrDefaultFlags(isCaseMatched);
    assert 'g' in d;
    assert 'i' in d <==> !isCaseMatched;
    if extracted.Some? && extracted.value != [] {
      var f := Dedup(extracted.value + d);
      assert forall c :: c in extracted.value + d <==> c in extracted.value || c in d;
    }
  }

  // -------------------------------------------------------------- wrapping

  /** The character classes around a whole-word match: group 1 must be a
      character outside `prefixIsWord` (or the start of the line), and the
      lookahead a character outside `aheadIsWord` (or the end). */
  datatype Boundary = Boundary(prefixIsWord: char -> bool, aheadIsWord: char -> bool)

  /** The pattern handed to the scan: the final source and flags and, in
      whole-word mode, the boundary classes. Without a boundary the wrapper
      is `()(source)`, whose first group is always empty. */
  datatype Compiled = Compiled(source: string, flags: string, boundary: Option<Boundary>)

  /** `prepareRegExp({regexp, isWordMatched})`. */
  function PrepareRegExp(source: string, flags: string, isWordMatched: bool, wordLike: Boundary)
    : (c: Compiled)
    ensures c.source == source && c.flags == flags
    ensures c.boundary.Some? <==> isWordMatched
  {
    Compiled(source, flags, if isWordMatched then Some(wordLike) else None)
  }

  /** The characters spelled out in utils.ts's `WordLike` class
      `p{Letter}\p{Number}`: without a backslash before the first `p`, the
      class holds these seven characters rather than the Letter category. */
  const UtilsClassLiterals: string := "p{Letter}"

  /** The boundary of `findr` (utils.ts): both sides use the `WordLike`
      class as written. */
  function UtilsWordLike(cc: CharClasses): Boundary {
    Boundary(c => c in UtilsClassLiterals || cc.isNumber(c),
             c => c in UtilsClassLiterals || cc.isNumber(c))
  }

  /** The boundary of findr-text's `snr`: Letter or Number on both sides. */
  function SnrWordLike(cc: CharClasses): Boundary {
    Boundary(c => cc.isLetter(c) || cc.isNumber(c),
             c => cc.isLetter(c) || cc.isNumber(c))
  }

  /** The boundary of snr-text's `snr`: Letter or Number before, Letter
      only after. */
  function SnrTextWordLike(cc: CharClasses): Boundary {
    Boundary(c => cc.isLetter(c) || cc.isNumber(c),
             c => cc.isLetter(c))
  }
}
