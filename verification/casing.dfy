/** Case preservation of `findr` (`isUpperCase` and `evaluateCase`): the
    computed replacement is re-cased to mirror the matched text. */
module Casing {
  import opened Wrappers
  import opened Errors
  import opened Unicode

  /** `isUpperCase`: upper-casing leaves the text as it is, and lower-casing
      does not. */
  predicate IsUpperCase(cc: CharClasses, s: string) {
    Upper(cc, s) == s && Lower(cc, s) != s
  }

  /** What `IsUpperCase` means character by character: every character is
      fixed by upper-casing and at least one is changed by lower-casing, so
      the empty string and strings without cased letters are never upper
      case. */
  lemma IsUpperCaseMeaning(cc: CharClasses, s: string)
    ensures IsUpperCase(cc, s) <==>
              (forall i :: 0 <= i < |s| ==> cc.toUpper(s[i]) == s[i])
              && (exists i :: 0 <= i < |s| && cc.toLower(s[i]) != s[i])
    ensures !IsUpperCase(cc, [])
  {
    if forall i :: 0 <= i < |s| ==> cc.toUpper(s[i]) == s[i] {
      assert Upper(cc, s) == s;
    }
    if forall i :: 0 <= i < |s| ==> cc.toLower(s[i]) == s[i] {
      assert Lower(cc, s) == s;
    }
    assert Lower(cc, []) == [];
  }

  /** `replaced[0].toUpperCase() + replaced.slice(1)`; indexing an empty
      replacement throws. */
  function CapitaliseFirst(cc: CharClasses, replaced: string): (r: Result<string, Error>)
    ensures r.Failure? <==> |replaced| == 0
    ensures r.Failure? ==> r.error == EmptyReplacementIndexed
    ensures r.Success? ==> |r.value| == |replaced| && r.value[0] == cc.toUpper(replaced[0])
    ensures r.Success? ==> r.value[1..] == replaced[1..]
  {
    if |replaced| == 0 then Failure(EmptyReplacementIndexed)
    else Success([cc.toUpper(replaced[0])] + replaced[1..])
  }

  /** The first-character test of `evaluateCase`: the match starts with an
      upper-case letter. */
  predicate StartsUpper(cc: CharClasses, matched: string) {
    |matched| > 0 && cc.isUpperLetter(matched[0])
  }

  /** `evaluateCase(match, replaced)`. */
  function EvaluateCase(cc: CharClasses, isCasePreserved: bool, matched: string, replaced: string)
    : (r: Result<string, Error>)
    // switched off: the replacement is used as computed
    ensures !isCasePreserved ==> r == Success(replaced)
    // an all-caps match makes the whole replacement upper case
    ensures isCasePreserved && IsUpperCase(cc, matched) ==> r == Success(Upper(cc, replaced))
    // a capitalised match upper-cases the first character only
    ensures isCasePreserved && !IsUpperCase(cc, matched) && StartsUpper(cc, matched) ==>
              if |replaced| == 0 then r == Failure(EmptyReplacementIndexed)
              else r.Success? && |r.value| == |replaced|
                   && r.value[0] == cc.toUpper(replaced[0]) && r.value[1..] == replaced[1..]
    // any other match leaves the replacement alone
    ensures !IsUpperCase(cc, matched) && !StartsUpper(cc, matched) ==> r == Success(replaced)
  {
    if !isCasePreserved then Success(replaced)
    else if IsUpperCase(cc, matched) then Success(Upper(cc, replaced))
    else if StartsUpper(cc, matched) then CapitaliseFirst(cc, replaced)
    else Success(replaced)
  }

  /** Re-casing an already re-cased replacement changes nothing, for any
      case table whose upper-casing is idempotent. */
  lemma EvaluateCaseIdempotent(cc: CharClasses, isCasePreserved: bool, matched: string, replaced: string)
    requires UpperIdempotent(cc)
    requires EvaluateCase(cc, isCasePreserved, matched, replaced).Success?
    ensures EvaluateCase(cc, isCasePreserved, matched, EvaluateCase(cc, isCasePreserved, matched, replaced).value)
            == EvaluateCase(cc, isCasePreserved, matched, replaced)
  {
    var once := EvaluateCase(cc, isCasePreserved, matched, replaced).value;
    if isCasePreserved && IsUpperCase(cc, matched) {
      assert Upper(cc, once) == once;
    } else if isCasePreserved && StartsUpper(cc, matched) {
      assert once == [once[0]] + once[1..];
    }
  }

  /** With an all-caps match the preserved replacement is itself left
      unchanged by upper-casing: the output mirrors the match's case. */
  lemma AllCapsMirrored(cc: CharClasses, matched: string, replaced: string)
    requires UpperIdempotent(cc)
    requires IsUpperCase(cc, matched)
    ensures EvaluateCase(cc, true, matched, replaced).Success?
    ensures var r := EvaluateCase(cc, true, matched, replaced).value;
            Upper(cc, r) == r && |r| == |replaced|
  {
    var r := EvaluateCase(cc, true, matched, replaced).value;
    assert Upper(cc, r) == r;
  }
}
