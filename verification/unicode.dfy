/** The Unicode facts the engine consults, left uninterpreted: the Letter,
    Number and Uppercase_Letter general categories and per-character case
    mapping. Every operation that needs them takes a `CharClasses` value, so
    the model holds for any tables. `Ascii` is one concrete instance, used
    by the worked examples. */
module Unicode {

  datatype CharClasses = CharClasses(
    isLetter: char -> bool,         // \p{Letter}
    isNumber: char -> bool,         // \p{Number}
    isUpperLetter: char -> bool,    // \p{Uppercase_Letter}
    toUpper: char -> char,
    toLower: char -> char)

  /** `s.toUpperCase()`, one character at a time. */
  function Upper(cc: CharClasses, s: string): (r: string)
    ensures |r| == |s|
    ensures forall i :: 0 <= i < |s| ==> r[i] == cc.toUpper(s[i])
  {
    seq(|s|, i requires 0 <= i < |s| => cc.toUpper(s[i]))
  }

  /** `s.toLowerCase()`, one character at a time. */
  function Lower(cc: CharClasses, s: string): (r: string)
    ensures |r| == |s|
    ensures forall i :: 0 <= i < |s| ==> r[i] == cc.toLower(s[i])
  {
    seq(|s|, i requires 0 <= i < |s| => cc.toLower(s[i]))
  }

  /** Upper-casing a character that is already upper case changes nothing;
      true of every real case table. */
  ghost predicate UpperIdempotent(cc: CharClasses) {
    forall c :: cc.toUpper(cc.toUpper(c)) == cc.toUpper(c)
  }

  predicate IsAsciiLower(c: char) { 'a' <= c <= 'z' }

  predicate IsAsciiUpper(c: char) { 'A' <= c <= 'Z' }

  /** The ASCII restriction of the Unicode tables. */
  function Ascii(): (cc: CharClasses)
    ensures UpperIdempotent(cc)
  {
    CharClasses(
      c => IsAsciiLower(c) || IsAsciiUpper(c),
      c => '0' <= c <= '9',
      c => IsAsciiUpper(c),
      c => if IsAsciiLower(c) then (c as int - 32) as char else c,
      c => if IsAsciiUpper(c) then (c as int + 32) as char else c)
  }
}
