/** Characters, digits and decimal text as the page script uses them. */
module Text {

  datatype Option<T> = None | Some(value: T)

  /** JavaScript's `\s` class: the ECMAScript WhiteSpace and LineTerminator
      code points (TAB, VT, FF, SPACE, NBSP, ZWNBSP, the Zs separators, LF,
      CR, LINE SEPARATOR and PARAGRAPH SEPARATOR). */
  predicate IsWhitespace(c: char): (b: bool)
    ensures b ==> !('0' <= c <= '9') && c != '@' && c != '.' && c != '+' && c != '%'
  {
    c == '\t' || c == '\n' || c == '\U{000B}' || c == '\U{000C}' || c == '\r' ||
    c == ' ' || c == '\U{00A0}' || c == '\U{1680}' ||
    ('\U{2000}' <= c <= '\U{200A}') ||
    c == '\U{2028}' || c == '\U{2029}' || c == '\U{202F}' || c == '\U{205F}' ||
    c == '\U{3000}' || c == '\U{FEFF}'
  }

  predicate NoWhitespace(s: string) {
    forall i :: 0 <= i < |s| ==> !IsWhitespace(s[i])
  }

  /** A character of the regular-expression class `\d`; `\D` is its complement. */
  predicate IsDigit(c: char) {
    '0' <= c <= '9'
  }

  predicate AllDigits(s: string) {
    forall i :: 0 <= i < |s| ==> IsDigit(s[i])
  }

  predicate NoDigits(s: string) {
    forall i :: 0 <= i < |s| ==> !IsDigit(s[i])
  }

  function DigitValue(c: char): (d: nat)
    requires IsDigit(c)
    ensures d < 10
  {
    c as int - '0' as int
  }

  function DigitChar(d: nat): (c: char)
    requires d < 10
    ensures IsDigit(c) && DigitValue(c) == d
  {
    ('0' as int + d) as char
  }

  /** How a JavaScript number that holds the natural number n prints
      (plain decimal, no leading zeros). */
  function NatToString(n: nat): (s: string)
    ensures s != [] && AllDigits(s)
  {
    if n < 10 then [DigitChar(n)] else NatToString(n / 10) + [DigitChar(n % 10)]
  }

  /** The value of a string of decimal digits, most significant first. */
  function DecimalValue(s: string): nat
    requires AllDigits(s)
  {
    if s == [] then 0 else DecimalValue(s[..|s| - 1]) * 10 + DigitValue(s[|s| - 1])
  }

  /** Decimal printing and reading are inverse: reading back the digits of n gives n. */
  lemma {:induction false} DecimalValueOfNatToString(n: nat)
    ensures DecimalValue(NatToString(n)) == n
  {
    var s := NatToString(n);
    if n >= 10 {
      DecimalValueOfNatToString(n / 10);
      assert s[..|s| - 1] == NatToString(n / 10);
    } else {
      assert s[..|s| - 1] == [];
    }
  }

  /** `s.replace(/\D/g, '')`: the decimal digits of s, in order. */
  function KeepDigits(s: string): (r: string)
    ensures AllDigits(r) && |r| <= |s|
  {
    if s == [] then []
    else if IsDigit(s[0]) then [s[0]] + KeepDigits(s[1..])
    else KeepDigits(s[1..])
  }

  /** KeepDigits works character by character: it distributes over concatenation. */
  lemma {:induction false} KeepDigitsAppend(a: string, b: string)
    ensures KeepDigits(a + b) == KeepDigits(a) + KeepDigits(b)
  {
    if a != [] {
      assert (a + b)[1..] == a[1..] + b;
      KeepDigitsAppend(a[1..], b);
    } else {
      assert a + b == b;
    }
  }

  /** A string of digits is left as it is. */
  lemma {:induction false} KeepDigitsOfDigits(s: string)
    requires AllDigits(s)
    ensures KeepDigits(s) == s
  {
    if s != [] {
      KeepDigitsOfDigits(s[1..]);
      assert s == [s[0]] + s[1..];
    }
  }

  /** A string with no digit is erased entirely. */
  lemma {:induction false} KeepDigitsOfNonDigits(s: string)
    requires NoDigits(s)
    ensures KeepDigits(s) == []
  {
    if s != [] {
      KeepDigitsOfNonDigits(s[1..]);
    }
  }

  /** Nothing is left exactly when the string has no digit. */
  lemma KeepDigitsEmpty(s: string)
    ensures KeepDigits(s) == [] <==> NoDigits(s)
  {
    if NoDigits(s) {
      KeepDigitsOfNonDigits(s);
    } else {
      var i :| 0 <= i < |s| && IsDigit(s[i]);
      KeepDigitsMembers(s, s[i]);
    }
  }

  /** The strings of `runs` joined end to end. */
  function Concat(runs: seq<string>): string
    decreases runs
  {
    if runs == [] then [] else runs[0] + Concat(runs[1..])
  }

  /** `seps[0] + runs[0] + seps[1] + ... + runs[n - 1] + seps[n]`. */
  function Interleave(seps: seq<string>, runs: seq<string>): string
    requires |seps| == |runs| + 1
    decreases runs
  {
    if runs == [] then seps[0] else seps[0] + runs[0] + Interleave(seps[1..], runs[1..])
  }

  /** Stripping the non-digits from digit runs separated by digit-free text
      leaves the runs joined together. */
  lemma {:induction false} KeepDigitsInterleave(seps: seq<string>, runs: seq<string>)
    requires |seps| == |runs| + 1
    requires forall i :: 0 <= i < |seps| ==> NoDigits(seps[i])
    requires forall i :: 0 <= i < |runs| ==> AllDigits(runs[i])
    ensures KeepDigits(Interleave(seps, runs)) == Concat(runs)
    decreases runs
  {
    KeepDigitsOfNonDigits(seps[0]);
    if runs != [] {
      var rest := Interleave(seps[1..], runs[1..]);
      KeepDigitsInterleave(seps[1..], runs[1..]);
      KeepDigitsAppend(seps[0] + runs[0], rest);
      KeepDigitsAppend(seps[0], runs[0]);
      KeepDigitsOfDigits(runs[0]);
    }
  }

  /** Every character of the result is one of s, and every digit of s is kept. */
  lemma {:induction false} KeepDigitsMembers(s: string, c: char)
    ensures c in KeepDigits(s) <==> c in s && IsDigit(c)
  {
    if s != [] {
      KeepDigitsMembers(s[1..], c);
      assert s == [s[0]] + s[1..];
    }
  }

  /** A digit string holds neither '+' nor '%' nor any letter of "NaN". */
  lemma DigitsHaveNoSymbol(s: string, c: char)
    requires AllDigits(s) && !IsDigit(c)
    ensures c !in s
  {
  }
}
