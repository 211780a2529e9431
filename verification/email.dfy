/** `validateEmail`: the test `/^[^\s@]+@[^\s@]+\.[^\s@]+$/.test(email)`. */
module EmailValidation {
  import opened Text

  /** A character of the class `[^\s@]`. */
  predicate IsPlain(c: char) {
    !IsWhitespace(c) && c != '@'
  }

  predicate AllPlain(s: string) {
    forall i :: 0 <= i < |s| ==> IsPlain(s[i])
  }

  /** The regular expression read literally: three non-empty runs of `[^\s@]`
      separated by '@' (at index `at`) and '.' (at index `dot`). Since '.' is
      itself in `[^\s@]`, any '.' after the '@' can play the separator. */
  ghost predicate MatchesEmailPattern(s: string) {
    exists at, dot ::
      0 < at && at + 1 < dot && dot + 1 < |s| && s[at] == '@' && s[dot] == '.' &&
      AllPlain(s[..at]) && AllPlain(s[at + 1..dot]) && AllPlain(s[dot + 1..])
  }

  /** A '.' that is neither the first nor the last character of `domain`. */
  ghost predicate HasInnerDot(domain: string) {
    exists m :: 0 < m < |domain| - 1 && domain[m] == '.'
  }

  /** The same language in words: the '@' at `at` is the only one, the parts
      before and after it are non-empty and have no whitespace, and the part
      after it has an inner '.'. */
  ghost predicate IsAddressSplitAt(s: string, at: int) {
    0 <= at < |s| && s[at] == '@' &&
    (forall k :: 0 <= k < |s| && s[k] == '@' ==> k == at) &&
    at > 0 && NoWhitespace(s[..at]) &&
    at + 1 < |s| && NoWhitespace(s[at + 1..]) &&
    HasInnerDot(s[at + 1..])
  }

  ghost predicate IsWellFormedAddress(s: string) {
    exists at :: IsAddressSplitAt(s, at)
  }

  /** The index of the first occurrence of `c` in `s`, if any. */
  function FirstIndexOf(s: string, c: char): (r: Option<nat>)
    ensures r.None? <==> c !in s
    ensures r.Some? ==> r.value < |s| && s[r.value] == c && c !in s[..r.value]
  {
    if s == [] then None
    else if s[0] == c then Some(0)
    else match FirstIndexOf(s[1..], c)
      case None => None
      case Some(i) =>
        assert s[..i + 1] == [s[0]] + s[1..][..i];
        Some(i + 1)
  }

  /** A '.' strictly inside `domain`, searched from index 1. */
  function HasDotInside(domain: string): (b: bool)
    ensures b <==> HasInnerDot(domain)
  {
    |domain| >= 3 && '.' in domain[1..|domain| - 1]
  }

  /** The '@' at `at` splits `s` into a plain local part and a plain
      domain with an inner '.'. */
  ghost predicate PlainSplitAt(s: string, at: int) {
    0 < at < |s| && s[at] == '@' &&
    AllPlain(s[..at]) && AllPlain(s[at + 1..]) && HasInnerDot(s[at + 1..])
  }

  /** validateEmail: split at the first '@', then check both sides. */
  function ValidateEmail(email: string): (ok: bool)
    ensures ok <==> MatchesEmailPattern(email)
    ensures ok <==> IsWellFormedAddress(email)
  {
    var r := match FirstIndexOf(email, '@')
      case None => false
      case Some(at) =>
        at > 0 && AllPlain(email[..at]) && AllPlain(email[at + 1..]) && HasDotInside(email[at + 1..]);
    assert r <==> exists at :: PlainSplitAt(email, at) by {
      if r {
        assert PlainSplitAt(email, FirstIndexOf(email, '@').value);
      } else if at :| PlainSplitAt(email, at) {
        FirstAtOfPlainSplit(email, at);
      }
    }
    PatternIffPlainSplit(email);
    WellFormedIffPlainSplit(email);
    r
  }

  /** A plain split is at the first '@' of the string. */
  lemma FirstAtOfPlainSplit(s: string, at: int)
    requires PlainSplitAt(s, at)
    ensures FirstIndexOf(s, '@') == Some(at)
  {
  }

  /** Gluing plain runs around a '.' gives a plain run. */
  lemma AllPlainAroundDot(a: string, b: string)
    requires AllPlain(a) && AllPlain(b)
    ensures AllPlain(a + ['.'] + b)
  {
  }

  /** The regular expression matches exactly when there is a plain split. */
  lemma PatternIffPlainSplit(s: string)
    ensures MatchesEmailPattern(s) <==> exists at :: PlainSplitAt(s, at)
  {
    if MatchesEmailPattern(s) {
      PlainSplitOfPattern(s);
    }
    if at :| PlainSplitAt(s, at) {
      PatternOfPlainSplit(s, at);
    }
  }

  lemma PlainSplitOfPattern(s: string)
    requires MatchesEmailPattern(s)
    ensures exists at :: PlainSplitAt(s, at)
  {
    {
      var at, dot :|
        0 < at && at + 1 < dot && dot + 1 < |s| && s[at] == '@' && s[dot] == '.' &&
        AllPlain(s[..at]) && AllPlain(s[at + 1..dot]) && AllPlain(s[dot + 1..]);
      DomainAroundDot(s, at, dot);
      assert PlainSplitAt(s, at);
    }
  }

  /** The part after the '@' of a match is plain and has an inner '.'. */
  lemma DomainAroundDot(s: string, at: int, dot: int)
    requires 0 < at && at + 1 < dot && dot + 1 < |s| && s[dot] == '.'
    requires AllPlain(s[at + 1..dot]) && AllPlain(s[dot + 1..])
    ensures AllPlain(s[at + 1..]) && HasInnerDot(s[at + 1..])
  {
    var domain := s[at + 1..];
    assert domain == s[at + 1..dot] + ['.'] + s[dot + 1..];
    AllPlainAroundDot(s[at + 1..dot], s[dot + 1..]);
    assert domain[dot - at - 1] == '.';
  }

  lemma PatternOfPlainSplit(s: string, at: int)
    requires PlainSplitAt(s, at)
    ensures MatchesEmailPattern(s)
  {
    {
      var domain := s[at + 1..];
      var m :| 0 < m < |domain| - 1 && domain[m] == '.';
      var dot := at + 1 + m;
      assert s[at + 1..dot] == domain[..m];
      assert s[dot + 1..] == domain[m + 1..];
      assert s[dot] == domain[m];
    }
  }

  /** A plain split is the same as the description in words at that '@'. */
  lemma PlainSplitIffAddressSplit(s: string, at: int)
    ensures PlainSplitAt(s, at) <==> IsAddressSplitAt(s, at)
  {
  }

  lemma WellFormedIffPlainSplit(s: string)
    ensures IsWellFormedAddress(s) <==> exists at :: PlainSplitAt(s, at)
  {
    if at :| IsAddressSplitAt(s, at) {
      PlainSplitIffAddressSplit(s, at);
    }
    if at :| PlainSplitAt(s, at) {
      PlainSplitIffAddressSplit(s, at);
    }
  }
}
