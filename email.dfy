/** The email checks of the waitlist dialog: the shape test `validateEmail`, which tests the
    pattern `^[^\s@]+@[^\s@]+\.[^\s@]+$`, and the `trim` that decides whether the input is blank. */
module EmailValidation {

  /** The characters of the ECMAScript class `\s`, which are also the characters that
      `String.prototype.trim` removes: the WhiteSpace set (tab, vertical tab, form feed, space,
      no-break space, the byte order mark and the other Unicode space separators) and the
      LineTerminator set (line feed, carriage return, line and paragraph separators). */
  predicate IsWs(c: char) {
    c == '\t' || c == '\n' || c == '\U{000B}' || c == '\U{000C}' || c == '\r' || c == ' '
    || c == '\U{00A0}' || c == '\U{1680}' || ('\U{2000}' <= c <= '\U{200A}')
    || c == '\U{2028}' || c == '\U{2029}' || c == '\U{202F}' || c == '\U{205F}'
    || c == '\U{3000}' || c == '\U{FEFF}'
  }

  /** A character of the class `[^\s@]`. */
  predicate IsAddressChar(c: char) {
    !IsWs(c) && c != '@'
  }

  predicate AllAddressChars(s: string) {
    forall k :: 0 <= k < |s| ==> IsAddressChar(s[k])
  }

  predicate AllWs(s: string) {
    forall k :: 0 <= k < |s| ==> IsWs(s[k])
  }

  /** The pattern read literally: a run of `[^\s@]`, an '@', a run of `[^\s@]`, a '.', and a
      last run of `[^\s@]`, each run non-empty, covering the whole string. */
  ghost predicate MatchesPattern(s: string) {
    exists at: nat, dot: nat ::
      0 < at && at + 1 < dot && dot + 1 < |s| && s[at] == '@' && s[dot] == '.' &&
      AllAddressChars(s[..at]) && AllAddressChars(s[at + 1..dot]) && AllAddressChars(s[dot + 1..])
  }

  /** Position of the first '@' in `s`, or `|s|` when there is none. */
  function FirstAt(s: string): (k: nat)
    ensures k <= |s|
    ensures k < |s| ==> s[k] == '@'
    ensures forall j :: 0 <= j < k ==> s[j] != '@'
  {
    if |s| == 0 || s[0] == '@' then 0 else 1 + FirstAt(s[1..])
  }

  /** The part after the '@': no whitespace and no '@', and a '.' that is neither its first
      nor its last character. */
  predicate IsDomain(d: string) {
    AllAddressChars(d) && exists k :: 0 < k < |d| - 1 && d[k] == '.'
  }

  /** `validateEmail`: a non-empty local part free of whitespace and '@', the first '@', and a
      domain as `IsDomain` describes it. */
  predicate ValidateEmail(s: string) {
    var at := FirstAt(s);
    0 < at < |s| && AllAddressChars(s[..at]) && IsDomain(s[at + 1..])
  }

  /** Number of occurrences of `c` in `s`. */
  function Count(s: string, c: char): (r: nat)
    ensures r <= |s|
    ensures r == 0 <==> c !in s
  {
    if |s| == 0 then 0 else (if s[0] == c then 1 else 0) + Count(s[1..], c)
  }

  lemma {:induction false} CountAppend(a: string, b: string, c: char)
    ensures Count(a + b, c) == Count(a, c) + Count(b, c)
  {
    if |a| > 0 {
      assert (a + b)[1..] == a[1..] + b;
      CountAppend(a[1..], b, c);
    } else {
      assert a + b == b;
    }
  }

  lemma AddressCharsHaveNoAt(s: string)
    requires AllAddressChars(s)
    ensures Count(s, '@') == 0
  {
    assert '@' !in s;
  }

  lemma ValidateEmailIsPattern(s: string)
    requires ValidateEmail(s)
    ensures MatchesPattern(s)
  {
    var at := FirstAt(s);
    var d := s[at + 1..];
    var k :| 0 < k < |d| - 1 && d[k] == '.';
    var dot := at + 1 + k;
    assert s[at + 1..dot] == d[..k];
    assert s[dot + 1..] == d[k + 1..];
    assert s[dot] == '.';
  }

  lemma PatternIsValidateEmail(s: string, at: nat, dot: nat)
    requires 0 < at && at + 1 < dot && dot + 1 < |s| && s[at] == '@' && s[dot] == '.'
    requires AllAddressChars(s[..at]) && AllAddressChars(s[at + 1..dot]) && AllAddressChars(s[dot + 1..])
    ensures ValidateEmail(s)
  {
    forall j | 0 <= j < at ensures s[j] != '@' {
      assert s[j] == s[..at][j];
    }
    assert FirstAt(s) == at;
    var d := s[at + 1..];
    forall j | 0 <= j < |d| ensures IsAddressChar(d[j]) {
      if at + 1 + j < dot {
        assert d[j] == s[at + 1..dot][j];
      } else if at + 1 + j > dot {
        assert d[j] == s[dot + 1..][j - (dot - at)];
      }
    }
    assert d[dot - at - 1] == '.';
  }

  /** The executable test agrees with the literal reading of the pattern, in both directions. */
  lemma ValidateEmailMatchesPattern(s: string)
    ensures ValidateEmail(s) <==> MatchesPattern(s)
  {
    if ValidateEmail(s) {
      ValidateEmailIsPattern(s);
    }
    if MatchesPattern(s) {
      var at: nat, dot: nat :|
        0 < at && at + 1 < dot && dot + 1 < |s| && s[at] == '@' && s[dot] == '.' &&
        AllAddressChars(s[..at]) && AllAddressChars(s[at + 1..dot]) && AllAddressChars(s[dot + 1..]);
      PatternIsValidateEmail(s, at, dot);
    }
  }

  lemma AcceptedHasNoWs(s: string)
    requires ValidateEmail(s)
    ensures forall k :: 0 <= k < |s| ==> !IsWs(s[k])
  {
    var at := FirstAt(s);
    forall k | 0 <= k < |s| ensures !IsWs(s[k]) {
      if k < at {
        assert s[k] == s[..at][k];
      } else if k > at {
        assert s[k] == s[at + 1..][k - at - 1];
      }
    }
  }

  lemma AcceptedHasOneAt(s: string)
    requires ValidateEmail(s)
    ensures Count(s, '@') == 1
  {
    var at := FirstAt(s);
    var l, d := s[..at], s[at + 1..];
    assert s == l + ['@'] + d;
    AddressCharsHaveNoAt(l);
    AddressCharsHaveNoAt(d);
    CountAppend(l + ['@'], d, '@');
    CountAppend(l, ['@'], '@');
    assert Count(['@'], '@') == 1;
  }

  /** An accepted string holds exactly one '@' and no whitespace at all, leading, inner or
      trailing. */
  lemma ValidateEmailRejects(s: string)
    ensures ValidateEmail(s) ==> Count(s, '@') == 1
    ensures ValidateEmail(s) ==> forall k :: 0 <= k < |s| ==> !IsWs(s[k])
  {
    if ValidateEmail(s) {
      AcceptedHasOneAt(s);
      AcceptedHasNoWs(s);
    }
  }

  /** Every `a@b.c` with non-empty runs of `[^\s@]` is accepted (the run `b` may itself hold
      dots). */
  lemma AcceptsLocalDomainTld(a: string, b: string, c: string)
    requires |a| > 0 && |b| > 0 && |c| > 0
    requires AllAddressChars(a) && AllAddressChars(b) && AllAddressChars(c)
    ensures ValidateEmail(a + "@" + b + "." + c)
  {
    var s := a + "@" + b + "." + c;
    var at, dot := |a|, |a| + 1 + |b|;
    assert s[..at] == a;
    assert s[at + 1..dot] == b;
    assert s[dot + 1..] == c;
    assert s[at] == '@' && s[dot] == '.';
    ValidateEmailMatchesPattern(s);
  }

  /** `trimStart`: drops the leading whitespace. */
  function TrimStart(s: string): (t: string)
    ensures |t| <= |s|
    ensures forall k :: 0 <= k < |s| - |t| ==> IsWs(s[k])
    ensures t == [] || (t[0] == s[|s| - |t|] && !IsWs(t[0]))
  {
    if |s| > 0 && IsWs(s[0]) then TrimStart(s[1..]) else s
  }

  /** `trimEnd`: drops the trailing whitespace. */
  function TrimEnd(s: string): (t: string)
    ensures |t| <= |s|
    ensures forall k :: |t| <= k < |s| ==> IsWs(s[k])
    ensures t == [] || (t[0] == s[0] && !IsWs(t[|t| - 1]))
  {
    if |s| > 0 && IsWs(s[|s| - 1]) then TrimEnd(s[..|s| - 1]) else s
  }

  /** What `TrimStart` keeps is a suffix of its input. */
  lemma {:induction false} TrimStartIsSuffix(s: string)
    ensures TrimStart(s) == s[|s| - |TrimStart(s)|..]
  {
    if |s| > 0 && IsWs(s[0]) {
      TrimStartIsSuffix(s[1..]);
      assert s[1..][|s| - 1 - |TrimStart(s)|..] == s[|s| - |TrimStart(s)|..];
    }
  }

  /** What `TrimEnd` keeps is a prefix of its input. */
  lemma {:induction false} TrimEndIsPrefix(s: string)
    ensures TrimEnd(s) == s[..|TrimEnd(s)|]
  {
    if |s| > 0 && IsWs(s[|s| - 1]) {
      TrimEndIsPrefix(s[..|s| - 1]);
      assert s[..|s| - 1][..|TrimEnd(s)|] == s[..|TrimEnd(s)|];
    }
  }

  /** What `Trim` keeps is the slice of its input between the removed whitespace prefix and the
      removed whitespace suffix. */
  lemma TrimIsSlice(s: string)
    ensures var i := |s| - |TrimStart(s)|;
      i + |Trim(s)| <= |s| && Trim(s) == s[i..i + |Trim(s)|]
      && (forall k :: 0 <= k < i ==> IsWs(s[k]))
      && (forall k :: i + |Trim(s)| <= k < |s| ==> IsWs(s[k]))
  {
    var u := TrimStart(s);
    var i := |s| - |u|;
    TrimStartIsSuffix(s);
    TrimEndIsPrefix(u);
    var t := Trim(s);
    assert t == TrimEnd(u);
    assert t == u[..|t|] == s[i..][..|t|] == s[i..i + |t|];
    forall k | i + |t| <= k < |s| ensures IsWs(s[k]) {
      assert s[k] == u[k - i];
    }
  }

  /** `String.prototype.trim`: the longest slice of `s` that starts and ends with a
      non-whitespace character; it is empty exactly when `s` is all whitespace. */
  function Trim(s: string): (t: string)
    ensures |t| <= |s|
    ensures t == [] || (!IsWs(t[0]) && !IsWs(t[|t| - 1]))
    ensures t == [] <==> AllWs(s)
  {
    var u := TrimStart(s);
    var t := TrimEnd(u);
    t
  }

  /** `!email.trim()`: the trimmed input is the empty string. */
  predicate IsBlank(s: string) {
    Trim(s) == []
  }
}
