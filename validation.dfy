/** The input validators of the registration handler (app.py:31-41) and the
    string normalisation it applies first (`strip`, `lower`).

    Characters are restricted to ASCII: `\w` is `[A-Za-z0-9_]`, `isalpha`
    is an ASCII letter, and `isspace` is one of the ASCII characters Python
    counts as white space. */
module Validation {
  import opened Wrappers

  /** The character classes the validators test. */
  datatype CharClass =
    | WordChar     // `\w`, and also the username class `[A-Za-z0-9_]`
    | AddressChar  // `[\w\.-]`, a character of the local part or the domain of an email
    | Digit        // `[0-9]`
    | NameChar     // `isalpha() or isspace()`

  predicate IsAsciiUpper(c: char) { 'A' <= c <= 'Z' }

  predicate IsAsciiLetter(c: char) { 'A' <= c <= 'Z' || 'a' <= c <= 'z' }

  predicate IsAsciiDigit(c: char) { '0' <= c <= '9' }

  /** Python's `str.isspace` on ASCII: space, tab, line feed, vertical tab,
      form feed, carriage return and the separators 0x1C-0x1F. */
  predicate IsSpace(c: char) {
    c == ' ' || 9 <= c as int <= 13 || 28 <= c as int <= 31
  }

  predicate InClass(c: char, cls: CharClass) {
    match cls
    case WordChar => IsAsciiLetter(c) || IsAsciiDigit(c) || c == '_'
    case AddressChar => IsAsciiLetter(c) || IsAsciiDigit(c) || c == '_' || c == '.' || c == '-'
    case Digit => IsAsciiDigit(c)
    case NameChar => IsAsciiLetter(c) || IsSpace(c)
  }

  /** Every character of `s` is in `cls` (a regex run `[...]*`, or Python's `all(...)`). */
  function AllIn(s: string, cls: CharClass): (b: bool)
    ensures b <==> forall k :: 0 <= k < |s| ==> InClass(s[k], cls)
  {
    s == [] || (InClass(s[0], cls) && AllIn(s[1..], cls))
  }

  /** `is_valid_username`: `^[A-Za-z0-9_]{3,}$`. */
  function IsValidUsername(s: string): (ok: bool)
    ensures ok <==> |s| >= 3 && forall k :: 0 <= k < |s| ==> IsAsciiLetter(s[k]) || IsAsciiDigit(s[k]) || s[k] == '_'
  {
    |s| >= 3 && AllIn(s, WordChar)
  }

  /** `is_valid_phone`: `^[0-9]{10}$`. */
  function IsValidPhone(s: string): (ok: bool)
    ensures ok <==> |s| == 10 && forall k :: 0 <= k < |s| ==> IsAsciiDigit(s[k])
  {
    |s| == 10 && AllIn(s, Digit)
  }

  /** `is_valid_name`: every character is a letter or white space; the
      empty string passes. */
  function IsValidName(s: string): (ok: bool)
    ensures ok <==> forall k :: 0 <= k < |s| ==> IsAsciiLetter(s[k]) || IsSpace(s[k])
    ensures s == [] ==> ok
  {
    AllIn(s, NameChar)
  }

  /** Index of the first occurrence of `c` in `s`. */
  function IndexOf(s: string, c: char): (r: Option<nat>)
    ensures r.Some? ==> r.value < |s| && s[r.value] == c && forall k :: 0 <= k < r.value ==> s[k] != c
    ensures r.None? ==> forall k :: 0 <= k < |s| ==> s[k] != c
  {
    if s == [] then None
    else if s[0] == c then Some(0)
    else match IndexOf(s[1..], c)
      case None => None
      case Some(i) => Some(i + 1)
  }

  /** Index of the last occurrence of `c` in `s`. */
  function LastIndexOf(s: string, c: char): (r: Option<nat>)
    ensures r.Some? ==> r.value < |s| && s[r.value] == c && forall k :: r.value < k < |s| ==> s[k] != c
    ensures r.None? ==> forall k :: 0 <= k < |s| ==> s[k] != c
  {
    if s == [] then None
    else if s[|s| - 1] == c then Some(|s| - 1)
    else LastIndexOf(s[..|s| - 1], c)
  }

  /** The language of `^[\w\.-]+@[\w\.-]+\.\w+$`: `s` is `L@D.W` with
      non-empty L and D over `[\w.-]` and a non-empty W over `\w`. The two
      indices are those of the `@` and of the dot before W. */
  ghost predicate EmailShape(s: string) {
    exists at, dot :: EmailSplit(s, at, dot)
  }

  ghost predicate EmailSplit(s: string, at: int, dot: int) {
    && 0 < at && at + 1 < dot && dot + 1 < |s|
    && s[at] == '@' && s[dot] == '.'
    && AllIn(s[..at], AddressChar)
    && AllIn(s[at + 1..dot], AddressChar)
    && AllIn(s[dot + 1..], WordChar)
  }

  /** `is_valid_email`, decided without backtracking: the local part ends at
      the first `@` (it may not contain one) and the final word starts after
      the last dot (it may not contain one). See EmailMatchesPattern. */
  function IsValidEmail(s: string): (ok: bool)
    ensures ok ==> IndexOf(s, '@').Some? && LastIndexOf(s, '.').Some?
    ensures ok ==> EmailSplit(s, IndexOf(s, '@').value, LastIndexOf(s, '.').value)
  {
    match IndexOf(s, '@')
    case None => false
    case Some(at) =>
      match LastIndexOf(s, '.')
      case None => false
      case Some(dot) =>
        && 0 < at && at + 1 < dot && dot + 1 < |s|
        && AllIn(s[..at], AddressChar)
        && AllIn(s[at + 1..dot], AddressChar)
        && AllIn(s[dot + 1..], WordChar)
  }

  /** The validator accepts exactly the language of the email pattern. */
  lemma EmailMatchesPattern(s: string)
    ensures IsValidEmail(s) <==> EmailShape(s)
  {
    if IsValidEmail(s) {
      var at := IndexOf(s, '@').value;
      var dot := LastIndexOf(s, '.').value;
      assert EmailSplit(s, at, dot);
    }
    if EmailShape(s) {
      var at, dot :| EmailSplit(s, at, dot);
      // neither the local part nor the domain can hold an `@` ...
      assert forall k :: 0 <= k < at ==> s[k] != '@' by {
        forall k | 0 <= k < at ensures s[k] != '@' {
          assert s[..at][k] == s[k];
        }
      }
      assert IndexOf(s, '@') == Some(at);
      // ... and the final word cannot hold a dot
      assert forall k :: dot < k < |s| ==> s[k] != '.' by {
        forall k | dot < k < |s| ensures s[k] != '.' {
          assert s[dot + 1..][k - dot - 1] == s[k];
        }
      }
      assert LastIndexOf(s, '.') == Some(dot);
    }
  }

  /** A valid email has exactly one `@`. */
  lemma EmailHasOneAt(s: string)
    requires IsValidEmail(s)
    ensures exists at :: 0 <= at < |s| && s[at] == '@' && forall k :: 0 <= k < |s| && k != at ==> s[k] != '@'
  {
    var at := IndexOf(s, '@').value;
    var dot := LastIndexOf(s, '.').value;
    forall k | at < k < |s| ensures s[k] != '@' {
      if k < dot {
        assert s[at + 1..dot][k - at - 1] == s[k];
      } else if k > dot {
        assert s[dot + 1..][k - dot - 1] == s[k];
      }
    }
  }

  /** Python's `str.lower` on ASCII. */
  function ToLower(c: char): (d: char)
    ensures !IsAsciiUpper(d)
    ensures IsAsciiUpper(c) ==> IsAsciiLetter(d) && d != c
    ensures !IsAsciiUpper(c) ==> d == c
  {
    if IsAsciiUpper(c) then (c as int + 32) as char else c
  }

  function Lower(s: string): (r: string)
    ensures |r| == |s|
    ensures forall k :: 0 <= k < |s| ==> r[k] == ToLower(s[k])
    ensures forall k :: 0 <= k < |r| ==> !IsAsciiUpper(r[k])
    ensures forall k :: 0 <= k < |s| && !IsAsciiUpper(s[k]) ==> r[k] == s[k]
  {
    seq(|s|, k requires 0 <= k < |s| => ToLower(s[k]))
  }

  /** Python's `str.lstrip()` with no argument. */
  function StripLeft(s: string): (r: string)
    ensures |r| <= |s| && r == s[|s| - |r|..]
    ensures forall k :: 0 <= k < |s| - |r| ==> IsSpace(s[k])
    ensures r != [] ==> !IsSpace(r[0])
  {
    if s != [] && IsSpace(s[0]) then StripLeft(s[1..]) else s
  }

  /** Python's `str.rstrip()` with no argument. */
  function StripRight(s: string): (r: string)
    ensures |r| <= |s| && r == s[..|r|]
    ensures forall k :: |r| <= k < |s| ==> IsSpace(s[k])
    ensures r != [] ==> !IsSpace(r[|r| - 1])
  {
    if s != [] && IsSpace(s[|s| - 1]) then StripRight(s[..|s| - 1]) else s
  }

  /** The number of white-space characters at the start of `s`. */
  function LeadingSpace(s: string): nat {
    |s| - |StripLeft(s)|
  }

  /** Python's `str.strip()` with no argument: the result is a slice of `s`
      that neither starts nor ends with white space, and it is empty exactly
      when `s` is all white space. */
  function Strip(s: string): (r: string)
    ensures LeadingSpace(s) + |r| <= |s| && r == s[LeadingSpace(s)..LeadingSpace(s) + |r|]
    ensures forall k :: 0 <= k < LeadingSpace(s) || LeadingSpace(s) + |r| <= k < |s| ==> IsSpace(s[k])
    ensures r != [] ==> !IsSpace(r[0]) && !IsSpace(r[|r| - 1])
    ensures r == [] <==> forall k :: 0 <= k < |s| ==> IsSpace(s[k])
  {
    var left := StripLeft(s);
    var r := StripRight(left);
    assert r == s[|s| - |left|..][..|r|];
    assert s[|s| - |left|..][..|r|] == s[|s| - |left|..|s| - |left| + |r|];
    forall k | |s| - |left| + |r| <= k < |s| ensures IsSpace(s[k]) {
      assert left[k - (|s| - |left|)] == s[k];
    }
    r
  }

  /** Stripping twice is stripping once. */
  lemma StripIdempotent(s: string)
    ensures Strip(Strip(s)) == Strip(s)
  {
    var r := Strip(s);
    assert StripLeft(r) == r;
    assert StripRight(r) == r;
  }

  /** Lower-casing does not create or remove white space, so it commutes
      with stripping: `email.strip().lower()` is `email.lower().strip()`. */
  lemma {:induction false} LowerStripCommute(s: string)
    ensures Lower(Strip(s)) == Strip(Lower(s))
  {
    LowerStripLeft(s);
    LowerStripRight(StripLeft(s));
  }

  lemma {:induction false} LowerStripLeft(s: string)
    ensures Lower(StripLeft(s)) == StripLeft(Lower(s))
  {
    if s != [] && IsSpace(s[0]) {
      assert Lower(s)[1..] == Lower(s[1..]);
      LowerStripLeft(s[1..]);
    } else if s != [] {
      assert !IsSpace(Lower(s)[0]);
    }
  }

  lemma {:induction false} LowerStripRight(s: string)
    ensures Lower(StripRight(s)) == StripRight(Lower(s))
  {
    if s != [] && IsSpace(s[|s| - 1]) {
      assert Lower(s)[..|s| - 1] == Lower(s[..|s| - 1]);
      LowerStripRight(s[..|s| - 1]);
    } else if s != [] {
      assert !IsSpace(Lower(s)[|s| - 1]);
    }
  }

  /** Lower-casing keeps every email character in its class, so it neither
      makes an email valid nor invalid. */
  lemma LowerKeepsEmailValidity(s: string)
    ensures IsValidEmail(Lower(s)) <==> IsValidEmail(s)
  {
    var t := Lower(s);
    EmailMatchesPattern(s);
    EmailMatchesPattern(t);
    forall at, dot ensures EmailSplit(s, at, dot) <==> EmailSplit(t, at, dot) {
      if 0 < at && at + 1 < dot && dot + 1 < |s| {
        assert t[..at] == Lower(s[..at]);
        assert t[at + 1..dot] == Lower(s[at + 1..dot]);
        assert t[dot + 1..] == Lower(s[dot + 1..]);
        LowerKeepsClass(s[..at], AddressChar);
        LowerKeepsClass(s[at + 1..dot], AddressChar);
        LowerKeepsClass(s[dot + 1..], WordChar);
      }
    }
    if EmailShape(s) {
      var at, dot :| EmailSplit(s, at, dot);
      assert EmailSplit(t, at, dot);
    }
    if EmailShape(t) {
      var at, dot :| EmailSplit(t, at, dot);
      assert EmailSplit(s, at, dot);
    }
  }

  lemma LowerKeepsClass(s: string, cls: CharClass)
    requires cls == WordChar || cls == AddressChar
    ensures AllIn(Lower(s), cls) <==> AllIn(s, cls)
  {
  }
}
