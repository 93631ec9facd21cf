/** The leaf validators of the registration form: e-mail, password and phone
    shapes (regular expressions in the page script, stated here character by
    character), the optional portfolio URL and the optional photo.

    Each regular expression gets two readings: a predicate over characters
    that the form uses, and a ghost predicate that follows the expression's
    own structure (`[^\s@]+@[^\s@]+\.[^\s@]+`, `(?=.*\d)(?=.*[^\w\s]).{8,}`,
    `(\+?\d{1,3}[- ]?)?\d{10}`, all anchored at both ends). A lemma shows the
    two agree on every string. */
module Rules {
  import opened Options
  import opened JsText

  // --------------------------------------------------------------- e-mail

  /** The class `[^\s@]`. */
  predicate IsEmailChar(c: char) {
    !IsWhitespace(c) && c != '@'
  }

  predicate AllEmailChars(s: string) {
    forall k :: 0 <= k < |s| ==> IsEmailChar(s[k])
  }

  predicate NoWhitespace(s: string) {
    forall k :: 0 <= k < |s| ==> !IsWhitespace(s[k])
  }

  /** A `.` that is neither the first nor the last character of `d`. */
  predicate HasInnerDot(d: string) {
    |d| >= 3 && '.' in d[1..|d| - 1]
  }

  /** `validateEmail(v)`: no whitespace, exactly one `@`, something before it,
      and after it a `.` that is neither its first nor its last character. */
  predicate ValidateEmail(v: string) {
    && NoWhitespace(v)
    && '@' in v
    && Count(v, '@') == 1
    && var at := IndexOf(v, '@');
       at > 0 && HasInnerDot(v[at + 1..])
  }

  /** `v` reads as `[^\s@]+` `@` `[^\s@]+` `\.` `[^\s@]+` with the `@` at `i`
      and the `.` at `j`. */
  ghost predicate EmailSplitAt(v: string, i: int, j: int) {
    && 0 < i && i + 1 < j && j + 1 < |v|
    && v[i] == '@' && v[j] == '.'
    && AllEmailChars(v[..i]) && AllEmailChars(v[i + 1..j]) && AllEmailChars(v[j + 1..])
  }

  /** The language of `^[^\s@]+@[^\s@]+\.[^\s@]+$`. */
  ghost predicate EmailPattern(v: string) {
    exists i, j :: EmailSplitAt(v, i, j)
  }

  /** Every character of `s` is in `[^\s@]` once `s` has neither. */
  lemma EmailCharsOf(s: string)
    requires NoWhitespace(s) && '@' !in s
    ensures AllEmailChars(s)
  {
  }

  /** A slice of a string without whitespace has none either. */
  lemma NoWhitespaceSlice(v: string, lo: int, hi: int)
    requires NoWhitespace(v) && 0 <= lo <= hi <= |v|
    ensures NoWhitespace(v[lo..hi])
  {
    forall n | 0 <= n < hi - lo ensures !IsWhitespace(v[lo..hi][n]) {
      assert v[lo..hi][n] == v[lo + n];
    }
  }

  lemma EmailAcceptedMatches(v: string)
    requires ValidateEmail(v)
    ensures EmailPattern(v)
  {
    var at := IndexOf(v, '@');
    var d := v[at + 1..];
    var k :| 0 <= k < |d[1..|d| - 1]| && d[1..|d| - 1][k] == '.';
    var j := at + 2 + k;
    assert v[j] == '.';
    NoSecondAt(v);
    var a, b, c := v[..at], v[at + 1..j], v[j + 1..];
    assert b == d[..k + 1] && c == d[k + 2..];
    NoWhitespaceSlice(v, 0, at);
    NoWhitespaceSlice(v, at + 1, j);
    NoWhitespaceSlice(v, j + 1, |v|);
    assert v[..at] == v[0..at] && v[j + 1..] == v[j + 1..|v|];
    EmailCharsOf(a);
    EmailCharsOf(b);
    EmailCharsOf(c);
    assert EmailSplitAt(v, at, j);
  }

  /** An address split as the expression reads it has its only `@` at `i`. */
  lemma EmailSplitCount(v: string, i: int, j: int)
    requires EmailSplitAt(v, i, j)
    ensures Count(v, '@') == 1 && IndexOf(v, '@') == i
  {
    var a, b, c := v[..i], v[i + 1..j], v[j + 1..];
    assert v == a + ['@'] + (b + ['.'] + c);
    assert '@' !in a && '@' !in b && '@' !in c;
    CountAppend(a + ['@'], b + ['.'] + c, '@');
    CountAppend(a, ['@'], '@');
    CountAppend(b + ['.'], c, '@');
    CountAppend(b, ['.'], '@');
    CountZeroIff(a, '@');
    CountZeroIff(b, '@');
    CountZeroIff(c, '@');
    IndexOfUnique(v, '@', i);
  }

  /** An address split as the expression reads it holds no whitespace. */
  lemma EmailSplitNoWhitespace(v: string, i: int, j: int)
    requires EmailSplitAt(v, i, j)
    ensures NoWhitespace(v)
  {
    var a, b, c := v[..i], v[i + 1..j], v[j + 1..];
    forall n | 0 <= n < |v| ensures !IsWhitespace(v[n]) {
      if n < i { assert v[n] == a[n]; }
      else if i < n < j { assert v[n] == b[n - i - 1]; }
      else if j < n { assert v[n] == c[n - j - 1]; }
    }
  }

  /** With a single `@`, nothing after the first one is an `@`. */
  lemma NoSecondAt(v: string)
    requires '@' in v && Count(v, '@') == 1
    ensures '@' !in v[IndexOf(v, '@') + 1..]
  {
    var at := IndexOf(v, '@');
    var d := v[at + 1..];
    assert v == v[..at] + [v[at]] + d;
    CountAppend(v[..at] + [v[at]], d, '@');
    CountAppend(v[..at], [v[at]], '@');
    CountZeroIff(d, '@');
  }

  lemma EmailMatchAccepted(v: string, i: int, j: int)
    requires EmailSplitAt(v, i, j)
    ensures ValidateEmail(v)
  {
    EmailSplitCount(v, i, j);
    EmailSplitNoWhitespace(v, i, j);
    var d := v[i + 1..];
    assert d[1..|d| - 1][j - i - 2] == '.';
  }

  /** The character-level e-mail rule and the regular expression accept the
      same strings. */
  lemma EmailRuleIsPattern(v: string)
    ensures ValidateEmail(v) <==> EmailPattern(v)
  {
    if ValidateEmail(v) {
      EmailAcceptedMatches(v);
    }
    if EmailPattern(v) {
      var i, j :| EmailSplitAt(v, i, j);
      EmailMatchAccepted(v, i, j);
    }
  }

  /** What an accepted address looks like, spelled out: one `@` with
      something before it, no whitespace, and a dot inside the domain. The
      empty string is rejected. */
  lemma EmailShape(v: string)
    ensures ValidateEmail(v) <==>
      exists i, j :: 0 < i && i + 1 < j && j + 1 < |v| && v[i] == '@' && v[j] == '.'
                     && Count(v, '@') == 1 && NoWhitespace(v)
    ensures !ValidateEmail("")
  {
    if ValidateEmail(v) {
      EmailAcceptedMatches(v);
      var i, j :| EmailSplitAt(v, i, j);
      assert 0 < i && i + 1 < j && j + 1 < |v| && v[i] == '@' && v[j] == '.';
    }
    if exists i, j :: 0 < i && i + 1 < j && j + 1 < |v| && v[i] == '@' && v[j] == '.'
                      && Count(v, '@') == 1 && NoWhitespace(v) {
      var i, j :| 0 < i && i + 1 < j && j + 1 < |v| && v[i] == '@' && v[j] == '.'
                  && Count(v, '@') == 1 && NoWhitespace(v);
      EmailPositionsSplit(v, i, j);
      EmailMatchAccepted(v, i, j);
    }
  }

  /** A single `@` and a later `.` with something around each, in a string
      without whitespace, are a split of the expression. */
  lemma EmailPositionsSplit(v: string, i: int, j: int)
    requires 0 < i && i + 1 < j && j + 1 < |v| && v[i] == '@' && v[j] == '.'
    requires Count(v, '@') == 1 && NoWhitespace(v)
    ensures EmailSplitAt(v, i, j)
  {
    OnlyAt(v, i);
    assert '@' !in v[..i] && '@' !in v[i + 1..j] && '@' !in v[j + 1..];
    NoWhitespaceSlice(v, 0, i);
    NoWhitespaceSlice(v, i + 1, j);
    NoWhitespaceSlice(v, j + 1, |v|);
    assert v[..i] == v[0..i] && v[j + 1..] == v[j + 1..|v|];
    EmailCharsOf(v[..i]);
    EmailCharsOf(v[i + 1..j]);
    EmailCharsOf(v[j + 1..]);
  }

  /** An ordinary address passes. */
  lemma EmailAcceptedExample(v: string)
    requires v == "asha@example.com"
    ensures ValidateEmail(v)
  {
    assert v[..4] == "asha" && v[5..12] == "example" && v[13..] == "com";
    assert EmailSplitAt(v, 4, 12);
    EmailMatchAccepted(v, 4, 12);
  }

  /** A domain without a dot fails. */
  lemma EmailNoDotExample(v: string)
    requires v == "asha@example"
    ensures !ValidateEmail(v)
  {
    IndexOfUnique(v, '@', 4);
    assert v[5..] == "example";
  }

  /** A second `@` fails. */
  lemma EmailTwoAtExample(v: string)
    requires v == "a@b@example.com"
    ensures !ValidateEmail(v)
  {
    assert v == "a@" + "b@" + "example.com";
    CountAppend("a@" + "b@", "example.com", '@');
    CountAppend("a@", "b@", '@');
  }

  /** With a single `c` in `v`, at `i`, no other index holds `c`. */
  lemma OnlyAt(v: string, i: int)
    requires 0 <= i < |v| && Count(v, v[i]) == 1
    ensures forall n :: 0 <= n < |v| && n != i ==> v[n] != v[i]
  {
    var c := v[i];
    assert v == v[..i] + [c] + v[i + 1..];
    CountAppend(v[..i] + [c], v[i + 1..], c);
    CountAppend(v[..i], [c], c);
    CountZeroIff(v[..i], c);
    CountZeroIff(v[i + 1..], c);
    forall n | 0 <= n < |v| && n != i ensures v[n] != c {
      if n < i { assert v[n] == v[..i][n]; }
      else { assert v[n] == v[i + 1..][n - i - 1]; }
    }
  }

  // -------------------------------------------------------------- password

  /** The class `[^\w\s]`: neither a word character nor whitespace. */
  predicate IsSymbol(c: char) {
    !IsWordChar(c) && !IsWhitespace(c)
  }

  predicate NoLineTerminator(s: string) {
    forall k :: 0 <= k < |s| ==> !IsLineTerminator(s[k])
  }

  /** `validatePassword(v)`: at least 8 characters, a digit, a symbol, and no
      line terminator anywhere. */
  predicate ValidatePassword(v: string) {
    && |v| >= 8
    && NoLineTerminator(v)
    && (exists k :: 0 <= k < |v| && IsDigit(v[k]))
    && (exists k :: 0 <= k < |v| && IsSymbol(v[k]))
  }

  /** The language of `^(?=.*\d)(?=.*[^\w\s]).{8,}$`: each look-ahead finds
      its character after a run of non-line-terminators, and the whole string
      is eight or more non-line-terminators. */
  ghost predicate PasswordPattern(v: string) {
    && (exists i :: 0 <= i < |v| && NoLineTerminator(v[..i]) && IsDigit(v[i]))
    && (exists i :: 0 <= i < |v| && NoLineTerminator(v[..i]) && IsSymbol(v[i]))
    && |v| >= 8 && NoLineTerminator(v)
  }

  /** The character-level password rule and the regular expression accept
      the same strings: once `.{8,}$` rules out line terminators, the
      look-aheads simply ask for a digit and a symbol somewhere. */
  lemma PasswordRuleIsPattern(v: string)
    ensures ValidatePassword(v) <==> PasswordPattern(v)
  {
    if ValidatePassword(v) {
      var d :| 0 <= d < |v| && IsDigit(v[d]);
      var s :| 0 <= s < |v| && IsSymbol(v[s]);
      assert NoLineTerminator(v[..d]) by {
        forall n | 0 <= n < d ensures !IsLineTerminator(v[..d][n]) { assert v[..d][n] == v[n]; }
      }
      assert NoLineTerminator(v[..s]) by {
        forall n | 0 <= n < s ensures !IsLineTerminator(v[..s][n]) { assert v[..s][n] == v[n]; }
      }
    }
  }

  /** One left-to-right pass over the password deciding the rule, the way a
      matcher that tracks the three look-ahead conditions would. */
  method CheckPassword(v: string) returns (ok: bool)
    ensures ok <==> ValidatePassword(v)
  {
    var sawDigit, sawSymbol, sawBreak := false, false, false;
    var k := 0;
    while k < |v|
      invariant 0 <= k <= |v|
      invariant sawDigit <==> exists i :: 0 <= i < k && IsDigit(v[i])
      invariant sawSymbol <==> exists i :: 0 <= i < k && IsSymbol(v[i])
      invariant sawBreak <==> exists i :: 0 <= i < k && IsLineTerminator(v[i])
    {
      var c := v[k];
      sawDigit := sawDigit || IsDigit(c);
      sawSymbol := sawSymbol || IsSymbol(c);
      sawBreak := sawBreak || IsLineTerminator(c);
      k := k + 1;
    }
    ok := |v| >= 8 && sawDigit && sawSymbol && !sawBreak;
  }

  /** The examples the rule is known by: `abcd1234` has no symbol,
      `abcd123!` has everything at the minimum length, and a digit and a
      symbol alone are too short. */
  lemma PasswordExamples()
    ensures !ValidatePassword("abcd1234")
    ensures ValidatePassword("abcd123!")
    ensures !ValidatePassword("1!")
  {
    assert IsDigit("abcd123!"[4]) && IsSymbol("abcd123!"[7]);
    assert forall k :: 0 <= k < 8 ==> IsWordChar("abcd1234"[k]);
  }

  // ----------------------------------------------------------------- phone

  predicate IsPhoneSeparator(c: char) {
    c == '-' || c == ' '
  }

  /** The optional country-code group `\+?\d{1,3}[- ]?`, decided
      character by character: a leading `+` is the sign, a trailing `-` or
      space is the separator, and what lies between is 1 to 3 digits. */
  predicate PhonePrefixOk(p: string) {
    || p == []
    || var a := if p[0] == '+' then 1 else 0;
       var b := if |p| > a && IsPhoneSeparator(p[|p| - 1]) then 1 else 0;
       1 <= |p| - a - b <= 3 && AllDigits(p[a..|p| - b])
  }

  /** `validatePhone(v)`: the last ten characters are digits and whatever
      precedes them is a country-code group or nothing. */
  predicate ValidatePhone(v: string) {
    |v| >= 10 && AllDigits(v[|v| - 10..]) && PhonePrefixOk(v[..|v| - 10])
  }

  /** `p` reads as `\+?\d{1,3}[- ]?` with a sign of length `a` and a
      separator of length `b`. */
  ghost predicate PrefixSplitAt(p: string, a: int, b: int) {
    && 0 <= a <= 1 && 0 <= b <= 1 && a + b <= |p|
    && (a == 1 ==> p[0] == '+')
    && (b == 1 ==> IsPhoneSeparator(p[|p| - 1]))
    && 1 <= |p| - a - b <= 3
    && AllDigits(p[a..|p| - b])
  }

  /** The language of `\+?\d{1,3}[- ]?`. */
  ghost predicate PrefixPattern(p: string) {
    exists a, b :: PrefixSplitAt(p, a, b)
  }

  /** The language of `^(\+?\d{1,3}[- ]?)?\d{10}$`. */
  ghost predicate PhonePattern(v: string) {
    && |v| >= 10
    && AllDigits(v[|v| - 10..])
    && (|v| == 10 || PrefixPattern(v[..|v| - 10]))
  }

  /** The regular expression leaves no choice in how the group is read: a
      `+` in front must be the sign and a trailing `-` or space must be the
      separator. */
  lemma PrefixSplitForced(p: string, a: int, b: int)
    requires PrefixSplitAt(p, a, b)
    ensures a == (if p[0] == '+' then 1 else 0)
    ensures b == (if |p| > a && IsPhoneSeparator(p[|p| - 1]) then 1 else 0)
    ensures PhonePrefixOk(p)
  {
    var a' := if p[0] == '+' then 1 else 0;
    var b' := if |p| > a' && IsPhoneSeparator(p[|p| - 1]) then 1 else 0;
    assert a == 0 ==> IsDigit(p[a..|p| - b][0]);
    assert b == 0 ==> IsDigit(p[a..|p| - b][|p| - b - a - 1]);
    assert a' == a && b' == b;
  }

  /** The character-level phone rule and the regular expression accept the
      same strings. */
  lemma PhoneRuleIsPattern(v: string)
    ensures ValidatePhone(v) <==> PhonePattern(v)
  {
    if |v| > 10 {
      var p := v[..|v| - 10];
      if PhonePrefixOk(p) {
        var a := if p[0] == '+' then 1 else 0;
        var b := if |p| > a && IsPhoneSeparator(p[|p| - 1]) then 1 else 0;
        assert PrefixSplitAt(p, a, b);
      }
      if PrefixPattern(p) {
        var a, b :| PrefixSplitAt(p, a, b);
        PrefixSplitForced(p, a, b);
      }
    }
  }

  /** What an accepted number looks like: any ten digits pass; an accepted
      number has 10 to 15 characters and ends in ten digits. */
  lemma PhoneShape(v: string)
    ensures |v| == 10 && AllDigits(v) ==> ValidatePhone(v)
    ensures ValidatePhone(v) ==> 10 <= |v| <= 15
    ensures ValidatePhone(v) ==> AllDigits(v[|v| - 10..])
  {
    if |v| == 10 {
      assert v[..0] == [] && v[0..] == v;
    }
  }

  /** An accepted number has a `+` at most once, and only as its first
      character. */
  lemma PhonePlusOnlyFirst(v: string)
    requires ValidatePhone(v)
    ensures forall k :: 0 < k < |v| ==> v[k] != '+'
  {
    var p := v[..|v| - 10];
    var t := v[|v| - 10..];
    assert forall k :: |v| - 10 <= k < |v| ==> v[k] == t[k - (|v| - 10)];
    if p != [] {
      PrefixPlusOnlyFirst(p);
    }
    forall k | 0 < k < |p| ensures v[k] != '+' {
      assert v[k] == p[k];
    }
  }

  lemma PrefixPlusOnlyFirst(p: string)
    requires p != [] && PhonePrefixOk(p)
    ensures forall k :: 0 < k < |p| ==> p[k] != '+'
  {
    var a := if p[0] == '+' then 1 else 0;
    var b := if |p| > a && IsPhoneSeparator(p[|p| - 1]) then 1 else 0;
    var m := p[a..|p| - b];
    forall k | 0 < k < |p| ensures p[k] != '+' {
      if k < |p| - b { assert p[k] == m[k - a]; }
    }
  }

  /** Numbers the rule is known to accept: bare ten digits, and a country
      code with a space or a hyphen. */
  lemma PhoneExamples()
    ensures ValidatePhone("9876543210")
    ensures ValidatePhone("+1 9876543210")
    ensures ValidatePhone("+91-9876543210")
  {
    PhoneWithCode("+1 9876543210", 1);
    PhoneWithCode("+91-9876543210", 2);
  }

  /** `+`, a code of `n` digits, a separator and ten digits. */
  lemma PhoneWithCode(v: string, n: int)
    requires 1 <= n <= 3 && |v| == n + 12
    requires v[0] == '+' && IsPhoneSeparator(v[n + 1])
    requires AllDigits(v[1..n + 1]) && AllDigits(v[n + 2..])
    ensures ValidatePhone(v)
  {
    var p := v[..|v| - 10];
    assert p[1..|p| - 1] == v[1..n + 1];
    assert v[|v| - 10..] == v[n + 2..];
  }

  /** Numbers the rule is known to reject: too short, and a four-digit code. */
  lemma PhoneRejectedExamples()
    ensures !ValidatePhone("98765")
    ensures !ValidatePhone("+1234 9876543210")
  {
    var x := "+1234 9876543210";
    assert x[..|x| - 10] == "+1234 ";
  }

  // ------------------------------------------------------------------- URL

  /** `validateUrl(v)` for the trimmed portfolio value. Whether `new URL(v)`
      accepts a non-empty `v` is the WHATWG URL parser's business and is
      passed in as `parses`; the rule itself only lets an empty value
      through untouched. */
  function ValidateUrl(v: string, parses: bool): (ok: bool)
    ensures v == [] ==> ok
    ensures v != [] ==> (ok <==> parses)
  {
    if v == [] then true else parses
  }

  // ------------------------------------------------------------------ photo

  /** What the page sees of a chosen file: its MIME type and its size in bytes. */
  datatype FileInfo = FileInfo(mimeType: string, size: nat)

  const AcceptedImageTypes: seq<string> := ["image/png", "image/jpeg"]

  /** 2 MiB. */
  const MaxPhotoBytes: nat := 2 * 1024 * 1024

  /** `validateFile(file)`: no file is fine; a file must be a PNG or a JPEG
      of at most 2 MiB. */
  function ValidateFile(file: Option<FileInfo>): (ok: bool)
    ensures file.None? ==> ok
    ensures file.Some? ==>
      (ok <==> (file.value.mimeType == "image/png" || file.value.mimeType == "image/jpeg")
               && file.value.size <= 2097152)
  {
    match file
    case None => true
    case Some(f) => f.mimeType in AcceptedImageTypes && f.size <= MaxPhotoBytes
  }

  /** The size bound is inclusive, and only the two exact MIME types pass. */
  lemma PhotoBoundary()
    ensures ValidateFile(Some(FileInfo("image/png", 2097152)))
    ensures !ValidateFile(Some(FileInfo("image/png", 2097153)))
    ensures !ValidateFile(Some(FileInfo("image/gif", 1)))
    ensures !ValidateFile(Some(FileInfo("image/jpg", 1)))
  {
  }
}
