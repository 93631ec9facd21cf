/** The JavaScript string primitives the validator and the normalizer lean
    on: the whitespace set shared by `String.prototype.trim` and the regular
    expression class `\s`, `trim` itself, and `split` on a one-character
    separator together with its inverse, `join`. A string is a sequence of
    `char`s. */
module JsText {

  /** LineTerminator code points of ECMAScript: LF, CR, LS and PS. The regular
      expression `.` matches every character except these. */
  predicate IsLineTerminator(c: char) {
    c == '\n' || c == '\r' || c == '\U{2028}' || c == '\U{2029}'
  }

  /** WhiteSpace and LineTerminator code points of ECMAScript: what `trim`
      strips and what `\s` matches. */
  predicate IsWhitespace(c: char) {
    || IsLineTerminator(c)
    || c == '\t' || c == '\U{000B}' || c == '\U{000C}' || c == ' '
    || c == '\U{00A0}' || c == '\U{FEFF}' || c == '\U{1680}'
    || ('\U{2000}' <= c <= '\U{200A}')
    || c == '\U{202F}' || c == '\U{205F}' || c == '\U{3000}'
  }

  /** The regular expression class `\d`: ASCII digits only. */
  predicate IsDigit(c: char) {
    '0' <= c <= '9'
  }

  /** The regular expression class `\w`: ASCII letters, digits and `_`. */
  predicate IsWordChar(c: char) {
    ('a' <= c <= 'z') || ('A' <= c <= 'Z') || IsDigit(c) || c == '_'
  }

  predicate AllWhitespace(s: string) {
    forall k :: 0 <= k < |s| ==> IsWhitespace(s[k])
  }

  predicate AllDigits(s: string) {
    forall k :: 0 <= k < |s| ==> IsDigit(s[k])
  }

  // ---------------------------------------------------------------- trim

  /** Drops leading whitespace. */
  function TrimStart(s: string): string {
    if |s| > 0 && IsWhitespace(s[0]) then TrimStart(s[1..]) else s
  }

  /** Drops trailing whitespace. */
  function TrimEnd(s: string): string {
    if |s| > 0 && IsWhitespace(s[|s| - 1]) then TrimEnd(s[..|s| - 1]) else s
  }

  /** `TrimStart` keeps a suffix of `s`, what it drops is whitespace, and
      what it keeps does not start with whitespace. */
  lemma {:induction false} TrimStartSpec(s: string)
    ensures var r := TrimStart(s);
      && |r| <= |s| && r == s[|s| - |r|..]
      && AllWhitespace(s[..|s| - |r|])
      && (r == [] || !IsWhitespace(r[0]))
  {
    if |s| > 0 && IsWhitespace(s[0]) {
      TrimStartSpec(s[1..]);
      var r := TrimStart(s);
      assert s[..|s| - |r|] == [s[0]] + s[1..][..|s| - 1 - |r|];
    }
  }

  /** `TrimEnd` keeps a prefix of `s`, what it drops is whitespace, and what
      it keeps does not end with whitespace. */
  lemma {:induction false} TrimEndSpec(s: string)
    ensures var r := TrimEnd(s);
      && |r| <= |s| && r == s[..|r|]
      && AllWhitespace(s[|r|..])
      && (r == [] || !IsWhitespace(r[|r| - 1]))
    decreases |s|
  {
    if |s| > 0 && IsWhitespace(s[|s| - 1]) {
      var t := s[..|s| - 1];
      TrimEndSpec(t);
      var r := TrimEnd(s);
      assert s[|r|..] == t[|r|..] + [s[|s| - 1]];
    }
  }

  /** `String.prototype.trim`. */
  function Trim(s: string): string {
    TrimEnd(TrimStart(s))
  }

  /** `r` is `s[i..j]`, everything of `s` outside `i..j` is whitespace and
      neither end of `r` is. */
  ghost predicate TrimmedAt(r: string, s: string, i: int, j: int) {
    && 0 <= i <= j <= |s|
    && r == s[i..j]
    && AllWhitespace(s[..i])
    && AllWhitespace(s[j..])
    && (r == [] || (!IsWhitespace(r[0]) && !IsWhitespace(r[|r| - 1])))
  }

  /** `r` is what is left of `s` once a whitespace run is cut from each end,
      and neither end of `r` is whitespace: the trim of `s`, described
      without saying how to compute it. */
  ghost predicate IsTrimOf(r: string, s: string) {
    exists i, j :: TrimmedAt(r, s, i, j)
  }

  /** Once the first non-whitespace character is known, `TrimStart` starts there. */
  lemma {:induction false} TrimStartAt(s: string, i: nat)
    requires i < |s| && AllWhitespace(s[..i]) && !IsWhitespace(s[i])
    ensures TrimStart(s) == s[i..]
  {
    if i > 0 {
      assert IsWhitespace(s[..i][0]);
      assert s[1..][..i - 1] == s[..i][1..];
      TrimStartAt(s[1..], i - 1);
      assert s[1..][i - 1..] == s[i..];
    }
  }

  /** Once the last non-whitespace character is known, `TrimEnd` stops there. */
  lemma {:induction false} TrimEndAt(s: string, j: nat)
    requires 0 < j <= |s| && AllWhitespace(s[j..]) && !IsWhitespace(s[j - 1])
    ensures TrimEnd(s) == s[..j]
    decreases |s|
  {
    if j < |s| {
      var t := s[..|s| - 1];
      assert IsWhitespace(s[j..][|s| - 1 - j]);
      assert t[j..] == s[j..|s| - 1];
      TrimEndAt(t, j);
      assert t[..j] == s[..j];
    }
  }

  /** `Trim` meets the description of a trim. */
  lemma TrimMeetsDescription(s: string)
    ensures IsTrimOf(Trim(s), s)
  {
    var a := TrimStart(s);
    var i := |s| - |a|;
    var b := TrimEnd(a);
    TrimStartSpec(s);
    TrimEndSpec(a);
    assert b == s[i..i + |b|];
    assert s[i + |b|..] == a[|b|..];
    assert b != [] ==> b[0] == a[0];
    assert TrimmedAt(b, s, i, i + |b|);
  }

  /** The description pins the trim down: nothing but `Trim(s)` is a trim of `s`. */
  lemma TrimIsUnique(s: string, r: string)
    requires IsTrimOf(r, s)
    ensures r == Trim(s)
  {
    var i, j :| TrimmedAt(r, s, i, j);
    if r == [] {
      BlankTrimIsEmpty(s, i, j);
    } else {
      ContentTrimIsSlice(s, r, i, j);
    }
  }

  lemma BlankTrimIsEmpty(s: string, i: int, j: int)
    requires TrimmedAt([], s, i, j)
    ensures Trim(s) == []
  {
    assert AllWhitespace(s) by {
      forall k | 0 <= k < |s| ensures IsWhitespace(s[k]) {
        if k < i { assert s[k] == s[..i][k]; }
        else { assert s[k] == s[j..][k - j]; }
      }
    }
    TrimEmptyIff(s);
  }

  lemma ContentTrimIsSlice(s: string, r: string, i: int, j: int)
    requires TrimmedAt(r, s, i, j) && r != []
    ensures Trim(s) == r
  {
    assert s[i] == r[0];
    TrimStartAt(s, i);
    var t := s[i..];
    assert t[j - i..] == s[j..];
    assert t[j - i - 1] == r[|r| - 1];
    TrimEndAt(t, j - i);
    assert t[..j - i] == r;
  }

  /** A string trims to the empty string exactly when it is all whitespace;
      this is how `!el.value.trim()` reads as "the field is blank". */
  lemma TrimEmptyIff(s: string)
    ensures Trim(s) == [] <==> AllWhitespace(s)
  {
    var a := TrimStart(s);
    TrimStartSpec(s);
    TrimEndSpec(a);
    assert a != [] ==> a[0] == s[|s| - |a|];
    if Trim(s) == [] {
      assert a == [];
      assert s[..|s|] == s;
    }
  }

  /** A string that neither starts nor ends with whitespace trims to itself. */
  lemma TrimOfClean(s: string)
    requires s == [] || (!IsWhitespace(s[0]) && !IsWhitespace(s[|s| - 1]))
    ensures Trim(s) == s
  {
    assert TrimmedAt(s, s, 0, |s|) by {
      assert s == s[0..|s|];
      assert s[..0] == [] && s[|s|..] == [];
    }
    TrimIsUnique(s, s);
  }

  /** Trimming twice is trimming once. */
  lemma TrimIdempotent(s: string)
    ensures Trim(Trim(s)) == Trim(s)
  {
    TrimMeetsDescription(s);
    TrimOfClean(Trim(s));
  }

  // ------------------------------------------------ counting and searching

  /** How many times `c` occurs in `s`. */
  function Count(s: string, c: char): nat {
    if s == [] then 0 else (if s[0] == c then 1 else 0) + Count(s[1..], c)
  }

  lemma {:induction false} CountAppend(a: string, b: string, c: char)
    ensures Count(a + b, c) == Count(a, c) + Count(b, c)
  {
    if a == [] {
      assert a + b == b;
    } else {
      assert (a + b)[1..] == a[1..] + b;
      CountAppend(a[1..], b, c);
    }
  }

  lemma {:induction false} CountZeroIff(s: string, c: char)
    ensures Count(s, c) == 0 <==> c !in s
  {
    if s != [] {
      CountZeroIff(s[1..], c);
      assert s == [s[0]] + s[1..];
    }
  }

  /** Index of the first `c` in `s`. */
  function IndexOf(s: string, c: char): (i: nat)
    requires c in s
    ensures i < |s| && s[i] == c && c !in s[..i]
  {
    if s[0] == c then 0 else 1 + IndexOf(s[1..], c)
  }

  /** The first occurrence is the only index with no earlier occurrence. */
  lemma IndexOfUnique(s: string, c: char, i: nat)
    requires i < |s| && s[i] == c && c !in s[..i]
    ensures IndexOf(s, c) == i
  {
  }

  // ----------------------------------------------------- split and join

  /** `parts.join(sep)`. */
  function Join(parts: seq<string>, sep: char): string
    requires |parts| > 0
  {
    if |parts| == 1 then parts[0] else parts[0] + [sep] + Join(parts[1..], sep)
  }

  /** `s.split(sep)` for a one-character separator: the pieces between
      separators, in order, empty pieces kept. Joining them back gives `s`,
      no piece holds the separator, and there is one piece more than there
      are separators. */
  function Split(s: string, sep: char): (parts: seq<string>)
    ensures |parts| == Count(s, sep) + 1
    ensures forall i :: 0 <= i < |parts| ==> sep !in parts[i]
    ensures Join(parts, sep) == s
    decreases |s|
  {
    if sep !in s then
      CountZeroIff(s, sep);
      [s]
    else
      var i := IndexOf(s, sep);
      var rest := Split(s[i + 1..], sep);
      assert s == s[..i] + [sep] + s[i + 1..];
      CountAppend(s[..i] + [sep], s[i + 1..], sep);
      CountAppend(s[..i], [sep], sep);
      CountZeroIff(s[..i], sep);
      assert ([s[..i]] + rest)[1..] == rest;
      [s[..i]] + rest
  }

  /** Splitting undoes joining pieces that hold no separator: `Split` is the
      only way to cut `s` into separator-free pieces. */
  lemma {:induction false} SplitJoin(parts: seq<string>, sep: char)
    requires |parts| > 0
    requires forall i :: 0 <= i < |parts| ==> sep !in parts[i]
    ensures Split(Join(parts, sep), sep) == parts
    decreases |parts|
  {
    if |parts| == 1 {
    } else {
      var p := parts[0];
      var tail := Join(parts[1..], sep);
      var s := Join(parts, sep);
      assert s == p + [sep] + tail;
      assert s[|p|] == sep;
      assert s[..|p|] == p;
      IndexOfUnique(s, sep, |p|);
      assert s[|p| + 1..] == tail;
      SplitJoin(parts[1..], sep);
    }
  }
}
