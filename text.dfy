/** Character and string helpers standing in for the Python string methods and
    the small regular expressions the query handler uses. Characters are
    compared as ASCII: the upper-case letters are 'A'..'Z', the digits '0'..'9'. */
module Text {
  import opened Options

  predicate IsUpper(c: char) { 'A' <= c <= 'Z' }
  predicate IsLower(c: char) { 'a' <= c <= 'z' }
  predicate IsDigit(c: char) { '0' <= c <= '9' }

  /** The regular-expression class `.`: every character but a line feed. */
  predicate NotNewline(c: char) { c != '\n' }

  /** The regular-expression class `[a-zA-Z ]` used for a department name. */
  predicate IsDepartmentChar(c: char) { IsLower(c) || IsUpper(c) || c == ' ' }

  /** The characters `str.strip(" ?“”\"'")` removes from both ends of a date phrase. */
  predicate IsStripChar(c: char) {
    c == ' ' || c == '?' || c == '\U{201C}' || c == '\U{201D}' || c == '"' || c == '\''
  }

  function LowerChar(c: char): char {
    if IsUpper(c) then (c as int + 32) as char else c
  }

  function UpperChar(c: char): char {
    if IsLower(c) then (c as int - 32) as char else c
  }

  /** `str.lower()`: each upper-case letter becomes its own lower-case letter,
      every other character stays as it is. */
  function Lower(s: string): (r: string)
    ensures |r| == |s|
    ensures forall k :: 0 <= k < |r| ==> !IsUpper(r[k])
    ensures forall k :: 0 <= k < |s| ==>
      (IsUpper(s[k]) ==> IsLower(r[k]) && UpperChar(r[k]) == s[k]) && (!IsUpper(s[k]) ==> r[k] == s[k])
  {
    seq(|s|, k requires 0 <= k < |s| => LowerChar(s[k]))
  }

  /** `str.capitalize()`: first character upper case, the rest lower case. */
  function Capitalize(s: string): string {
    if s == [] then [] else [UpperChar(s[0])] + Lower(s[1..])
  }

  /** Capitalizing never changes how a name compares case-insensitively, so the
      department filter matches on the name as the query spelled it. */
  lemma LowerCapitalize(s: string)
    ensures Lower(Capitalize(s)) == Lower(s)
  {
    if s != [] {
      var c := Capitalize(s);
      forall k | 0 <= k < |s| ensures Lower(c)[k] == Lower(s)[k] {
        if k > 0 {
          assert c[k] == Lower(s[1..])[k - 1];
        }
      }
    }
  }

  /** The literal `lit` occurs in `s` at position `i`. */
  predicate StartsAt(s: string, i: nat, lit: string) {
    i + |lit| <= |s| && s[i..i + |lit|] == lit
  }

  /** Python's `lit in s`. */
  predicate Contains(s: string, lit: string) {
    exists i | 0 <= i <= |s| :: StartsAt(s, i, lit)
  }

  /** An occurrence of `lit` brings along every occurrence inside `lit`. */
  lemma ContainsInside(s: string, lit: string, part: string)
    requires Contains(s, lit) && Contains(lit, part)
    ensures Contains(s, part)
  {
    var i :| 0 <= i <= |s| && StartsAt(s, i, lit);
    var j :| 0 <= j <= |lit| && StartsAt(lit, j, part);
    forall k | 0 <= k < |part| ensures s[i + j + k] == part[k] {
      assert s[i + j + k] == s[i..i + |lit|][j + k] == lit[j + k];
      assert lit[j + k] == lit[j..j + |part|][k];
    }
    assert StartsAt(s, i + j, part);
  }

  /** Both halves of a contained concatenation are contained. */
  lemma ContainsParts(s: string, a: string, b: string)
    requires Contains(s, a + b)
    ensures Contains(s, a) && Contains(s, b)
  {
    var lit := a + b;
    assert StartsAt(lit, 0, a) by { assert lit[..|a|] == a; }
    assert StartsAt(lit, |a|, b) by { assert lit[|a|..] == b; }
    ContainsInside(s, lit, a);
    ContainsInside(s, lit, b);
  }

  /** The longest prefix of `s` whose characters all satisfy `p`: a greedy
      regular-expression repetition `[...]*` anchored at the start of `s`. */
  function TakeWhile(s: string, p: char -> bool): (r: string)
    ensures |r| <= |s| && r == s[..|r|]
    ensures forall k :: 0 <= k < |r| ==> p(r[k])
    ensures |r| < |s| ==> !p(s[|r|])
  {
    if s != [] && p(s[0]) then [s[0]] + TakeWhile(s[1..], p) else []
  }

  /** Where `str.lstrip` with the date-phrase characters stops, scanning `s`
      from position `i`. */
  function StripStart(s: string, i: nat): (n: nat)
    requires i <= |s|
    ensures i <= n <= |s|
    ensures forall k :: i <= k < n ==> IsStripChar(s[k])
    ensures n < |s| ==> !IsStripChar(s[n])
    decreases |s| - i
  {
    if i < |s| && IsStripChar(s[i]) then StripStart(s, i + 1) else i
  }

  /** Where `str.rstrip` with the date-phrase characters stops, scanning `s`
      backwards from position `j` down to `lo`. */
  function StripEnd(s: string, lo: nat, j: nat): (m: nat)
    requires lo <= j <= |s|
    ensures lo <= m <= j
    ensures forall k :: m <= k < j ==> IsStripChar(s[k])
    ensures m > lo ==> !IsStripChar(s[m - 1])
    decreases j - lo
  {
    if j > lo && IsStripChar(s[j - 1]) then StripEnd(s, lo, j - 1) else j
  }

  /** `str.strip(" ?“”\"'")`: the phrase between the first and the last character
      that is not a quote, a question mark or a space; everything cut off at
      either end is such a character. */
  function Strip(s: string): (r: string)
    ensures var i := StripStart(s, 0);
      && i + |r| <= |s| && r == s[i..i + |r|]
      && (forall k :: 0 <= k < i ==> IsStripChar(s[k]))
      && (forall k :: i + |r| <= k < |s| ==> IsStripChar(s[k]))
    ensures r != [] ==> !IsStripChar(r[0]) && !IsStripChar(r[|r| - 1])
  {
    var i := StripStart(s, 0);
    var j := StripEnd(s, i, |s|);
    assert s[i..j] == s[i..i + |s[i..j]|];
    s[i..j]
  }

  function DigitValue(c: char): nat {
    if IsDigit(c) then c as int - '0' as int else 0
  }

  /** Python's `int(...)` on a run of decimal digits. */
  function Value(digits: string): nat {
    if digits == [] then 0
    else 10 * Value(digits[..|digits| - 1]) + DigitValue(digits[|digits| - 1])
  }

  predicate AllDigits(s: string) {
    forall k :: 0 <= k < |s| ==> IsDigit(s[k])
  }

  /** The first position in `[from, n)` at which `at` finds something, with what
      it found: the leftmost-match rule of `re.search` (positions of the query) and
      of the handler's if-chain (positions in the catalogue of recognisers). */
  function First<T>(n: nat, at: nat -> Option<T>, from: nat): Option<(nat, T)>
    decreases n - from
  {
    if from >= n then None
    else match at(from)
      case Some(t) => Some((from, t))
      case None => First(n, at, from + 1)
  }

  /** `First` finds the leftmost success in the range, and nothing exactly when
      `at` succeeds nowhere in it. */
  lemma {:induction false} FirstSpec<T>(n: nat, at: nat -> Option<T>, from: nat)
    ensures var r := First(n, at, from);
      && (r.Some? ==> from <= r.value.0 < n && at(r.value.0) == Some(r.value.1))
      && (r.Some? ==> forall j :: from <= j < r.value.0 ==> at(j).None?)
      && (r.None? <==> forall j :: from <= j < n ==> at(j).None?)
    decreases n - from
  {
    if from < n && at(from).None? {
      FirstSpec(n, at, from + 1);
    }
  }
}
