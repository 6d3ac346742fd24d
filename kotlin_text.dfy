/** The Kotlin `String` operations the app applies: `isBlank`, `trim`, `replace`,
    `length` and decimal formatting in string templates. */
module KotlinText {
  import opened Wrappers

  /** `Char.isWhitespace()`: Java's `Character.isWhitespace` or `Character.isSpaceChar`. */
  predicate IsWhitespace(c: char) {
    || ('\t' <= c <= '\r')              // tab, line feed, vertical tab, form feed, carriage return
    || ('\U{1C}' <= c <= '\U{1F}')      // file, group, record and unit separators
    || c == ' ' || c == '\U{A0}' || c == '\U{1680}'
    || ('\U{2000}' <= c <= '\U{200A}')
    || c == '\U{2028}' || c == '\U{2029}' || c == '\U{202F}' || c == '\U{205F}' || c == '\U{3000}'
  }

  /** `String.isBlank()`: empty or whitespace only. */
  predicate IsBlank(s: string) {
    forall i :: 0 <= i < |s| ==> IsWhitespace(s[i])
  }

  /** Leading whitespace removed. */
  function TrimStart(s: string): (r: string)
    ensures |r| <= |s| && r == s[|s| - |r|..]
    ensures r == [] || !IsWhitespace(r[0])
    ensures forall i :: 0 <= i < |s| - |r| ==> IsWhitespace(s[i])
  {
    if s == [] || !IsWhitespace(s[0]) then s else TrimStart(s[1..])
  }

  /** Trailing whitespace removed. */
  function TrimEnd(s: string): (r: string)
    ensures |r| <= |s| && r == s[..|r|]
    ensures r == [] || !IsWhitespace(r[|r| - 1])
    ensures forall i :: |r| <= i < |s| ==> IsWhitespace(s[i])
  {
    if s == [] || !IsWhitespace(s[|s| - 1]) then s else TrimEnd(s[..|s| - 1])
  }

  /** `String.trim()`: a contiguous piece of `s` that neither starts nor ends with whitespace. */
  function Trim(s: string): (r: string)
    ensures exists i, j :: 0 <= i <= j <= |s| && r == s[i..j]
    ensures r == [] || (!IsWhitespace(r[0]) && !IsWhitespace(r[|r| - 1]))
  {
    var a := TrimStart(s);
    var b := TrimEnd(a);
    assert b == s[|s| - |a|..|s| - |a| + |b|];
    assert b != [] ==> b[0] == a[0];
    b
  }

  /** A string that is already trimmed is left alone. */
  lemma TrimOfTrimmed(s: string)
    requires s == [] || (!IsWhitespace(s[0]) && !IsWhitespace(s[|s| - 1]))
    ensures Trim(s) == s
  {
  }

  /** `pat` occurs in `s` starting at index `i`. */
  predicate OccursAt(s: string, pat: string, i: nat) {
    i + |pat| <= |s| && s[i..i + |pat|] == pat
  }

  predicate Occurs(s: string, pat: string) {
    exists i :: 0 <= i <= |s| && OccursAt(s, pat, i)
  }

  /** `s.replace(pat, "")`: every occurrence found scanning left to right is deleted. */
  function DeleteAll(s: string, pat: string): (r: string)
    requires |pat| > 0
    ensures |r| <= |s|
    decreases |s|
  {
    if |s| < |pat| then s
    else if s[..|pat|] == pat then DeleteAll(s[|pat|..], pat)
    else [s[0]] + DeleteAll(s[1..], pat)
  }

  /** Deleting a pattern that does not occur changes nothing. */
  lemma {:induction false} DeleteAbsent(s: string, pat: string)
    requires |pat| > 0 && !Occurs(s, pat)
    ensures DeleteAll(s, pat) == s
    decreases |s|
  {
    if |s| >= |pat| {
      assert !OccursAt(s, pat, 0);
      assert !Occurs(s[1..], pat) by {
        forall i | 0 <= i <= |s[1..]| ensures !OccursAt(s[1..], pat, i) {
          assert !OccursAt(s, pat, i + 1);
          if i + |pat| <= |s[1..]| {
            assert s[1..][i..i + |pat|] == s[i + 1..i + 1 + |pat|];
          }
        }
      }
      DeleteAbsent(s[1..], pat);
    }
  }

  /** `s.length`: Kotlin counts UTF-16 code units, so a character outside the
      Basic Multilingual Plane counts twice. */
  function Utf16Length(s: string): (n: nat)
    ensures |s| <= n <= 2 * |s|
  {
    if s == [] then 0 else (if s[0] as int > 0xFFFF then 2 else 1) + Utf16Length(s[1..])
  }

  /** Decimal digits of `n`, as a string template prints an `Int`. */
  function NatToString(n: nat): (r: string)
    ensures |r| >= 1
    ensures forall i :: 0 <= i < |r| ==> '0' <= r[i] <= '9'
    decreases n
  {
    var d := ['0' + (n % 10) as char];
    if n < 10 then d else NatToString(n / 10) + d
  }

  /** `"$i"` for an `Int` that may be negative. */
  function IntToString(i: int): (r: string)
    ensures |r| >= 1
    ensures (r[0] == '-') <==> i < 0
  {
    if i < 0 then "-" + NatToString(-i) else NatToString(i)
  }

  /** `"$x"` for a nullable string: null prints as "null". */
  function NullableToString(x: Option<string>): string {
    match x
    case Some(v) => v
    case None => "null"
  }
}
