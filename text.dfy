/** The JavaScript string operations the application relies on, over
    `string` = `seq<char>`: the `\s` character class (which is also what
    `String.prototype.trim` strips), `trim`, `startsWith`, `split` on one
    character, `Array.prototype.join`, decimal rendering of a number inside
    a template literal, ASCII case mapping and the ordering used to break
    ties between team names. */
module Text {

  /** JavaScript `\s`: WhiteSpace and LineTerminator code points
      (TAB, LF, VT, FF, CR, SPACE, NBSP, U+1680, U+2000-U+200A, U+2028,
      U+2029, U+202F, U+205F, U+3000, U+FEFF). */
  predicate IsSpace(c: char) {
    var k := c as int;
    (9 <= k <= 13) || k == 32 || k == 0xA0 || k == 0x1680 ||
    (0x2000 <= k <= 0x200A) || k == 0x2028 || k == 0x2029 ||
    k == 0x202F || k == 0x205F || k == 0x3000 || k == 0xFEFF
  }

  predicate IsDigit(c: char) { '0' <= c <= '9' }
  predicate IsLower(c: char) { 'a' <= c <= 'z' }
  predicate IsUpper(c: char) { 'A' <= c <= 'Z' }

  /** JavaScript `\w` (without the `u` flag): `[A-Za-z0-9_]`. */
  predicate IsWordChar(c: char) { IsLower(c) || IsUpper(c) || IsDigit(c) || c == '_' }

  function ToUpperAscii(c: char): (u: char)
    ensures IsLower(c) ==> IsUpper(u)
    ensures !IsLower(c) ==> u == c
  {
    if IsLower(c) then (c as int - 32) as char else c
  }

  function ToLowerAscii(c: char): (l: char)
    ensures IsUpper(c) ==> IsLower(l)
    ensures !IsUpper(c) ==> l == c
  {
    if IsUpper(c) then (c as int + 32) as char else c
  }

  function UpperAscii(s: string): (u: string)
    ensures |u| == |s|
    ensures forall k :: 0 <= k < |s| ==> u[k] == ToUpperAscii(s[k])
  {
    if s == [] then [] else [ToUpperAscii(s[0])] + UpperAscii(s[1..])
  }

  // ---------------------------------------------------------------- trim

  function TrimStart(s: string): (r: string)
    ensures |r| <= |s| && r == s[|s| - |r|..]
    ensures r != [] ==> !IsSpace(r[0])
    ensures forall k :: 0 <= k < |s| - |r| ==> IsSpace(s[k])
  {
    if s != [] && IsSpace(s[0]) then TrimStart(s[1..]) else s
  }

  function TrimEnd(s: string): (r: string)
    ensures |r| <= |s| && r == s[..|r|]
    ensures r != [] ==> !IsSpace(r[|r| - 1])
    ensures forall k :: |r| <= k < |s| ==> IsSpace(s[k])
  {
    if s != [] && IsSpace(s[|s| - 1]) then TrimEnd(s[..|s| - 1]) else s
  }

  /** `String.prototype.trim`: the longest infix with no `\s` at either end,
      everything cut off being `\s`. */
  function Trim(s: string): (r: string)
    ensures r != [] ==> !IsSpace(r[0]) && !IsSpace(r[|r| - 1])
    ensures LeadingSpaces(s) + |r| <= |s|
    ensures r == s[LeadingSpaces(s)..LeadingSpaces(s) + |r|]
    ensures forall k :: 0 <= k < LeadingSpaces(s) ==> IsSpace(s[k])
    ensures forall k :: LeadingSpaces(s) + |r| <= k < |s| ==> IsSpace(s[k])
  {
    TrimEnd(TrimStart(s))
  }

  /** How many `\s` characters `trim` removes from the front. */
  function LeadingSpaces(s: string): nat {
    |s| - |TrimStart(s)|
  }

  lemma TrimAllSpace(s: string)
    requires forall k :: 0 <= k < |s| ==> IsSpace(s[k])
    ensures Trim(s) == []
  {
  }

  // ----------------------------------------------------------- prefixes

  /** `String.prototype.startsWith`. */
  predicate StartsWith(s: string, prefix: string) {
    |prefix| <= |s| && s[..|prefix|] == prefix
  }

  // -------------------------------------------------------- split / join

  /** `s.split(sep)` for a one-character separator: the pieces between
      separators, at least one (the empty string splits into `[""]`). */
  function Split(s: string, sep: char): (parts: seq<string>)
    ensures |parts| >= 1
    ensures forall p :: p in parts ==> sep !in p
  {
    if s == [] then [""]
    else
      var rest := Split(s[1..], sep);
      if s[0] == sep then [""] + rest
      else [[s[0]] + rest[0]] + rest[1..]
  }

  /** `parts.join(sep)`. */
  function Join(parts: seq<string>, sep: string): string {
    if parts == [] then ""
    else if |parts| == 1 then parts[0]
    else parts[0] + sep + Join(parts[1..], sep)
  }

  /** Splitting on a character and joining with it gives the string back. */
  lemma {:induction false} JoinSplit(s: string, sep: char)
    ensures Join(Split(s, sep), [sep]) == s
  {
    if s != [] {
      var rest := Split(s[1..], sep);
      JoinSplit(s[1..], sep);
      if s[0] == sep {
        assert Split(s, sep) == [""] + rest;
        assert ([""] + rest)[1..] == rest;
      } else {
        var parts := [[s[0]] + rest[0]] + rest[1..];
        assert Split(s, sep) == parts;
        if |rest| == 1 {
          assert Join(rest, [sep]) == rest[0];
        } else {
          assert Join(rest, [sep]) == rest[0] + [sep] + Join(rest[1..], [sep]);
          assert parts[1..] == rest[1..];
        }
      }
    }
  }

  /** `parts.filter(Boolean)`: the pieces that are not the empty string,
      in order. */
  function NonEmpty(parts: seq<string>): (kept: seq<string>)
    ensures |kept| <= |parts|
    ensures forall s :: s in kept ==> s != [] && s in parts
    ensures forall k :: 0 <= k < |kept| ==> kept[k] != []
    ensures forall s :: s in parts && s != [] ==> s in kept
  {
    if parts == [] then []
    else if parts[0] == [] then NonEmpty(parts[1..])
    else [parts[0]] + NonEmpty(parts[1..])
  }

  /** Pieces that are all non-empty are kept as they are. */
  lemma {:induction false} NonEmptyKeeps(parts: seq<string>)
    requires forall s :: s in parts ==> s != []
    ensures NonEmpty(parts) == parts
  {
    if parts != [] {
      assert parts[0] in parts;
      assert forall s :: s in parts[1..] ==> s in parts;
      NonEmptyKeeps(parts[1..]);
      assert [parts[0]] + parts[1..] == parts;
    }
  }

  // ------------------------------------------------------------ decimals

  function DigitChar(d: nat): (c: char)
    requires d < 10
    ensures IsDigit(c)
  {
    ('0' as int + d) as char
  }

  /** A natural number as a template literal renders it: decimal, no
      leading zeros. */
  function NatToString(n: nat): (s: string)
    ensures |s| >= 1
    ensures forall k :: 0 <= k < |s| ==> IsDigit(s[k])
    decreases n
  {
    if n < 10 then [DigitChar(n)] else NatToString(n / 10) + [DigitChar(n % 10)]
  }

  /** An integer as a template literal renders it: a minus sign before
      the decimal digits of a negative number. */
  function IntToString(i: int): (s: string)
    ensures |s| >= 1
    ensures i >= 0 ==> s == NatToString(i)
    ensures i < 0 ==> s[0] == '-' && s[1..] == NatToString(-i)
  {
    if i < 0 then "-" + NatToString(-i) else NatToString(i)
  }

  /** The value of a string of decimal digits. */
  function DecimalValue(s: string): nat
    requires forall k :: 0 <= k < |s| ==> IsDigit(s[k])
  {
    if s == [] then 0
    else
      assert IsDigit(s[|s| - 1]);
      DecimalValue(s[..|s| - 1]) * 10 + (s[|s| - 1] as int - '0' as int)
  }

  /** Reading back the decimal rendering gives the number. */
  lemma {:induction false} DecimalRoundTrip(n: nat)
    ensures DecimalValue(NatToString(n)) == n
  {
    if n >= 10 {
      var s := NatToString(n);
      DecimalRoundTrip(n / 10);
      assert s[..|s| - 1] == NatToString(n / 10);
    }
  }

  /** Different numbers render differently. */
  lemma NatToStringInjective(i: nat, j: nat)
    requires NatToString(i) == NatToString(j)
    ensures i == j
  {
    DecimalRoundTrip(i);
    DecimalRoundTrip(j);
  }

  // ------------------------------------------------- lexicographic order

  /** Code-point lexicographic order: `a` is a prefix of `b`, or at the
      first difference `a` has the smaller character. */
  predicate LexLe(a: string, b: string) {
    a == [] || (b != [] && (a[0] < b[0] || (a[0] == b[0] && LexLe(a[1..], b[1..]))))
  }

  lemma {:induction false} LexLeTotal(a: string, b: string)
    ensures LexLe(a, b) || LexLe(b, a)
  {
    if a != [] && b != [] && a[0] == b[0] {
      LexLeTotal(a[1..], b[1..]);
    }
  }

  lemma {:induction false} LexLeTransitive(a: string, b: string, c: string)
    requires LexLe(a, b) && LexLe(b, c)
    ensures LexLe(a, c)
  {
    if a != [] && b != [] && c != [] && a[0] == b[0] && b[0] == c[0] {
      LexLeTransitive(a[1..], b[1..], c[1..]);
    }
  }

  lemma {:induction false} LexLeAntisymmetric(a: string, b: string)
    requires LexLe(a, b) && LexLe(b, a)
    ensures a == b
  {
    if a != [] && b != [] {
      LexLeAntisymmetric(a[1..], b[1..]);
      assert a == [a[0]] + a[1..];
      assert b == [b[0]] + b[1..];
    }
  }
}
