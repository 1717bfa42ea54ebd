/** The JavaScript string primitives the value objects are built from:
    the white-space class shared by `String.prototype.trim` and the
    regular-expression escape `\s`, ASCII case mapping, `includes`,
    `split` on a one-character separator, `join`, and hexadecimal digits. */
module JsString {

  /** JavaScript's WhiteSpace and LineTerminator code points. `trim` strips
      exactly these, and `\s` in a regular expression matches exactly these. */
  predicate IsWhitespace(c: char) {
    var n := c as int;
    n == 0x09 || n == 0x0A || n == 0x0B || n == 0x0C || n == 0x0D || n == 0x20
    || n == 0xA0 || n == 0x1680 || (0x2000 <= n <= 0x200A)
    || n == 0x2028 || n == 0x2029 || n == 0x202F || n == 0x205F
    || n == 0x3000 || n == 0xFEFF
  }

  /** `length`: the number of UTF-16 code units, one per character up to
      U+FFFF and two (a surrogate pair) per character above. */
  function Utf16Length(s: string): (n: nat)
    ensures |s| <= n <= 2 * |s|
    decreases |s|
  {
    if |s| == 0 then 0 else (if s[0] as int > 0xFFFF then 2 else 1) + Utf16Length(s[1..])
  }

  /** Characters of the Basic Multilingual Plane count one code unit each. */
  lemma {:induction false} Utf16LengthOfBmp(s: string)
    requires forall i | 0 <= i < |s| :: s[i] as int <= 0xFFFF
    ensures Utf16Length(s) == |s|
    decreases |s|
  {
    if |s| > 0 {
      Utf16LengthOfBmp(s[1..]);
    }
  }

  lemma {:induction false} Utf16LengthAppend(a: string, b: string)
    ensures Utf16Length(a + b) == Utf16Length(a) + Utf16Length(b)
    decreases |a|
  {
    if |a| > 0 {
      Utf16LengthAppend(a[1..], b);
      assert (a + b)[1..] == a[1..] + b;
    } else {
      assert a + b == b;
    }
  }

  /** Characters above U+FFFF count two code units each. */
  lemma {:induction false} Utf16LengthOfAstral(s: string)
    requires forall i | 0 <= i < |s| :: s[i] as int > 0xFFFF
    ensures Utf16Length(s) == 2 * |s|
    decreases |s|
  {
    if |s| > 0 {
      Utf16LengthOfAstral(s[1..]);
    }
  }

  predicate NoWhitespace(s: string) {
    forall i | 0 <= i < |s| :: !IsWhitespace(s[i])
  }

  predicate IsAsciiUpper(c: char) { 'A' <= c <= 'Z' }

  predicate IsAsciiLower(c: char) { 'a' <= c <= 'z' }

  predicate IsAsciiLetter(c: char) { IsAsciiUpper(c) || IsAsciiLower(c) }

  predicate NoAsciiUpper(s: string) {
    forall i | 0 <= i < |s| :: !IsAsciiUpper(s[i])
  }

  // ---------------------------------------------------------------------
  // Case mapping

  function ToLowerChar(c: char): (r: char)
    ensures !IsAsciiUpper(r)
    ensures IsWhitespace(r) <==> IsWhitespace(c)
    ensures !IsAsciiUpper(c) ==> r == c
  {
    if IsAsciiUpper(c) then (c as int + 32) as char else c
  }

  function ToUpperChar(c: char): (r: char)
    ensures !IsAsciiLower(r)
    ensures !IsAsciiLower(c) ==> r == c
  {
    if IsAsciiLower(c) then (c as int - 32) as char else c
  }

  /** `toLowerCase`, restricted to the ASCII letters. */
  function ToLower(s: string): (r: string)
    ensures |r| == |s|
    ensures forall i | 0 <= i < |s| :: r[i] == ToLowerChar(s[i])
  {
    seq(|s|, i requires 0 <= i < |s| => ToLowerChar(s[i]))
  }

  /** Lower-casing leaves no upper-case letter and changes nothing else:
      a string without upper-case letters is its own lower case. */
  lemma ToLowerSpec(s: string)
    ensures NoAsciiUpper(ToLower(s))
    ensures NoAsciiUpper(s) ==> ToLower(s) == s
  {
  }

  // ---------------------------------------------------------------------
  // Trimming

  predicate IsTrimmed(s: string) {
    |s| == 0 || (!IsWhitespace(s[0]) && !IsWhitespace(s[|s| - 1]))
  }

  /** `r` is the slice `s[lo..lo + |r|]` and everything around it is white space. */
  predicate TrimmedSliceAt(s: string, r: string, lo: int) {
    0 <= lo && lo + |r| <= |s| && r == s[lo..lo + |r|]
    && (forall i | 0 <= i < lo :: IsWhitespace(s[i]))
    && (forall i | lo + |r| <= i < |s| :: IsWhitespace(s[i]))
  }

  /** The index of the first character at or after `i` that is not white space. */
  function LeadingEnd(s: string, i: nat): (r: nat)
    requires i <= |s|
    ensures i <= r <= |s|
    ensures forall k | i <= k < r :: IsWhitespace(s[k])
    ensures r < |s| ==> !IsWhitespace(s[r])
    decreases |s| - i
  {
    if i < |s| && IsWhitespace(s[i]) then LeadingEnd(s, i + 1) else i
  }

  /** The index just past the last character before `j` that is not white space. */
  function TrailingStart(s: string, j: nat): (r: nat)
    requires j <= |s|
    ensures r <= j
    ensures forall k | r <= k < j :: IsWhitespace(s[k])
    ensures r > 0 ==> !IsWhitespace(s[r - 1])
    decreases j
  {
    if j > 0 && IsWhitespace(s[j - 1]) then TrailingStart(s, j - 1) else j
  }

  /** The number of white-space characters `trim` removes at the front. */
  function TrimOffset(s: string): nat
    ensures TrimOffset(s) <= |s|
  {
    LeadingEnd(s, 0)
  }

  /** `String.prototype.trim`: the text between the leading and the
      trailing white space. */
  function Trim(s: string): (r: string)
    ensures IsTrimmed(r)
    ensures TrimmedSliceAt(s, r, TrimOffset(s))
  {
    var lo, hi := LeadingEnd(s, 0), TrailingStart(s, |s|);
    if hi <= lo then [] else s[lo..hi]
  }

  /** Trimming leaves an already trimmed string alone, so it is idempotent. */
  lemma TrimOfTrimmed(s: string)
    requires IsTrimmed(s)
    ensures Trim(s) == s
  {
    var r := Trim(s);
    var lo := TrimOffset(s);
    if |s| > 0 {
      assert !IsWhitespace(s[0]) && !IsWhitespace(s[|s| - 1]);
      assert lo == 0;
      assert lo + |r| == |s|;
    }
  }

  /** Trimming is determined by where the white space is: a trimmed slice
      with only white space around it is the result of `Trim`. */
  lemma TrimUnique(s: string, r: string, lo: int)
    requires TrimmedSliceAt(s, r, lo) && IsTrimmed(r)
    ensures Trim(s) == r
  {
    var t := Trim(s);
    var lo2 := TrimOffset(s);
    if |r| > 0 && |t| > 0 {
      assert s[lo] == r[0] && s[lo2] == t[0];
      assert lo == lo2;
      assert s[lo + |r| - 1] == r[|r| - 1] && s[lo2 + |t| - 1] == t[|t| - 1];
      assert |r| == |t|;
    } else if |r| > 0 || |t| > 0 {
      assert false;
    }
  }

  /** Lower-casing keeps white space where it was, so it commutes with trimming. */
  lemma TrimCommutesWithLower(s: string)
    ensures ToLower(Trim(s)) == Trim(ToLower(s))
  {
    var t := Trim(s);
    var lo := TrimOffset(s);
    LowerKeepsSlice(s, t, lo);
    LowerKeepsTrimmed(t);
    TrimUnique(ToLower(s), ToLower(t), lo);
  }

  lemma LowerKeepsSlice(s: string, t: string, lo: int)
    requires TrimmedSliceAt(s, t, lo)
    ensures TrimmedSliceAt(ToLower(s), ToLower(t), lo)
  {
    var ls, lt := ToLower(s), ToLower(t);
    LowerOfSlice(s, lo, lo + |t|);
    assert lt == ls[lo..lo + |t|];
    assert forall i | 0 <= i < lo :: IsWhitespace(ls[i]);
    assert forall i | lo + |lt| <= i < |ls| :: IsWhitespace(ls[i]);
  }

  lemma LowerKeepsTrimmed(t: string)
    requires IsTrimmed(t)
    ensures IsTrimmed(ToLower(t))
  {
    if |t| > 0 {
      var lt := ToLower(t);
      assert lt[0] == ToLowerChar(t[0]);
      assert lt[|t| - 1] == ToLowerChar(t[|t| - 1]);
    }
  }

  lemma LowerOfSlice(s: string, lo: int, hi: int)
    requires 0 <= lo <= hi <= |s|
    ensures ToLower(s[lo..hi]) == ToLower(s)[lo..hi]
  {
    var a, b := ToLower(s[lo..hi]), ToLower(s)[lo..hi];
    assert |a| == |b|;
    forall i | 0 <= i < |a|
      ensures a[i] == b[i]
    {
      assert s[lo..hi][i] == s[lo + i];
    }
  }

  predicate AllWhitespace(w: string) {
    forall i | 0 <= i < |w| :: IsWhitespace(w[i])
  }

  /** White space added around a string is trimmed away. */
  lemma TrimIgnoresPadding(w1: string, s: string, w2: string)
    requires AllWhitespace(w1) && AllWhitespace(w2)
    ensures Trim(w1 + s + w2) == Trim(s)
  {
    TrimIgnoresFront(w1, s);
    TrimIgnoresBack(w1 + s, w2);
  }

  lemma TrimIgnoresFront(w: string, s: string)
    requires AllWhitespace(w)
    ensures Trim(w + s) == Trim(s)
  {
    var t, lo := Trim(s), TrimOffset(s);
    var p := w + s;
    assert p[|w| + lo..|w| + lo + |t|] == s[lo..lo + |t|];
    forall i | 0 <= i < |w| + lo
      ensures IsWhitespace(p[i])
    {
      if i >= |w| {
        assert p[i] == s[i - |w|];
      }
    }
    forall i | |w| + lo + |t| <= i < |p|
      ensures IsWhitespace(p[i])
    {
      assert p[i] == s[i - |w|];
    }
    TrimUnique(p, t, |w| + lo);
  }

  lemma TrimIgnoresBack(s: string, w: string)
    requires AllWhitespace(w)
    ensures Trim(s + w) == Trim(s)
  {
    var t, lo := Trim(s), TrimOffset(s);
    var p := s + w;
    assert p[lo..lo + |t|] == s[lo..lo + |t|];
    forall i | lo + |t| <= i < |p|
      ensures IsWhitespace(p[i])
    {
      if i >= |s| {
        assert p[i] == w[i - |s|];
      }
    }
    TrimUnique(p, t, lo);
  }

  lemma NoWhitespaceIsTrimmed(s: string)
    requires NoWhitespace(s)
    ensures IsTrimmed(s) && Trim(s) == s
  {
    TrimOfTrimmed(s);
  }

  /** Joining white-space-free strings around a non-white-space character
      gives a white-space-free string. */
  lemma NoWhitespaceAround(a: string, c: char, b: string)
    requires NoWhitespace(a) && !IsWhitespace(c) && NoWhitespace(b)
    ensures NoWhitespace(a + [c] + b)
  {
    var s := a + [c] + b;
    forall i | 0 <= i < |s|
      ensures !IsWhitespace(s[i])
    {
      if i < |a| {
        assert s[i] == a[i];
      } else if i > |a| {
        assert s[i] == b[i - |a| - 1];
      }
    }
  }

  // ---------------------------------------------------------------------
  // Counting, includes

  function Count(s: string, c: char): (n: nat)
    ensures n == 0 <==> c !in s
    ensures n <= |s|
    decreases |s|
  {
    if |s| == 0 then 0
    else (if s[0] == c then 1 else 0) + Count(s[1..], c)
  }

  /** `p` occurs in `s` starting at index `i`. */
  predicate OccursAt(s: string, p: string, i: int) {
    0 <= i && i + |p| <= |s| && s[i..i + |p|] == p
  }

  /** `String.prototype.includes`, as a left-to-right scan. */
  predicate Includes(s: string, p: string)
    decreases |s|
  {
    p <= s || (|s| > 0 && Includes(s[1..], p))
  }

  lemma {:induction false} IncludesIffOccurs(s: string, p: string)
    ensures Includes(s, p) <==> exists i :: OccursAt(s, p, i)
    decreases |s|
  {
    if p <= s {
      assert OccursAt(s, p, 0);
    } else if |s| == 0 {
      assert forall i :: !OccursAt(s, p, i);
    } else {
      IncludesIffOccurs(s[1..], p);
      if Includes(s[1..], p) {
        var i :| OccursAt(s[1..], p, i);
        assert s[1..][i..i + |p|] == s[i + 1..i + 1 + |p|];
        assert OccursAt(s, p, i + 1);
      }
      if exists i :: OccursAt(s, p, i) {
        var i :| OccursAt(s, p, i);
        assert i != 0;
        assert s[1..][i - 1..i - 1 + |p|] == s[i..i + |p|];
        assert OccursAt(s[1..], p, i - 1);
      }
    }
  }

  /** Whatever includes a pattern includes each of its characters. */
  lemma IncludesChar(s: string, p: string, k: int)
    requires Includes(s, p) && 0 <= k < |p|
    ensures p[k] in s
  {
    IncludesIffOccurs(s, p);
    var i :| OccursAt(s, p, i);
    assert s[i + k] == p[k];
  }

  // ---------------------------------------------------------------------
  // split / join

  /** `s.split(sep)` for a one-character separator: the maximal
      separator-free pieces, in order, including empty ones. */
  function Split(s: string, sep: char): (parts: seq<string>)
    ensures |parts| >= 1
    decreases |s|
  {
    if |s| == 0 then [[]]
    else
      var rest := Split(s[1..], sep);
      if s[0] == sep then [[]] + rest
      else [[s[0]] + rest[0]] + rest[1..]
  }

  /** There is one piece more than there are separators, and no piece holds
      the separator. */
  lemma {:induction false} SplitPieces(s: string, sep: char)
    ensures |Split(s, sep)| == Count(s, sep) + 1
    ensures forall i | 0 <= i < |Split(s, sep)| :: sep !in Split(s, sep)[i]
    decreases |s|
  {
    if |s| > 0 {
      SplitPieces(s[1..], sep);
      var rest := Split(s[1..], sep);
      if s[0] != sep {
        assert sep !in [s[0]] + rest[0];
      }
    }
  }

  /** `parts.join(sep)`. */
  function Join(parts: seq<string>, sep: string): string
    decreases |parts|
  {
    if |parts| == 0 then []
    else if |parts| == 1 then parts[0]
    else parts[0] + sep + Join(parts[1..], sep)
  }

  lemma JoinExtendFirst(x: string, parts: seq<string>, sep: string)
    requires |parts| >= 1
    ensures Join([x + parts[0]] + parts[1..], sep) == x + Join(parts, sep)
  {
    var q := [x + parts[0]] + parts[1..];
    if |parts| > 1 {
      assert q[1..] == parts[1..];
    }
  }

  /** The last piece of a join of two or more pieces follows the last separator. */
  lemma {:induction false} JoinLast(parts: seq<string>, sep: string)
    requires |parts| >= 2
    ensures Join(parts, sep) == Join(parts[..|parts| - 1], sep) + sep + parts[|parts| - 1]
    decreases |parts|
  {
    if |parts| > 2 {
      JoinLast(parts[1..], sep);
      assert parts[1..][..|parts| - 2] == parts[..|parts| - 1][1..];
    }
  }

  /** Joining the pieces of a split with the separator gives back the string. */
  lemma {:induction false} JoinSplit(s: string, sep: char)
    ensures Join(Split(s, sep), [sep]) == s
    decreases |s|
  {
    if |s| > 0 {
      var rest := Split(s[1..], sep);
      JoinSplit(s[1..], sep);
      if s[0] == sep {
        assert ([[]] + rest)[1..] == rest;
      } else {
        JoinExtendFirst([s[0]], rest, [sep]);
      }
      assert s == [s[0]] + s[1..];
    }
  }

  lemma {:induction false} SplitAppend(a: string, x: string, sep: char)
    requires sep !in a
    ensures Split(a + x, sep) == [a + Split(x, sep)[0]] + Split(x, sep)[1..]
    decreases |a|
  {
    if |a| == 0 {
      var sx := Split(x, sep);
      assert a + x == x && a + sx[0] == sx[0];
      assert [sx[0]] + sx[1..] == sx;
    } else {
      var sx := Split(x, sep);
      SplitAppend(a[1..], x, sep);
      assert (a + x)[0] == a[0] != sep;
      assert (a + x)[1..] == a[1..] + x;
      var rest := Split(a[1..] + x, sep);
      assert rest[0] == a[1..] + sx[0] && rest[1..] == sx[1..];
      assert [a[0]] + rest[0] == a + sx[0];
    }
  }

  lemma SplitWithoutSeparator(s: string, sep: char)
    requires sep !in s
    ensures Split(s, sep) == [s]
  {
    SplitAppend(s, [], sep);
    assert s + [] == s;
  }

  /** Splitting a join of separator-free pieces gives back the pieces. */
  lemma {:induction false} SplitJoin(parts: seq<string>, sep: char)
    requires |parts| >= 1
    requires forall i | 0 <= i < |parts| :: sep !in parts[i]
    ensures Split(Join(parts, [sep]), sep) == parts
    decreases |parts|
  {
    if |parts| == 1 {
      SplitWithoutSeparator(parts[0], sep);
    } else {
      var j := Join(parts[1..], [sep]);
      SplitJoin(parts[1..], sep);
      var x := [sep] + j;
      assert x[0] == sep && x[1..] == j;
      assert Split(x, sep) == [[]] + parts[1..];
      assert parts[0] + [sep] + j == parts[0] + x;
      SplitAppend(parts[0], x, sep);
      assert parts[0] + [] == parts[0];
      assert [parts[0]] + parts[1..] == parts;
    }
  }

  /** Splitting around the only separator of a string. */
  lemma SplitAround(a: string, b: string, sep: char)
    requires sep !in a && sep !in b
    ensures Split(a + [sep] + b, sep) == [a, b]
  {
    assert Join([a, b], [sep]) == a + [sep] + b;
    SplitJoin([a, b], sep);
  }

  // ---------------------------------------------------------------------
  // Hexadecimal digits

  predicate IsHexDigit(c: char) {
    '0' <= c <= '9' || 'a' <= c <= 'f' || 'A' <= c <= 'F'
  }

  predicate IsHexRun(s: string) {
    forall i | 0 <= i < |s| :: IsHexDigit(s[i])
  }

  /** The lower-case hexadecimal digit of `n`. */
  function HexDigit(n: int): (c: char)
    requires 0 <= n < 16
    ensures IsHexDigit(c) && !IsAsciiUpper(c)
  {
    if n < 10 then ('0' as int + n) as char else ('a' as int + n - 10) as char
  }

  function HexValue(c: char): (n: nat)
    ensures n < 16
  {
    if '0' <= c <= '9' then c as int - '0' as int
    else if 'a' <= c <= 'f' then c as int - 'a' as int + 10
    else if 'A' <= c <= 'F' then c as int - 'A' as int + 10
    else 0
  }

  lemma HexValueOfDigit(n: int)
    requires 0 <= n < 16
    ensures HexValue(HexDigit(n)) == n
  {
  }
}
