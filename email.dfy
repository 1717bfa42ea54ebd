/** The Email value object (src/domain/value-objects/email.ts). The raw input
    is trimmed and lower-cased first, and it is that normalised string which
    is validated and stored. */
module Emails {
  import opened Wrappers
  import opened JsString
  import opened Common

  const MaxLength: nat := 254

  /** `hasConsecutiveDots`. */
  predicate HasConsecutiveDots(s: string) {
    Includes(s, "..")
  }

  /** The domain holds a dot with at least one character on either side. */
  predicate HasInnerDot(d: string) {
    |d| >= 3 && '.' in d[1..|d| - 1]
  }

  /** The address shape `local@domain`, written out by hand: no white space
      anywhere, exactly one `@`, a non-empty local part and a dotted domain. */
  predicate HasEmailShape(s: string) {
    var parts := Split(s, '@');
    NoWhitespace(s) && |parts| == 2 && |parts[0]| > 0 && HasInnerDot(parts[1])
  }

  /** `isValid`. The length is counted in UTF-16 code units. */
  predicate IsValid(s: string) {
    0 < Utf16Length(s) <= MaxLength && !HasConsecutiveDots(s) && HasEmailShape(s)
  }

  /** `trim()` followed by `toLowerCase()`. */
  function Normalize(raw: string): string {
    ToLower(Trim(raw))
  }

  /** An Email holds a valid, normalised address. */
  type Email = e: ValueObject<string> | IsValid(e.value) && NoAsciiUpper(e.value)
    witness (SmallestAddressIsValid(); ValueObject("a@b.c"))

  /** `a@b.c` is a valid address. */
  lemma SmallestAddressIsValid()
    ensures IsValid("a@b.c") && NoAsciiUpper("a@b.c")
  {
    SmallAddressIsValid("a@b.c");
  }

  lemma SmallAddressIsValid(s: string)
    requires s == "a@b.c"
    ensures IsValid(s) && NoAsciiUpper(s)
  {
    assert s == "a" + ['@'] + "b.c";
    assert HasInnerDot("b.c") by {
      assert "b.c"[1..2][0] == '.';
    }
    AtomsAroundAtHaveShape("a", "b.c");
    Utf16LengthOfBmp(s);
    HasConsecutiveDotsIff(s);
    forall i | 0 <= i < |s| - 1
      ensures !(s[i] == '.' && s[i + 1] == '.')
    {
    }
  }

  /** The constructor, and `create`, which only calls it: construction
      succeeds exactly when the normalised input is valid, and then stores
      the normalised input. */
  function Create(raw: string): (r: Result<Email>)
    ensures r.Success? <==> IsValid(Normalize(raw))
    ensures r.Success? ==> r.value.value == Normalize(raw)
    ensures r.Failure? ==> r.error == "Invalid email format: " + raw
  {
    var candidate := Normalize(raw);
    ToLowerSpec(Trim(raw));
    if IsValid(candidate) then Success(ValueObject(candidate))
    else Failure("Invalid email format: " + raw)
  }

  /** `getLocalPart`: the text before the `@`. */
  function LocalPart(e: Email): string {
    Split(e.value, '@')[0]
  }

  /** `getDomain`: the text after the `@`. */
  function Domain(e: Email): string {
    Split(e.value, '@')[1]
  }

  // ---------------------------------------------------------------------
  // The regular expression /^[^\s@]+@[^\s@]+\.[^\s@]+$/ as a reference.

  /** A non-empty run of `[^\s@]`. */
  predicate IsAtomRun(t: string) {
    |t| > 0 && '@' !in t && NoWhitespace(t)
  }

  /** `[^\s@]+\.[^\s@]+`, for some choice of the dot. */
  ghost predicate MatchesDomainPattern(d: string) {
    exists k :: 0 <= k < |d| && d[k] == '.' && IsAtomRun(d[..k]) && IsAtomRun(d[k + 1..])
  }

  /** The whole pattern, for some choice of the `@`. */
  ghost predicate MatchesEmailPattern(s: string) {
    exists at :: 0 <= at < |s| && s[at] == '@' && IsAtomRun(s[..at]) && MatchesDomainPattern(s[at + 1..])
  }

  lemma InnerDotMatchesDomainPattern(d: string)
    requires '@' !in d && NoWhitespace(d)
    ensures HasInnerDot(d) <==> MatchesDomainPattern(d)
  {
    if HasInnerDot(d) {
      var j :| 0 <= j < |d| - 2 && d[1..|d| - 1][j] == '.';
      assert d[j + 1] == '.';
      assert IsAtomRun(d[..j + 1]) && IsAtomRun(d[j + 2..]);
    }
    if MatchesDomainPattern(d) {
      var k :| 0 <= k < |d| && d[k] == '.' && IsAtomRun(d[..k]) && IsAtomRun(d[k + 1..]);
      assert d[1..|d| - 1][k - 1] == '.';
    }
  }

  /** The hand-written shape check accepts exactly what the pattern accepts. */
  lemma ShapeMatchesPattern(s: string)
    ensures HasEmailShape(s) <==> MatchesEmailPattern(s)
  {
    if HasEmailShape(s) {
      ShapeImpliesPattern(s);
    }
    if MatchesEmailPattern(s) {
      PatternImpliesShape(s);
    }
  }

  lemma ShapeImpliesPattern(s: string)
    requires HasEmailShape(s)
    ensures MatchesEmailPattern(s)
  {
    var parts := Split(s, '@');
    JoinSplit(s, '@');
    SplitPieces(s, '@');
    var local, domain := parts[0], parts[1];
    assert s == local + "@" + domain;
    var at := |local|;
    assert s[..at] == local && s[at + 1..] == domain && s[at] == '@';
    assert NoWhitespace(domain) by {
      forall i | 0 <= i < |domain|
        ensures !IsWhitespace(domain[i])
      {
        assert domain[i] == s[at + 1 + i];
      }
    }
    assert NoWhitespace(local) by {
      forall i | 0 <= i < |local|
        ensures !IsWhitespace(local[i])
      {
        assert local[i] == s[i];
      }
    }
    InnerDotMatchesDomainPattern(domain);
  }

  lemma PatternImpliesShape(s: string)
    requires MatchesEmailPattern(s)
    ensures HasEmailShape(s)
  {
    var at :| 0 <= at < |s| && s[at] == '@' && IsAtomRun(s[..at]) && MatchesDomainPattern(s[at + 1..]);
    var local, domain := s[..at], s[at + 1..];
    assert s == local + ['@'] + domain;
    DomainPatternIsAtoms(domain);
    InnerDotMatchesDomainPattern(domain);
    AtomsAroundAtHaveShape(local, domain);
  }

  lemma AtomsAroundAtHaveShape(local: string, domain: string)
    requires IsAtomRun(local) && '@' !in domain && NoWhitespace(domain) && HasInnerDot(domain)
    ensures HasEmailShape(local + ['@'] + domain)
  {
    SplitAround(local, domain, '@');
    NoWhitespaceAround(local, '@', domain);
  }

  /** Whatever matches the domain pattern is free of `@` and white space. */
  lemma DomainPatternIsAtoms(d: string)
    requires MatchesDomainPattern(d)
    ensures '@' !in d && NoWhitespace(d)
  {
    var k :| 0 <= k < |d| && d[k] == '.' && IsAtomRun(d[..k]) && IsAtomRun(d[k + 1..]);
    forall i | 0 <= i < |d|
      ensures d[i] != '@' && !IsWhitespace(d[i])
    {
      if i < k {
        assert d[i] == d[..k][i];
      } else if i > k {
        assert d[i] == d[k + 1..][i - k - 1];
      }
    }
  }

  // ---------------------------------------------------------------------
  // Properties of validation

  /** Empty strings and strings longer than 254 UTF-16 code units (so in
      particular those of more than 254 characters) are rejected. */
  lemma LengthOutOfRangeIsInvalid(s: string)
    requires |s| == 0 || Utf16Length(s) > MaxLength
    ensures !IsValid(s)
  {
  }

  /** `hasConsecutiveDots` holds exactly when two dots stand side by side
      somewhere in the string. */
  lemma HasConsecutiveDotsIff(s: string)
    ensures HasConsecutiveDots(s) <==> exists i :: 0 <= i < |s| - 1 && s[i] == '.' && s[i + 1] == '.'
  {
    IncludesIffOccurs(s, "..");
    if HasConsecutiveDots(s) {
      var i :| OccursAt(s, "..", i);
      assert s[i] == s[i..i + 2][0] && s[i + 1] == s[i..i + 2][1];
    }
    if exists i :: 0 <= i < |s| - 1 && s[i] == '.' && s[i + 1] == '.' {
      var i :| 0 <= i < |s| - 1 && s[i] == '.' && s[i + 1] == '.';
      assert s[i..i + 2] == "..";
      assert OccursAt(s, "..", i);
    }
  }

  /** The bound is on code units: 126 characters above U+FFFF before
      `@b.c` are 130 characters but 256 code units, and are rejected. */
  lemma AstralCharactersCountTwice(x: string)
    requires |x| == 126 && forall i | 0 <= i < |x| :: x[i] as int > 0xFFFF
    ensures !IsValid(x + "@b.c")
  {
    Utf16LengthOfAstral(x);
    Utf16LengthAppend(x, "@b.c");
  }

  /** A string with two dots in a row anywhere is rejected. */
  lemma ConsecutiveDotsAreInvalid(s: string, i: int)
    requires 0 <= i && i + 1 < |s| && s[i] == '.' && s[i + 1] == '.'
    ensures !IsValid(s)
  {
    HasConsecutiveDotsIff(s);
  }

  /** `isValid` is exactly: length in range, no `..`, and the pattern. */
  lemma ValidIffPattern(s: string)
    ensures IsValid(s) <==> 0 < Utf16Length(s) <= MaxLength && !HasConsecutiveDots(s) && MatchesEmailPattern(s)
  {
    ShapeMatchesPattern(s);
  }

  /** What every valid address looks like: one `@`, no white space, a
      non-empty local part and a domain `X.Y` with `X`, `Y` non-empty. */
  lemma ValidAddressStructure(s: string)
    requires IsValid(s)
    ensures Count(s, '@') == 1
    ensures NoWhitespace(s)
    ensures exists at :: 0 < at < |s| && s[at] == '@' && MatchesDomainPattern(s[at + 1..])
  {
    SplitPieces(s, '@');
    ShapeMatchesPattern(s);
  }

  // ---------------------------------------------------------------------
  // Normalisation

  /** Trimming and lower-casing twice is the same as once. */
  lemma NormalizeIdempotent(raw: string)
    ensures Normalize(Normalize(raw)) == Normalize(raw)
  {
    var t := Trim(raw);
    var n := ToLower(t);
    assert IsTrimmed(n);
    TrimOfTrimmed(n);
  }

  /** A stored address has no upper-case letter and no white space, and
      building an Email from it gives the same Email back. */
  lemma StoredValueIsCanonical(e: Email)
    ensures NoAsciiUpper(e.value) && NoWhitespace(e.value)
    ensures Create(e.value) == Success(e)
  {
    NoWhitespaceIsTrimmed(e.value);
    ToLowerSpec(e.value);
  }

  /** Two Emails built from inputs are `equals` exactly when the inputs
      normalise to the same address. */
  lemma EqualsIffSameNormalForm(a: string, b: string)
    requires Create(a).Success? && Create(b).Success?
    ensures StringEquals(Create(a).value, Create(b).value) <==> Normalize(a) == Normalize(b)
  {
    StringEqualsIffSameValue(Create(a).value, Create(b).value);
  }

  /** Inputs that differ only in ASCII case and in white space around them
      give Emails that are `equals`. */
  lemma CaseAndPaddingDoNotMatter(a: string, b: string, w1: string, w2: string)
    requires ToLower(a) == ToLower(b)
    requires AllWhitespace(w1) && AllWhitespace(w2)
    requires Create(a).Success?
    ensures Create(w1 + b + w2).Success?
    ensures StringEquals(Create(a).value, Create(w1 + b + w2).value)
  {
    TrimIgnoresPadding(w1, b, w2);
    TrimCommutesWithLower(a);
    TrimCommutesWithLower(b);
    assert Normalize(w1 + b + w2) == Normalize(a);
    EqualsIffSameNormalForm(a, w1 + b + w2);
  }

  // ---------------------------------------------------------------------
  // Local part and domain

  /** The local part, `@` and the domain make up the address; neither part
      holds an `@`; both are non-empty and the domain holds an inner dot. */
  lemma LocalPartAndDomain(e: Email)
    ensures LocalPart(e) + "@" + Domain(e) == e.value
    ensures '@' !in LocalPart(e) && '@' !in Domain(e)
    ensures |LocalPart(e)| > 0 && HasInnerDot(Domain(e))
  {
    JoinSplit(e.value, '@');
    SplitPieces(e.value, '@');
  }
}
