/** The UserName value object (src/domain/value-objects/user-name.ts). The
    input is validated after trimming, and the trimmed text is stored with its
    case unchanged. First name, last name and initials come from splitting
    the stored text on the space character. */
module UserNames {
  import opened Wrappers
  import opened JsString
  import opened Common

  const MinLength: nat := 2
  const MaxLength: nat := 50

  /** The character class `[a-zA-Z\s'-]`. */
  predicate IsNameChar(c: char) {
    IsAsciiLetter(c) || IsWhitespace(c) || c == '\'' || c == '-'
  }

  /** `/^[a-zA-Z\s'-]+$/`. */
  predicate MatchesNamePattern(s: string) {
    |s| > 0 && forall i | 0 <= i < |s| :: IsNameChar(s[i])
  }

  /** `isValid`: the trimmed input has 2 to 50 characters, all from the class. */
  predicate IsValid(name: string) {
    var t := Trim(name);
    MinLength <= |t| <= MaxLength && MatchesNamePattern(t)
  }

  /** `trimmedName.length` counts UTF-16 code units; every character the
      pattern admits is a single code unit, so on a name that matches the
      pattern the character count is that length. */
  lemma NameLengthIsCodeUnits(t: string)
    requires MatchesNamePattern(t)
    ensures Utf16Length(t) == |t|
  {
    Utf16LengthOfBmp(t);
  }

  /** A UserName holds a valid, trimmed name. */
  type UserName = n: ValueObject<string> | IsValid(n.value) && IsTrimmed(n.value)
    witness (ShortestNameIsValid(); ValueObject("ab"))

  lemma ShortestNameIsValid()
    ensures IsValid("ab") && IsTrimmed("ab")
  {
    NoWhitespaceIsTrimmed("ab");
  }

  /** The constructor, and `create`, which only calls it: construction
      succeeds exactly when the input is valid, and then stores the trimmed
      input. */
  function Create(name: string): (r: Result<UserName>)
    ensures r.Success? <==> IsValid(name)
    ensures r.Success? ==> r.value.value == Trim(name)
    ensures r.Failure? ==> r.error == "Invalid user name: " + name
  {
    var t := Trim(name);
    TrimOfTrimmed(t);
    if IsValid(name) then Success(ValueObject(t))
    else Failure("Invalid user name: " + name)
  }

  /** `getFirstName`. */
  function FirstName(n: UserName): string {
    Split(n.value, ' ')[0]
  }

  /** `getLastName`. */
  function LastName(n: UserName): string {
    var parts := Split(n.value, ' ');
    if |parts| > 1 then parts[|parts| - 1] else ""
  }

  /** The upper-cased first character of a token; nothing for an empty token
      (`charAt(0)` of the empty string is empty). */
  function FirstCharUpper(part: string): (r: string)
    ensures |r| <= 1
  {
    if |part| == 0 then "" else [ToUpperChar(part[0])]
  }

  /** `map(part => part.charAt(0).toUpperCase()).join('')`. */
  function InitialsOf(parts: seq<string>): string
    decreases |parts|
  {
    if |parts| == 0 then "" else FirstCharUpper(parts[0]) + InitialsOf(parts[1..])
  }

  /** `getInitials`. */
  function Initials(n: UserName): string {
    InitialsOf(Split(n.value, ' '))
  }

  // ---------------------------------------------------------------------
  // Properties of construction

  /** The stored text is the input without its surrounding white space, case
      unchanged, and building a UserName from it gives the same UserName. */
  lemma StoredValueIsCanonical(n: UserName)
    ensures Create(n.value) == Success(n)
  {
    TrimOfTrimmed(n.value);
  }

  /** White space around a name does not change the UserName. */
  lemma PaddingDoesNotMatter(w1: string, s: string, w2: string)
    requires AllWhitespace(w1) && AllWhitespace(w2)
    ensures Create(w1 + s + w2).Success? <==> Create(s).Success?
    ensures Create(s).Success? ==> Create(w1 + s + w2).value == Create(s).value
  {
    TrimIgnoresPadding(w1, s, w2);
  }

  // ---------------------------------------------------------------------
  // First name, last name

  /** The first name is the text before the first space, or the whole name
      when there is no space. */
  lemma FirstNameSpec(n: UserName)
    ensures ' ' !in FirstName(n)
    ensures ' ' in n.value ==> FirstName(n) + [' '] <= n.value
    ensures ' ' !in n.value ==> FirstName(n) == n.value
  {
    var parts := Split(n.value, ' ');
    SplitPieces(n.value, ' ');
    JoinSplit(n.value, ' ');
    if |parts| > 1 {
      assert n.value == parts[0] + [' '] + Join(parts[1..], [' ']);
    }
  }

  /** The last name is empty exactly when the name has no space; otherwise it
      is the non-empty text after the last space. Only the space character
      separates: a tab inside a name does not. */
  lemma LastNameSpec(n: UserName)
    ensures LastName(n) == "" <==> ' ' !in n.value
    ensures ' ' in n.value ==>
      ' ' !in LastName(n) && |LastName(n)| < |n.value|
      && n.value[|n.value| - |LastName(n)| - 1] == ' '
      && n.value[|n.value| - |LastName(n)|..] == LastName(n)
  {
    var v := n.value;
    var parts := Split(v, ' ');
    SplitPieces(v, ' ');
    JoinSplit(v, ' ');
    if |parts| > 1 {
      var last := parts[|parts| - 1];
      JoinLast(parts, [' ']);
      var pre := Join(parts[..|parts| - 1], [' ']);
      assert v == pre + [' '] + last;
      assert v[|v| - |last|..] == last;
    }
  }

  // ---------------------------------------------------------------------
  // Initials

  /** The non-empty tokens, in order. */
  function NonEmpty(parts: seq<string>): (r: seq<string>)
    ensures forall i | 0 <= i < |r| :: |r[i]| > 0
    decreases |parts|
  {
    if |parts| == 0 then []
    else if |parts[0]| == 0 then NonEmpty(parts[1..])
    else [parts[0]] + NonEmpty(parts[1..])
  }

  /** One initial per non-empty token, in order: the token's first character
      upper-cased. Empty tokens contribute nothing. */
  lemma {:induction false} InitialsOfNonEmpty(parts: seq<string>)
    ensures |InitialsOf(parts)| == |NonEmpty(parts)|
    ensures forall i | 0 <= i < |NonEmpty(parts)| :: InitialsOf(parts)[i] == ToUpperChar(NonEmpty(parts)[i][0])
    decreases |parts|
  {
    if |parts| > 0 {
      InitialsOfNonEmpty(parts[1..]);
    }
  }

  /** The initials of a name: one upper-cased first character per non-empty
      space-separated token, none of them a lower-case letter. */
  lemma InitialsSpec(n: UserName)
    ensures |Initials(n)| == |NonEmpty(Split(n.value, ' '))|
    ensures forall i | 0 <= i < |Initials(n)| :: Initials(n)[i] == ToUpperChar(NonEmpty(Split(n.value, ' '))[i][0])
    ensures forall i | 0 <= i < |Initials(n)| :: !IsAsciiLower(Initials(n)[i])
  {
    InitialsOfNonEmpty(Split(n.value, ' '));
  }

  // ---------------------------------------------------------------------
  // Examples

  /** "mary jane" is accepted and stored as it is. */
  lemma TwoWordCreateExample()
    ensures Create("mary jane").Success?
    ensures Create("mary jane").value.value == "mary jane"
  {
    TrimOfTrimmed("mary jane");
  }

  /** "mary jane": first name "mary", last name "jane", initials "MJ". */
  lemma TwoWordExample(n: UserName)
    requires n.value == "mary jane"
    ensures FirstName(n) == "mary" && LastName(n) == "jane" && Initials(n) == "MJ"
  {
    assert "mary" + [' '] + "jane" == n.value;
    SplitAround("mary", "jane", ' ');
    assert InitialsOf(["jane"]) == "J";
  }

  /** A name without a space has no last name and one initial. */
  lemma OneWordExample(n: UserName)
    requires n.value == "Cher"
    ensures FirstName(n) == "Cher" && LastName(n) == "" && Initials(n) == "C"
  {
    SplitWithoutSeparator("Cher", ' ');
  }

  /** A double space yields an empty token, which gives no initial. */
  lemma DoubleSpaceExample(n: UserName)
    requires n.value == "Ann  Lee"
    ensures FirstName(n) == "Ann" && LastName(n) == "Lee" && Initials(n) == "AL"
  {
    assert Join(["Ann", "", "Lee"], " ") == n.value;
    SplitJoin(["Ann", "", "Lee"], ' ');
  }
}
