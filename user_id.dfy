/** The UserId value object (src/domain/value-objects/user-id.ts): a UUID in
    the 8-4-4-4-12 layout of section 4 of RFC 4122, with a version digit 1 to
    5 and the variant digit of that RFC, either case. The input is stored
    verbatim. `randomUUID` is modelled as the version 4 formatting (section
    4.4 of RFC 4122) of sixteen random bytes, which the caller supplies. */
module UserIds {
  import opened Wrappers
  import opened JsString
  import opened Common

  /** `/^[0-9a-f]{8}-[0-9a-f]{4}-[1-5][0-9a-f]{3}-[89ab][0-9a-f]{3}-[0-9a-f]{12}$/i`,
      group by group. */
  predicate IsValid(s: string) {
    |s| == 36
    && IsHexRun(s[0..8]) && s[8] == '-'
    && IsHexRun(s[9..13]) && s[13] == '-'
    && '1' <= s[14] <= '5' && IsHexRun(s[15..18]) && s[18] == '-'
    && s[19] in "89abAB" && IsHexRun(s[20..23]) && s[23] == '-'
    && IsHexRun(s[24..36])
  }

  /** A UserId holds a valid UUID. */
  type UserId = u: ValueObject<string> | IsValid(u.value)
    witness (FormatV4Spec(NoBytes); ValueObject(FormatV4(NoBytes)))

  /** The hyphenated layout of five groups. */
  function Layout(g1: string, g2: string, g3: string, g4: string, g5: string): string {
    g1 + "-" + g2 + "-" + g3 + "-" + g4 + "-" + g5
  }

  /** Five groups of the right lengths and digits, laid out with hyphens,
      make a valid UUID whose version and variant digits are the first
      digits of the third and fourth groups. */
  lemma ValidFromGroups(g1: string, g2: string, g3: string, g4: string, g5: string)
    requires |g1| == 8 && |g2| == 4 && |g3| == 4 && |g4| == 4 && |g5| == 12
    requires IsHexRun(g1) && IsHexRun(g2) && IsHexRun(g3) && IsHexRun(g4) && IsHexRun(g5)
    requires '1' <= g3[0] <= '5' && g4[0] in "89abAB"
    ensures IsValid(Layout(g1, g2, g3, g4, g5))
    ensures Layout(g1, g2, g3, g4, g5)[14] == g3[0] && Layout(g1, g2, g3, g4, g5)[19] == g4[0]
  {
    var s := Layout(g1, g2, g3, g4, g5);
    assert s[0..8] == g1 && s[8] == '-';
    assert s[9..13] == g2 && s[13] == '-';
    assert s[14] == g3[0] && s[15..18] == g3[1..] && s[18] == '-';
    assert s[19] == g4[0] && s[20..23] == g4[1..] && s[23] == '-';
    assert s[24..36] == g5;
  }

  /** Groups without upper-case letters give a layout without them. */
  lemma LayoutKeepsLowerCase(g1: string, g2: string, g3: string, g4: string, g5: string)
    requires NoAsciiUpper(g1) && NoAsciiUpper(g2) && NoAsciiUpper(g3) && NoAsciiUpper(g4) && NoAsciiUpper(g5)
    ensures NoAsciiUpper(Layout(g1, g2, g3, g4, g5))
  {
    var s := Layout(g1, g2, g3, g4, g5);
    var a := g1 + "-";
    var b := a + g2 + "-";
    var c := b + g3 + "-";
    var d := c + g4 + "-";
    assert NoAsciiUpper(a) by { assert forall i | 0 <= i < |g1| :: a[i] == g1[i]; }
    assert NoAsciiUpper(b) by { assert forall i | |a| <= i < |a| + |g2| :: b[i] == g2[i - |a|]; }
    assert NoAsciiUpper(c) by { assert forall i | |b| <= i < |b| + |g3| :: c[i] == g3[i - |b|]; }
    assert NoAsciiUpper(d) by { assert forall i | |c| <= i < |c| + |g4| :: d[i] == g4[i - |c|]; }
    assert forall i | |d| <= i < |s| :: s[i] == g5[i - |d|];
  }

  /** The constructor: it succeeds exactly for a valid UUID and stores it
      verbatim. */
  function New(id: string): (r: Result<UserId>)
    ensures r.Success? <==> IsValid(id)
    ensures r.Success? ==> r.value.value == id
    ensures r.Failure? ==> r.error == "Invalid UserId format: " + id
  {
    if IsValid(id) then Success(ValueObject(id))
    else Failure("Invalid UserId format: " + id)
  }

  // ---------------------------------------------------------------------
  // The generator

  type Byte = x: int | 0 <= x < 256

  /** The sixteen random bytes `randomUUID` draws. */
  type RandomBytes = b: seq<Byte> | |b| == 16
    witness NoBytes

  const NoBytes: seq<Byte> := [0, 0, 0, 0, 0, 0, 0, 0, 0, 0, 0, 0, 0, 0, 0, 0]

  /** Two lower-case hexadecimal digits per byte, high digit first. */
  function Hex(bs: seq<Byte>): (r: string)
    ensures |r| == 2 * |bs|
    ensures IsHexRun(r) && NoAsciiUpper(r)
    ensures forall i | 0 <= i < |bs| :: r[2 * i] == HexDigit(bs[i] / 16) && r[2 * i + 1] == HexDigit(bs[i] % 16)
  {
    seq(2 * |bs|, i requires 0 <= i < 2 * |bs| =>
      if i % 2 == 0 then HexDigit(bs[i / 2] / 16) else HexDigit(bs[i / 2] % 16))
  }

  /** The high half of byte 6 set to 4 (the version) and the two high bits
      of byte 8 set to `10` (the variant); the other bytes are kept. */
  function Stamp(b: RandomBytes): (v: RandomBytes)
    ensures v[6] / 16 == 4 && 8 <= v[8] / 16 < 12
    ensures forall i | 0 <= i < 16 && i != 6 && i != 8 :: v[i] == b[i]
  {
    b[6 := b[6] % 16 + 0x40][8 := b[8] % 64 + 0x80]
  }

  /** The first digit of a hexadecimal rendering is the high digit of the
      first byte. */
  lemma HexHead(bs: seq<Byte>)
    requires |bs| > 0
    ensures Hex(bs)[0] == HexDigit(bs[0] / 16)
  {
    assert Hex(bs)[2 * 0] == HexDigit(bs[0] / 16);
  }

  /** The high digit of a byte whose two high bits are `10`. */
  lemma VariantDigit(n: int)
    requires 8 <= n < 12
    ensures HexDigit(n) in "89ab" && HexDigit(n) in "89abAB"
  {
    if n == 8 {
      assert HexDigit(n) == "89ab"[0];
    } else if n == 9 {
      assert HexDigit(n) == "89ab"[1];
    } else if n == 10 {
      assert HexDigit(n) == "89ab"[2];
    } else {
      assert HexDigit(n) == "89ab"[3];
    }
  }

  /** A version 4 UUID: the stamped bytes written in hexadecimal in groups
      of 4, 2, 2, 2 and 6 bytes. */
  function FormatV4(b: RandomBytes): string {
    var v := Stamp(b);
    Layout(Hex(v[..4]), Hex(v[4..6]), Hex(v[6..8]), Hex(v[8..10]), Hex(v[10..]))
  }

  /** Whatever the random bytes, the formatted UUID is valid, lower case,
      of version 4 and of the RFC 4122 variant. */
  lemma FormatV4Spec(b: RandomBytes)
    ensures IsValid(FormatV4(b))
    ensures NoAsciiUpper(FormatV4(b))
    ensures FormatV4(b)[14] == '4' && FormatV4(b)[19] in "89ab"
  {
    var v := Stamp(b);
    var g1, g2, g3, g4, g5 := Hex(v[..4]), Hex(v[4..6]), Hex(v[6..8]), Hex(v[8..10]), Hex(v[10..]);
    assert v[6..8][0] == v[6] && v[8..10][0] == v[8];
    HexHead(v[6..8]);
    HexHead(v[8..10]);
    VariantDigit(v[8] / 16);
    ValidFromGroups(g1, g2, g3, g4, g5);
    LayoutKeepsLowerCase(g1, g2, g3, g4, g5);
  }

  /** `generate`: a fresh id from the random bytes. It cannot fail. */
  function Generate(random: RandomBytes): (r: UserId)
    ensures r.value == FormatV4(random)
  {
    FormatV4Spec(random);
    ValueObject(FormatV4(random))
  }

  /** `create`: an absent or empty id (both falsy) falls back to the
      generator; any other id goes to the constructor. */
  function Create(id: Option<string>, random: RandomBytes): (r: Result<UserId>)
    ensures r.Success? <==> id.None? || id.value == "" || IsValid(id.value)
    ensures id.Some? && id.value != "" ==> r == New(id.value)
    ensures id.None? || id.value == "" ==> r == Success(Generate(random))
  {
    if id.None? || id.value == "" then Success(Generate(random)) else New(id.value)
  }

  // ---------------------------------------------------------------------
  // Properties

  /** The digit positions of the layout. */
  predicate IsHyphenIndex(i: int) {
    i == 8 || i == 13 || i == 18 || i == 23
  }

  /** What the layout demands of the character at index `i`. */
  predicate ValidAt(s: string, i: int)
    requires 0 <= i < |s|
  {
    if IsHyphenIndex(i) then s[i] == '-'
    else if i == 14 then '1' <= s[i] <= '5'
    else if i == 19 then s[i] in "89abAB"
    else IsHexDigit(s[i])
  }

  lemma HexRunSlice(s: string, lo: int, hi: int)
    requires 0 <= lo <= hi <= |s|
    ensures IsHexRun(s[lo..hi]) <==> forall i | lo <= i < hi :: IsHexDigit(s[i])
  {
    if forall i | lo <= i < hi :: IsHexDigit(s[i]) {
      forall j | 0 <= j < hi - lo
        ensures IsHexDigit(s[lo..hi][j])
      {
        assert s[lo..hi][j] == s[lo + j];
      }
    }
    if IsHexRun(s[lo..hi]) {
      forall i | lo <= i < hi
        ensures IsHexDigit(s[i])
      {
        assert s[i] == s[lo..hi][i - lo];
      }
    }
  }

  /** Validity character by character: 36 characters, hyphens at 8, 13, 18
      and 23, a version digit 1 to 5 at 14, a variant digit 8, 9, a or b
      (either case) at 19, and hexadecimal digits of either case elsewhere. */
  lemma ValidIffPositional(s: string)
    ensures IsValid(s) <==> |s| == 36 && forall i | 0 <= i < 36 :: ValidAt(s, i)
  {
    if |s| == 36 {
      HexRunSlice(s, 0, 8);
      HexRunSlice(s, 9, 13);
      HexRunSlice(s, 15, 18);
      HexRunSlice(s, 20, 23);
      HexRunSlice(s, 24, 36);
      if forall i | 0 <= i < 36 :: ValidAt(s, i) {
        assert ValidAt(s, 8) && ValidAt(s, 13) && ValidAt(s, 14);
        assert ValidAt(s, 18) && ValidAt(s, 19) && ValidAt(s, 23);
        forall i | 0 <= i < 36 && !IsHyphenIndex(i) && i != 14 && i != 19
          ensures IsHexDigit(s[i])
        {
          assert ValidAt(s, i);
        }
      }
    }
  }

  /** A generated id is a lower-case version 4 UUID of the RFC 4122 variant. */
  lemma GeneratedIdIsVersion4(random: RandomBytes)
    ensures Generate(random).value[14] == '4'
    ensures Generate(random).value[19] in "89ab"
    ensures NoAsciiUpper(Generate(random).value)
  {
    FormatV4Spec(random);
  }

  /** Ids are stored verbatim: upper-casing one hexadecimal letter of a
      valid id gives another valid id, which is not `equals` to the first. */
  lemma HexCaseMatters(s: string, i: int)
    requires IsValid(s) && 0 <= i < |s| && 'a' <= s[i] <= 'f'
    ensures IsValid(s[i := ToUpperChar(s[i])])
    ensures !StringEquals(New(s).value, New(s[i := ToUpperChar(s[i])]).value)
  {
    var t := s[i := ToUpperChar(s[i])];
    ValidIffPositional(s);
    ValidIffPositional(t);
    forall j | 0 <= j < 36
      ensures ValidAt(t, j)
    {
      assert ValidAt(s, j);
    }
    assert t[i] != s[i];
    StringEqualsIffSameValue(New(s).value, New(t).value);
  }
}
