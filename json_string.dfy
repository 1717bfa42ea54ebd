/** `JSON.stringify` applied to a string: the string is quoted, and quotation
    marks, backslashes and control characters are escaped (the abstract
    operation QuoteJSONString of ECMA-262). The decoder `Unescape` exists to
    prove that the encoding is injective, which is what makes comparing
    serialised strings the same as comparing the strings. */
module JsonString {
  import opened JsString

  /** The JSON text of one character. */
  function EscapeChar(c: char): (r: string)
    ensures |r| > 0
  {
    var n := c as int;
    if n == 0x08 then "\\b"
    else if n == 0x09 then "\\t"
    else if n == 0x0A then "\\n"
    else if n == 0x0C then "\\f"
    else if n == 0x0D then "\\r"
    else if c == '"' then "\\\""
    else if c == '\\' then "\\\\"
    else if n < 0x20 then "\\u00" + [HexDigit(n / 16), HexDigit(n % 16)]
    else [c]
  }

  function Escape(s: string): string
    decreases |s|
  {
    if |s| == 0 then [] else EscapeChar(s[0]) + Escape(s[1..])
  }

  /** `JSON.stringify(s)` for a string `s`. */
  function Stringify(s: string): (r: string)
    ensures |r| >= 2 && r[0] == '"' && r[|r| - 1] == '"'
  {
    "\"" + Escape(s) + "\""
  }

  /** The character a two-character escape sequence `\e` stands for. */
  function UnescapeChar(e: char): char {
    if e == 'b' then 0x08 as char
    else if e == 't' then 0x09 as char
    else if e == 'n' then 0x0A as char
    else if e == 'f' then 0x0C as char
    else if e == 'r' then 0x0D as char
    else e
  }

  /** Reads the body of a JSON string back; it inverts `Escape`. */
  function Unescape(t: string): string
    decreases |t|
  {
    if |t| == 0 then []
    else if t[0] != '\\' || |t| < 2 then [t[0]] + Unescape(t[1..])
    else if t[1] == 'u' && |t| >= 6 then
      [(HexValue(t[4]) * 16 + HexValue(t[5])) as char] + Unescape(t[6..])
    else [UnescapeChar(t[1])] + Unescape(t[2..])
  }

  lemma UnescapeEscapeChar(c: char, rest: string)
    ensures Unescape(EscapeChar(c) + rest) == [c] + Unescape(rest)
  {
    var e := EscapeChar(c);
    var t := e + rest;
    var n := c as int;
    if |e| == 1 {
      assert t[0] == c && c != '\\' && t[1..] == rest;
    } else if |e| == 2 {
      assert t[0] == '\\' && t[1] != 'u' && t[2..] == rest;
    } else {
      assert n < 0x20;
      HexValueOfDigit(n / 16);
      HexValueOfDigit(n % 16);
      assert t[0] == '\\' && t[1] == 'u' && t[6..] == rest;
      assert t[4] == HexDigit(n / 16) && t[5] == HexDigit(n % 16);
    }
  }

  /** Decoding an encoded string gives it back. */
  lemma {:induction false} UnescapeEscape(s: string)
    ensures Unescape(Escape(s)) == s
    decreases |s|
  {
    if |s| > 0 {
      UnescapeEscapeChar(s[0], Escape(s[1..]));
      UnescapeEscape(s[1..]);
      assert s == [s[0]] + s[1..];
    }
  }

  /** Two strings serialise to the same JSON text exactly when they are equal. */
  lemma StringifyInjective(a: string, b: string)
    ensures Stringify(a) == Stringify(b) <==> a == b
  {
    if Stringify(a) == Stringify(b) {
      var sa, sb := Stringify(a), Stringify(b);
      assert Escape(a) == sa[1..|sa| - 1];
      assert Escape(b) == sb[1..|sb| - 1];
      UnescapeEscape(a);
      UnescapeEscape(b);
    }
  }
}
