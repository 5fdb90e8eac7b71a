/** java.net.URLEncoder.encode(s, UTF_8), which the controller applies to
    the file name it puts in the Content-Disposition header. */
module UrlEncoding {

  /** The characters URLEncoder leaves as they are. */
  predicate IsUnreserved(c: char) {
    ('a' <= c <= 'z') || ('A' <= c <= 'Z') || ('0' <= c <= '9') || c == '.' || c == '-' || c == '*' || c == '_'
  }

  /** The characters an encoded string is made of. */
  predicate IsEncodedChar(c: char) {
    IsUnreserved(c) || c == '+' || c == '%'
  }

  /** The UTF-8 bytes of one character. */
  function Utf8(c: char): (bs: seq<int>)
    ensures 1 <= |bs| <= 4
    ensures forall i | 0 <= i < |bs| :: 0 <= bs[i] < 256
  {
    var v := c as int;
    if v < 0x80 then [v]
    else if v < 0x800 then [0xC0 + v / 0x40, 0x80 + v % 0x40]
    else if v < 0x1_0000 then [0xE0 + v / 0x1000, 0x80 + (v / 0x40) % 0x40, 0x80 + v % 0x40]
    else [0xF0 + v / 0x4_0000, 0x80 + (v / 0x1000) % 0x40, 0x80 + (v / 0x40) % 0x40, 0x80 + v % 0x40]
  }

  /** An upper-case hexadecimal digit. */
  function HexDigit(d: int): (c: char)
    requires 0 <= d < 16
    ensures IsUnreserved(c)
  {
    if d < 10 then ('0' as int + d) as char else ('A' as int + d - 10) as char
  }

  /** Each byte written as '%' and two hexadecimal digits. */
  function Escaped(bs: seq<int>): (r: string)
    requires forall i | 0 <= i < |bs| :: 0 <= bs[i] < 256
    ensures |r| == 3 * |bs|
    ensures forall i | 0 <= i < |r| :: IsEncodedChar(r[i])
  {
    if bs == [] then []
    else ['%', HexDigit(bs[0] / 16), HexDigit(bs[0] % 16)] + Escaped(bs[1..])
  }

  /** One character: kept when unreserved, '+' for a space, its escaped
      UTF-8 bytes otherwise. */
  function EncodeChar(c: char): (r: string)
    ensures r != []
    ensures forall i | 0 <= i < |r| :: IsEncodedChar(r[i])
  {
    if IsUnreserved(c) then [c]
    else if c == ' ' then "+"
    else Escaped(Utf8(c))
  }

  /** URLEncoder.encode(s, UTF_8). The result is made of unreserved
      characters, '+' and '%' only, so it holds no quote, ';', space or
      line break that could end the header parameter it is put in. */
  function FormEncode(s: string): (r: string)
    ensures |r| >= |s|
    ensures forall i | 0 <= i < |r| :: IsEncodedChar(r[i])
    decreases |s|
  {
    if s == [] then [] else EncodeChar(s[0]) + FormEncode(s[1..])
  }

  /** A name of unreserved characters is sent as it is. */
  lemma {:induction false} FormEncodeKeepsUnreserved(s: string)
    requires forall i | 0 <= i < |s| :: IsUnreserved(s[i])
    ensures FormEncode(s) == s
    decreases |s|
  {
    if s != [] {
      FormEncodeKeepsUnreserved(s[1..]);
      assert [s[0]] + s[1..] == s;
    }
  }

  /** Encoding is compositional: the encoding of a + b is the encodings of a
      and b one after the other. */
  lemma {:induction false} FormEncodeAppend(a: string, b: string)
    ensures FormEncode(a + b) == FormEncode(a) + FormEncode(b)
    decreases |a|
  {
    if a != [] {
      assert (a + b)[1..] == a[1..] + b;
      FormEncodeAppend(a[1..], b);
    } else {
      assert a + b == b;
    }
  }
}
