/** The libcurl boundary. Transfers are not performed: what a transfer left
    behind is an input. `curl_easy_escape` is modelled as the percent-encoding
    of sections 2.1 and 2.3 of RFC 3986; characters stand for bytes. */
module Curl {
  import opened CStr

  /** What one in-memory fetch left behind: whether `curl_easy_init` succeeded,
      whether `curl_easy_perform` returned CURLE_OK, the response code read back,
      and the response buffer (`None` while the pointer is still NULL, that is,
      when the write callback never ran). */
  datatype Transfer = Transfer(initOk: bool, transportOk: bool, status: int, received: Option<string>)

  /** What one download to a file left behind: `curl_easy_init`, `fopen(output, "wb")`,
      `curl_easy_perform` and the response code. */
  datatype Download = Download(initOk: bool, fileOpened: bool, transportOk: bool, status: int)

  /** The characters RFC 3986 calls unreserved: ALPHA / DIGIT / "-" / "." / "_" / "~". */
  predicate Unreserved(c: char)
  {
    ('A' <= c <= 'Z') || ('a' <= c <= 'z') || ('0' <= c <= '9') || c == '-' || c == '.' || c == '_' || c == '~'
  }

  const HexDigits: string := "0123456789ABCDEF"

  /** The byte a character stands for. */
  function Byte(c: char): (b: nat)
    ensures b < 256
  {
    c as int % 256
  }

  /** One character as `curl_easy_escape` writes it: itself if unreserved, else `%XX`. */
  function EscapeChar(c: char): (r: string)
    ensures |r| == 1 || |r| == 3
  {
    if Unreserved(c) then [c] else ['%', HexDigits[Byte(c) / 16], HexDigits[Byte(c) % 16]]
  }

  /** `curl_easy_escape(curl, s, 0)`. */
  function Escape(s: string): (r: string)
    ensures |s| <= |r| <= 3 * |s|
    ensures forall i :: 0 <= i < |r| ==> Unreserved(r[i]) || r[i] == '%'
  {
    if s == [] then [] else EscapeChar(s[0]) + Escape(s[1..])
  }

  predicate IsHex(c: char)
  {
    ('0' <= c <= '9') || ('A' <= c <= 'F')
  }

  function HexValue(c: char): (v: nat)
    requires IsHex(c)
    ensures v < 16
  {
    if '0' <= c <= '9' then c as int - '0' as int else c as int - 'A' as int + 10
  }

  /** Percent-decoding, the inverse of `Escape` on byte strings. */
  function Unescape(s: string): string
  {
    if |s| >= 3 && s[0] == '%' && IsHex(s[1]) && IsHex(s[2]) then
      [(HexValue(s[1]) * 16 + HexValue(s[2])) as char] + Unescape(s[3..])
    else if s == [] then
      []
    else
      [s[0]] + Unescape(s[1..])
  }

  /** Escaping distributes over concatenation. */
  lemma {:induction false} EscapeConcat(a: string, b: string)
    ensures Escape(a + b) == Escape(a) + Escape(b)
  {
    if a != [] {
      assert (a + b)[1..] == a[1..] + b;
      EscapeConcat(a[1..], b);
    } else {
      assert a + b == b;
    }
  }

  /** The `%2F` that stands for a slash is escaped to `%252F`. */
  lemma EscapePercent2F()
    ensures Escape("%2F") == "%252F"
  {
    assert "%2F"[1..] == "2F" && "2F"[1..] == "F" && "F"[1..] == [];
    assert Escape("F") == "F";
    assert Escape("2F") == "2F";
    assert Byte('%') == 37;
  }

  /** A text of unreserved characters is left as it is. */
  lemma {:induction false} EscapeUnreserved(s: string)
    requires forall i :: 0 <= i < |s| ==> Unreserved(s[i])
    ensures Escape(s) == s
  {
    if s != [] {
      EscapeUnreserved(s[1..]);
    }
  }

  /** Each hex digit decodes to its position in `HexDigits`. */
  lemma HexDigitValue(n: nat)
    requires n < 16
    ensures IsHex(HexDigits[n]) && HexValue(HexDigits[n]) == n
  {
  }

  /** Decoding the escape of one byte gives that byte back, whatever follows. */
  lemma UnescapeEscapeChar(c: char, t: string)
    requires c as int < 256
    ensures Unescape(EscapeChar(c) + t) == [c] + Unescape(t)
  {
    var e := EscapeChar(c);
    if Unreserved(c) {
      assert (e + t)[0] == c && (e + t)[1..] == t;
    } else {
      HexDigitValue(Byte(c) / 16);
      HexDigitValue(Byte(c) % 16);
      assert (e + t)[3..] == t;
    }
  }

  /** Decoding an escaped byte string gives the string back. */
  lemma {:induction false} UnescapeEscape(s: string)
    requires forall i :: 0 <= i < |s| ==> s[i] as int < 256
    ensures Unescape(Escape(s)) == s
  {
    if s != [] {
      UnescapeEscapeChar(s[0], Escape(s[1..]));
      UnescapeEscape(s[1..]);
    }
  }
}
