/** go/internal/model/util.go: identifiers and author strings. The random
    bytes and the git configuration values (`user.name`, `user.email`, already
    trimmed by getGitConfig) are parameters. */
module Util {
  import Text

  newtype byte = x: int | 0 <= x < 256

  /** The lower-case base16 digit for `v` (section 8 of RFC 4648, as
      `hex.EncodeToString` writes it). */
  function HexDigit(v: int): (c: char)
    requires 0 <= v < 16
    ensures IsHexChar(c)
  {
    if v < 10 then ('0' as int + v) as char else ('a' as int + v - 10) as char
  }

  predicate IsHexChar(c: char)
  {
    '0' <= c <= '9' || 'a' <= c <= 'f'
  }

  predicate IsHex(s: string)
  {
    forall i :: 0 <= i < |s| ==> IsHexChar(s[i])
  }

  function HexValue(c: char): (v: int)
    requires IsHexChar(c)
    ensures 0 <= v < 16 && HexDigit(v) == c
  {
    if c <= '9' then c as int - '0' as int else c as int - 'a' as int + 10
  }

  function HexPair(b: byte): (r: string)
    ensures |r| == 2 && IsHexChar(r[0]) && IsHexChar(r[1])
    ensures HexValue(r[0]) * 16 + HexValue(r[1]) == b as int
  {
    var hi, lo := b as int / 16, b as int % 16;
    assert HexValue(HexDigit(hi)) == hi && HexValue(HexDigit(lo)) == lo;
    [HexDigit(hi), HexDigit(lo)]
  }

  /** `hex.EncodeToString`: two digits per byte, high nibble first. */
  function HexEncode(bytes: seq<byte>): (r: string)
    ensures |r| == 2 * |bytes|
    ensures IsHex(r)
  {
    if bytes == [] then "" else HexPair(bytes[0]) + HexEncode(bytes[1..])
  }

  /** The inverse of HexEncode, used only to state that encoding loses nothing. */
  function HexDecode(s: string): (r: seq<byte>)
    requires |s| % 2 == 0 && IsHex(s)
    ensures |r| == |s| / 2
  {
    if s == "" then []
    else [(HexValue(s[0]) * 16 + HexValue(s[1])) as byte] + HexDecode(s[2..])
  }

  lemma {:induction false} HexRoundTrip(bytes: seq<byte>)
    ensures HexDecode(HexEncode(bytes)) == bytes
  {
    if bytes != [] {
      var e := HexEncode(bytes);
      assert e == HexPair(bytes[0]) + HexEncode(bytes[1..]);
      assert e[2..] == HexEncode(bytes[1..]);
      HexRoundTrip(bytes[1..]);
    }
  }

  /** Distinct byte strings encode to distinct hex strings. */
  lemma HexEncodeInjective(a: seq<byte>, b: seq<byte>)
    requires HexEncode(a) == HexEncode(b)
    ensures a == b
  {
    HexRoundTrip(a);
    HexRoundTrip(b);
  }

  /** GenerateID: the 4 random bytes as 8 lower-case hex characters. */
  function GenerateID(random: seq<byte>): (id: string)
    requires |random| == 4
    ensures |id| == 8 && IsHex(id)
    ensures HexDecode(id) == random
  {
    HexRoundTrip(random);
    HexEncode(random)
  }

  lemma GenerateIDInjective(r1: seq<byte>, r2: seq<byte>)
    requires |r1| == 4 && |r2| == 4 && r1 != r2
    ensures GenerateID(r1) != GenerateID(r2)
  {
  }

  const UnknownAuthor: string := "Unknown"

  /** GetAuthorShort: the configured name, or "Unknown" when none is set. */
  function GetAuthorShort(name: string): (r: string)
    ensures r != ""
    ensures name != "" ==> r == name
    ensures name == "" ==> r == UnknownAuthor
  {
    if name == "" then UnknownAuthor else name
  }

  /** GetAuthor: the same name, followed by " <email>" when an email is set. */
  function GetAuthor(name: string, email: string): (r: string)
    ensures email == "" ==> r == GetAuthorShort(name)
    ensures email != "" ==> r == GetAuthorShort(name) + " <" + email + ">"
  {
    var n := if name == "" then UnknownAuthor else name;
    if email != "" then n + " <" + email + ">" else n
  }

  /** The short form is always a prefix of the long form. */
  lemma AuthorShortIsPrefix(name: string, email: string)
    ensures Text.HasPrefix(GetAuthor(name, email), GetAuthorShort(name))
  {
    var s := GetAuthorShort(name);
    if email != "" {
      assert GetAuthor(name, email)[..|s|] == s;
    }
  }
}
