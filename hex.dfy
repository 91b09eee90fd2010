/** Lower-case hexadecimal rendering of digests: `format!("{:02x}", byte)`
    collected over the digest in the Rust tools, `printf("%02x", md_value[i])`
    in the C tools. */
module Hex {
  import opened Bytes
  import opened Wrappers

  /** A character `%02x` can produce: '0'-'9' or 'a'-'f'. */
  predicate IsHexDigit(c: char) {
    '0' <= c <= '9' || 'a' <= c <= 'f'
  }

  predicate IsLowerHex(s: string) {
    forall i :: 0 <= i < |s| ==> IsHexDigit(s[i])
  }

  /** The digit for a nibble. */
  function HexDigit(n: nat): (c: char)
    requires n < 16
    ensures IsHexDigit(c)
    ensures DigitValue(c) == Some(n)
  {
    if n < 10 then ('0' as int + n) as char else ('a' as int + n - 10) as char
  }

  /** The nibble a lower-case hex digit stands for; None for any other character. */
  function DigitValue(c: char): (r: Option<nat>)
    ensures r.Some? <==> IsHexDigit(c)
    ensures r.Some? ==> r.value < 16
  {
    if '0' <= c <= '9' then Some(c as int - '0' as int)
    else if 'a' <= c <= 'f' then Some(c as int - 'a' as int + 10)
    else None
  }

  /** One byte as two lower-case digits, most significant nibble first. */
  function HexByte(b: Byte): (s: string)
    ensures |s| == 2 && IsLowerHex(s)
    ensures DigitValue(s[0]).Some? && DigitValue(s[1]).Some?
    ensures DigitValue(s[0]).value * 16 + DigitValue(s[1]).value == b as int
  {
    [HexDigit(b as int / 16), HexDigit(b as int % 16)]
  }

  /** A whole digest, byte by byte in digest order, with no separators. */
  function HexString(d: seq<Byte>): (s: string)
    ensures |s| == 2 * |d|
    ensures IsLowerHex(s)
  {
    if d == [] then [] else HexString(d[..|d| - 1]) + HexByte(d[|d| - 1])
  }

  /** The inverse of HexString: reads pairs of lower-case digits back into bytes. */
  function ParseHex(s: string): (r: Option<seq<Byte>>)
    ensures r.Some? ==> 2 * |r.value| == |s|
  {
    if s == [] then Some([])
    else if |s| < 2 then None
    else
      match ParseHex(s[..|s| - 2])
      case None => None
      case Some(init) =>
        var hi, lo := DigitValue(s[|s| - 2]), DigitValue(s[|s| - 1]);
        if hi.Some? && lo.Some? then Some(init + [(hi.value * 16 + lo.value) as Byte]) else None
  }

  /** Parsing one more rendered byte appends that byte to what was parsed. */
  lemma ParseHexSnoc(t: string, b: Byte)
    ensures ParseHex(t + HexByte(b)) == if ParseHex(t).Some? then Some(ParseHex(t).value + [b]) else None
  {
    var s, pair := t + HexByte(b), HexByte(b);
    assert s[..|s| - 2] == t;
    assert s[|s| - 2] == pair[0] && s[|s| - 1] == pair[1];
  }

  /** Parsing a rendered digest gives the digest back. */
  lemma {:induction false} ParseHexString(d: seq<Byte>)
    ensures ParseHex(HexString(d)) == Some(d)
  {
    if d != [] {
      var init, last := d[..|d| - 1], d[|d| - 1];
      assert HexString(d) == HexString(init) + HexByte(last);
      ParseHexString(init);
      ParseHexSnoc(HexString(init), last);
      assert init + [last] == d;
    }
  }

  /** Rendering is injective, so comparing the hex strings of two digests (as the
      Rust tools do) decides the same thing as comparing the raw digests (as the
      C tool does with memcmp). */
  lemma HexStringInjective(a: seq<Byte>, b: seq<Byte>)
    ensures HexString(a) == HexString(b) <==> a == b
  {
    if HexString(a) == HexString(b) {
      ParseHexString(a);
      ParseHexString(b);
    }
  }
}
