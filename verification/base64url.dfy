/** The identifier encoding every controller copies as `Base64UrlEncode`:
    the UTF-8 bytes of the identifier (RFC 3629, section 3), base64 encoded with
    `Convert.ToBase64String` (RFC 4648, section 4), then made URL-safe by replacing
    '+' with '-' and '/' with '_' and removing the '=' padding (RFC 4648, section 5).
    Five controllers remove the padding with `Replace("=", "")`; the match controller
    uses `TrimEnd('=')`. Both are modelled, and proved to agree. */
module Base64Url {
  import opened Wrappers
  import opened Strings

  type byte = x: int | 0 <= x < 256
  type sextet = x: int | 0 <= x < 64

  // ---------------------------------------------------------------- UTF-8

  /** The UTF-8 bytes of one Unicode scalar value. */
  function ScalarBytes(c: char): (r: seq<byte>)
    ensures 1 <= |r| <= 4
  {
    var n := c as int;
    if n < 0x80 then [n]
    else if n < 0x800 then [0xC0 + n / 64, 0x80 + n % 64]
    else if n < 0x10000 then [0xE0 + n / 4096, 0x80 + n / 64 % 64, 0x80 + n % 64]
    else [0xF0 + n / 262144, 0x80 + n / 4096 % 64, 0x80 + n / 64 % 64, 0x80 + n % 64]
  }

  /** `Encoding.UTF8.GetBytes(s)` */
  function Utf8(s: string): (r: seq<byte>)
    ensures |s| <= |r| <= 4 * |s|
  {
    if |s| == 0 then [] else ScalarBytes(s[0]) + Utf8(s[1..])
  }

  predicate IsContinuation(b: byte) {
    0x80 <= b < 0xC0
  }

  /** Reads one scalar value from the front of `bs`: the value and the number of bytes
      it took, or None for bytes that are not well-formed UTF-8. */
  function DecodeScalar(bs: seq<byte>): (r: Option<(char, nat)>)
    requires |bs| > 0
    ensures r.Some? ==> 1 <= r.value.1 <= |bs|
  {
    var b0: int := bs[0];
    if b0 < 0x80 then Some((b0 as char, 1))
    else if 0xC0 <= b0 < 0xE0 then
      if |bs| < 2 || !IsContinuation(bs[1]) then None
      else
        var n := (b0 - 0xC0) * 64 + (bs[1] as int - 0x80);
        if n < 0x80 then None else Some((n as char, 2))
    else if 0xE0 <= b0 < 0xF0 then
      if |bs| < 3 || !IsContinuation(bs[1]) || !IsContinuation(bs[2]) then None
      else
        var n := (b0 - 0xE0) * 4096 + (bs[1] as int - 0x80) * 64 + (bs[2] as int - 0x80);
        if n < 0x800 || (0xD800 <= n < 0xE000) then None else Some((n as char, 3))
    else if 0xF0 <= b0 < 0xF8 then
      if |bs| < 4 || !IsContinuation(bs[1]) || !IsContinuation(bs[2]) || !IsContinuation(bs[3]) then None
      else
        var n := (b0 - 0xF0) * 262144 + (bs[1] as int - 0x80) * 4096 + (bs[2] as int - 0x80) * 64 + (bs[3] as int - 0x80);
        if n < 0x10000 || n > 0x10FFFF then None else Some((n as char, 4))
    else None
  }

  /** The scalar values encoded by `bs`, or None when `bs` is not well-formed UTF-8. */
  function DecodeUtf8(bs: seq<byte>): Option<string>
    decreases |bs|
  {
    if |bs| == 0 then Some([])
    else match DecodeScalar(bs)
      case None => None
      case Some((c, k)) =>
        match DecodeUtf8(bs[k..])
        case None => None
        case Some(rest) => Some([c] + rest)
  }

  lemma SplitBase64(n: int)
    requires 0 <= n
    ensures n / 4096 == n / 64 / 64
    ensures n / 262144 == n / 4096 / 64
  {
    var q := n / 64;
    assert n == q / 64 * 4096 + q % 64 * 64 + n % 64;
    var q2 := n / 4096;
    assert n == q2 / 64 * 262144 + q2 % 64 * 4096 + n % 4096;
  }

  /** One scalar value survives encoding and decoding. */
  lemma ScalarRoundTrip(c: char, rest: seq<byte>)
    ensures DecodeScalar(ScalarBytes(c) + rest) == Some((c, |ScalarBytes(c)|))
  {
    var n := c as int;
    var bs := ScalarBytes(c) + rest;
    SplitBase64(n);
    if n < 0x80 {
    } else if n < 0x800 {
      assert (n / 64) * 64 + n % 64 == n;
    } else if n < 0x10000 {
      assert (n / 4096) * 4096 + (n / 64 % 64) * 64 + n % 64 == n;
    } else {
      assert (n / 262144) * 262144 + (n / 4096 % 64) * 4096 + (n / 64 % 64) * 64 + n % 64 == n;
    }
  }

  /** Decoding the UTF-8 bytes of a string gives the string back: UTF-8 loses nothing. */
  lemma {:induction false} Utf8RoundTrip(s: string)
    ensures DecodeUtf8(Utf8(s)) == Some(s)
  {
    if |s| > 0 {
      var head := ScalarBytes(s[0]);
      ScalarRoundTrip(s[0], Utf8(s[1..]));
      assert (head + Utf8(s[1..]))[|head|..] == Utf8(s[1..]);
      Utf8RoundTrip(s[1..]);
      assert [s[0]] + s[1..] == s;
    }
  }

  // ---------------------------------------------------------------- base64

  /** The sextets (6-bit groups) of `bs`, three bytes to four sextets; a final group of
      one or two bytes gives two or three sextets, zero-filled on the right. */
  function Sextets(bs: seq<byte>): (r: seq<sextet>)
    decreases |bs|
  {
    if |bs| == 0 then []
    else if |bs| == 1 then Group(bs[0], 0, 0)[..2]
    else if |bs| == 2 then Group(bs[0], bs[1], 0)[..3]
    else Group(bs[0], bs[1], bs[2]) + Sextets(bs[3..])
  }

  /** The bytes a sequence of sextets stands for; a lone trailing sextet is malformed. */
  function DecodeSextets(vs: seq<sextet>): Option<seq<byte>>
    decreases |vs|
  {
    if |vs| == 0 then Some([])
    else if |vs| == 1 then None
    else if |vs| == 2 then Some(Ungroup(vs[0], vs[1], 0, 0)[..1])
    else if |vs| == 3 then Some(Ungroup(vs[0], vs[1], vs[2], 0)[..2])
    else
      match DecodeSextets(vs[4..])
      case None => None
      case Some(rest) => Some(Ungroup(vs[0], vs[1], vs[2], vs[3]) + rest)
  }

  /** Three bytes as four sextets. */
  function Group(x: byte, y: byte, z: byte): (r: seq<sextet>)
    ensures |r| == 4
  {
    [x / 4, x % 4 * 16 + y / 16, y % 16 * 4 + z / 64, z % 64]
  }

  /** Four sextets as three bytes. */
  function Ungroup(a: sextet, b: sextet, c: sextet, d: sextet): (r: seq<byte>)
    ensures |r| == 3
  {
    [a * 4 + b / 16, b % 16 * 16 + c / 4, c % 4 * 64 + d]
  }

  /** The arithmetic of one group: four sextets regroup into the three bytes they came from. */
  lemma GroupInverse(x: byte, y: byte, z: byte)
    ensures var g := Group(x, y, z); Ungroup(g[0], g[1], g[2], g[3]) == [x, y, z]
  {
  }

  /** Every three bytes give four sextets, and a final group of one or two bytes gives
      two or three. */
  lemma {:induction false} SextetsLength(bs: seq<byte>)
    ensures |Sextets(bs)| == 4 * (|bs| / 3) + (if |bs| % 3 == 0 then 0 else |bs| % 3 + 1)
    decreases |bs|
  {
    if |bs| >= 3 {
      SextetsLength(bs[3..]);
      assert |bs[3..]| / 3 == |bs| / 3 - 1;
      assert |bs[3..]| % 3 == |bs| % 3;
    }
  }

  /** Regrouping the sextets into bytes gives the original bytes back. */
  lemma {:induction false} SextetsRoundTrip(bs: seq<byte>)
    ensures DecodeSextets(Sextets(bs)) == Some(bs)
    decreases |bs|
  {
    if |bs| >= 3 {
      SextetsRoundTrip(bs[3..]);
      GroupRoundTrip(bs);
    } else {
      TailRoundTrip(bs);
    }
  }

  lemma GroupRoundTrip(bs: seq<byte>)
    requires |bs| >= 3
    requires DecodeSextets(Sextets(bs[3..])) == Some(bs[3..])
    ensures DecodeSextets(Sextets(bs)) == Some(bs)
  {
    var x, y, z := bs[0], bs[1], bs[2];
    var g := Group(x, y, z);
    assert Sextets(bs) == g + Sextets(bs[3..]);
    DecodeAfterGroup(g, Sextets(bs[3..]), bs[3..]);
    assert Ungroup(g[0], g[1], g[2], g[3]) == [x, y, z] by {
      GroupInverse(x, y, z);
    }
    SplitThree(bs);
  }

  /** Four sextets in front of a decodable tail decode to their group in front of it. */
  lemma DecodeAfterGroup(g: seq<sextet>, tail: seq<sextet>, rest: seq<byte>)
    requires |g| == 4
    requires DecodeSextets(tail) == Some(rest)
    ensures DecodeSextets(g + tail) == Some(Ungroup(g[0], g[1], g[2], g[3]) + rest)
  {
    assert (g + tail)[4..] == tail;
  }

  lemma SplitThree(bs: seq<byte>)
    requires |bs| >= 3
    ensures bs == [bs[0], bs[1], bs[2]] + bs[3..]
  {
  }

  lemma TailRoundTrip(bs: seq<byte>)
    requires |bs| < 3
    ensures DecodeSextets(Sextets(bs)) == Some(bs)
  {
    if |bs| == 2 {
      PairRoundTrip(bs[0], bs[1]);
      assert bs == [bs[0], bs[1]];
    } else if |bs| == 1 {
      SingleRoundTrip(bs[0]);
      assert bs == [bs[0]];
    }
  }

  lemma PairRoundTrip(x: byte, y: byte)
    ensures DecodeSextets(Group(x, y, 0)[..3]) == Some([x, y])
  {
    var vs := Group(x, y, 0)[..3];
    assert DecodeSextets(vs) == Some(Ungroup(vs[0], vs[1], vs[2], 0)[..2]);
    assert vs[0] == x / 4 && vs[1] == x % 4 * 16 + y / 16 && vs[2] == y % 16 * 4;
    PairArithmetic(x, y);
    assert Ungroup(vs[0], vs[1], vs[2], 0)[..2] == [x, y];
  }

  lemma PairArithmetic(x: int, y: int)
    requires 0 <= x < 256 && 0 <= y < 256
    ensures x / 4 * 4 + (x % 4 * 16 + y / 16) / 16 == x
    ensures (x % 4 * 16 + y / 16) % 16 * 16 + y % 16 * 4 / 4 == y
  {
  }

  lemma SingleRoundTrip(x: byte)
    ensures DecodeSextets(Group(x, 0, 0)[..2]) == Some([x])
  {
    var g := Group(x, 0, 0);
    assert Ungroup(g[0], g[1], 0, 0)[..1] == [x];
  }

  /** The digit for `v` in the standard alphabet of RFC 4648, section 4. */
  function StdDigit(v: sextet): char {
    if v < 26 then ('A' as int + v) as char
    else if v < 52 then ('a' as int + v - 26) as char
    else if v < 62 then ('0' as int + v - 52) as char
    else if v == 62 then '+'
    else '/'
  }

  /** The digit for `v` in the URL- and filename-safe alphabet of RFC 4648, section 5. */
  function UrlDigit(v: sextet): char {
    if v < 62 then StdDigit(v) else if v == 62 then '-' else '_'
  }

  /** The characters of the URL-safe alphabet. */
  predicate IsUrlDigit(c: char) {
    'A' <= c <= 'Z' || 'a' <= c <= 'z' || '0' <= c <= '9' || c == '-' || c == '_'
  }

  /** The value of a digit of the URL-safe alphabet, the inverse of UrlDigit. */
  function UrlDigitValue(c: char): (r: Option<sextet>)
    ensures r.Some? <==> IsUrlDigit(c)
  {
    if 'A' <= c <= 'Z' then Some(c as int - 'A' as int)
    else if 'a' <= c <= 'z' then Some(c as int - 'a' as int + 26)
    else if '0' <= c <= '9' then Some(c as int - '0' as int + 52)
    else if c == '-' then Some(62)
    else if c == '_' then Some(63)
    else None
  }

  lemma UrlDigitRoundTrip(v: sextet)
    ensures IsUrlDigit(UrlDigit(v))
    ensures UrlDigitValue(UrlDigit(v)) == Some(v)
  {
  }

  function StdDigits(vs: seq<sextet>): (r: string)
    ensures |r| == |vs|
  {
    seq(|vs|, i requires 0 <= i < |vs| => StdDigit(vs[i]))
  }

  function UrlDigits(vs: seq<sextet>): (r: string)
    ensures |r| == |vs|
  {
    seq(|vs|, i requires 0 <= i < |vs| => UrlDigit(vs[i]))
  }

  /** The values of a string of URL-safe digits, or None if some character is not one. */
  function UrlValues(t: string): Option<seq<sextet>>
  {
    if |t| == 0 then Some([])
    else match (UrlDigitValue(t[0]), UrlValues(t[1..]))
      case (Some(v), Some(vs)) => Some([v] + vs)
      case _ => None
  }

  lemma {:induction false} UrlValuesRoundTrip(vs: seq<sextet>)
    ensures UrlValues(UrlDigits(vs)) == Some(vs)
  {
    if |vs| > 0 {
      UrlDigitRoundTrip(vs[0]);
      assert UrlDigits(vs)[1..] == UrlDigits(vs[1..]);
      UrlValuesRoundTrip(vs[1..]);
      assert [vs[0]] + vs[1..] == vs;
    }
  }

  /** The '=' padding `Convert.ToBase64String` appends to a final group of one or two bytes. */
  function Padding(byteCount: nat): (r: string)
    ensures forall i :: 0 <= i < |r| ==> r[i] == '='
  {
    if byteCount % 3 == 1 then "==" else if byteCount % 3 == 2 then "=" else ""
  }

  /** `Convert.ToBase64String(bs)` */
  function ToBase64String(bs: seq<byte>): string {
    StdDigits(Sextets(bs)) + Padding(|bs|)
  }

  /** `Base64UrlEncode` as five controllers write it:
      `.Replace("+", "-").Replace("/", "_").Replace("=", "")`. */
  function Base64UrlEncode(s: string): string {
    ReplaceAll(ReplaceAll(ReplaceAll(ToBase64String(Utf8(s)), "+", "-"), "/", "_"), "=", "")
  }

  /** `Base64UrlEncode` as the match controller writes it:
      `.Replace('+', '-').Replace('/', '_').TrimEnd('=')`. */
  function Base64UrlEncodeTrimmed(s: string): string {
    TrimEnd(SwapChar(SwapChar(ToBase64String(Utf8(s)), '+', '-'), '/', '_'), '=')
  }

  /** RFC 4648 section 5 decoding of unpadded base64url text. */
  function Base64UrlDecode(t: string): Option<seq<byte>> {
    match UrlValues(t)
    case None => None
    case Some(vs) => DecodeSextets(vs)
  }

  // ---------------------------------------------------------------- proofs

  /** Swapping '+' and '/' for '-' and '_' turns standard digits into URL-safe ones
      and leaves the padding alone. */
  lemma SwapsMakeUrlSafe(vs: seq<sextet>, pad: string)
    requires forall i :: 0 <= i < |pad| ==> pad[i] == '='
    ensures SwapChar(SwapChar(StdDigits(vs) + pad, '+', '-'), '/', '_') == UrlDigits(vs) + pad
  {
    var lhs := SwapChar(SwapChar(StdDigits(vs) + pad, '+', '-'), '/', '_');
    assert |lhs| == |UrlDigits(vs) + pad|;
    forall i | 0 <= i < |lhs|
      ensures lhs[i] == (UrlDigits(vs) + pad)[i]
    {
      if i < |vs| {
        assert (StdDigits(vs) + pad)[i] == StdDigit(vs[i]);
      } else {
        assert (StdDigits(vs) + pad)[i] == pad[i - |vs|];
      }
    }
  }

  lemma {:induction false} DropCharAppend(a: string, b: string, c: char)
    ensures DropChar(a + b, c) == DropChar(a, c) + DropChar(b, c)
    decreases |a|
  {
    if |a| > 0 {
      assert (a + b)[1..] == a[1..] + b;
      DropCharAppend(a[1..], b, c);
    } else {
      assert a + b == b;
    }
  }

  lemma {:induction false} DropCharAbsent(a: string, c: char)
    requires forall i :: 0 <= i < |a| ==> a[i] != c
    ensures DropChar(a, c) == a
    decreases |a|
  {
    if |a| > 0 {
      DropCharAbsent(a[1..], c);
    }
  }

  lemma {:induction false} DropCharAll(a: string, c: char)
    requires forall i :: 0 <= i < |a| ==> a[i] == c
    ensures DropChar(a, c) == ""
    decreases |a|
  {
    if |a| > 0 {
      DropCharAll(a[1..], c);
    }
  }

  lemma {:induction false} TrimEndSuffix(a: string, b: string, c: char)
    requires |a| == 0 || a[|a| - 1] != c
    requires forall i :: 0 <= i < |b| ==> b[i] == c
    ensures TrimEnd(a + b, c) == a
    decreases |b|
  {
    if |b| > 0 {
      assert (a + b)[..|a + b| - 1] == a + b[..|b| - 1];
      TrimEndSuffix(a, b[..|b| - 1], c);
    } else {
      assert a + b == a;
    }
  }

  /** The replace-based encoder is the URL-safe digits of the sextets of the UTF-8 bytes. */
  lemma ReplaceVariantIsUrlDigits(s: string)
    ensures Base64UrlEncode(s) == UrlDigits(Sextets(Utf8(s)))
  {
    var bs := Utf8(s);
    var vs := Sextets(bs);
    var pad := Padding(|bs|);
    ReplaceOneCharIsSwap(ToBase64String(bs), '+', '-');
    ReplaceOneCharIsSwap(SwapChar(ToBase64String(bs), '+', '-'), '/', '_');
    SwapsMakeUrlSafe(vs, pad);
    ReplaceOneCharByEmptyIsDrop(UrlDigits(vs) + pad, '=');
    DropCharAppend(UrlDigits(vs), pad, '=');
    DropCharAbsent(UrlDigits(vs), '=');
    DropCharAll(pad, '=');
  }

  /** The TrimEnd-based encoder is the same string. */
  lemma TrimVariantIsUrlDigits(s: string)
    ensures Base64UrlEncodeTrimmed(s) == UrlDigits(Sextets(Utf8(s)))
  {
    var bs := Utf8(s);
    var vs := Sextets(bs);
    var pad := Padding(|bs|);
    SwapsMakeUrlSafe(vs, pad);
    TrimEndSuffix(UrlDigits(vs), pad, '=');
  }

  /** `Replace("=", "")` and `TrimEnd('=')` agree on every identifier, because '=' only
      ever appears as trailing padding. */
  lemma EncodersAgree(s: string)
    ensures Base64UrlEncode(s) == Base64UrlEncodeTrimmed(s)
  {
    ReplaceVariantIsUrlDigits(s);
    TrimVariantIsUrlDigits(s);
  }

  /** The encoding uses only `A-Z a-z 0-9 - _` (so never '=', '+' or '/') and has
      4*(n/3) + [0, 2, 3][n % 3] characters for n UTF-8 bytes. */
  lemma EncodingShape(s: string)
    ensures forall i :: 0 <= i < |Base64UrlEncode(s)| ==> IsUrlDigit(Base64UrlEncode(s)[i])
    ensures var n := |Utf8(s)|;
      |Base64UrlEncode(s)| == 4 * (n / 3) + (if n % 3 == 0 then 0 else if n % 3 == 1 then 2 else 3)
  {
    ReplaceVariantIsUrlDigits(s);
    SextetsLength(Utf8(s));
    var vs := Sextets(Utf8(s));
    forall i | 0 <= i < |vs|
      ensures IsUrlDigit(UrlDigits(vs)[i])
    {
      UrlDigitRoundTrip(vs[i]);
    }
  }

  /** Decoding the encoding gives back the UTF-8 bytes of the identifier. */
  lemma EncodingRoundTrip(s: string)
    ensures Base64UrlDecode(Base64UrlEncode(s)) == Some(Utf8(s))
  {
    ReplaceVariantIsUrlDigits(s);
    UrlValuesRoundTrip(Sextets(Utf8(s)));
    SextetsRoundTrip(Utf8(s));
  }

  /** Distinct identifiers get distinct path segments. */
  lemma EncodingInjective(s: string, t: string)
    requires Base64UrlEncode(s) == Base64UrlEncode(t)
    ensures s == t
  {
    EncodingRoundTrip(s);
    EncodingRoundTrip(t);
    Utf8RoundTrip(s);
    Utf8RoundTrip(t);
  }
}
