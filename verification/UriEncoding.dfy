/** Percent-encoding of query values (RFC 3986 section 2.1, in the strict form request signing
    asks for), and the hexadecimal digits shared with digests and blob keys. */
module UriEncoding {
  import opened Options

  type Byte = b: nat | b < 256

  type Bytes = seq<Byte>

  const LOWER: string := "0123456789abcdef"
  const UPPER: string := "0123456789ABCDEF"

  predicate Unreserved(c: char) {
    'A' <= c <= 'Z' || 'a' <= c <= 'z' || '0' <= c <= '9' || c == '-' || c == '.' || c == '_' || c == '~'
  }

  /** The unreserved characters of RFC 3986 section 2.3: letters, digits, '-', '.', '_' and '~'. */
  lemma UnreservedIff(c: char)
    ensures var n := c as int;
            Unreserved(c) <==> 0x41 <= n <= 0x5A || 0x61 <= n <= 0x7A || 0x30 <= n <= 0x39 || n in {0x2D, 0x2E, 0x5F,
                  0x7E}
  {
  }

  /** The two digits of a byte, high one first. */
  function Hex2(b: Byte, digits: string): (r: string)
    requires |digits| == 16
    ensures |r| == 2
  {
    [digits[b / 16], digits[b % 16]]
  }

  function EncodeByte(b: Byte): string {
    var c := b as char;
    if Unreserved(c) then [c] else ['%'] + Hex2(b, UPPER)
  }

  function Encoded(s: Bytes): string
    decreases |s|
  {
    if s == [] then [] else Encoded(s[..|s| - 1]) + EncodeByte(s[|s| - 1])
  }

  method UriEncode(s: Bytes) returns (out: string)
    ensures out == Encoded(s)
  {
    hide EncodeByte;
    out := "";
    for i := 0 to |s|
      invariant out == Encoded(s[..i])
    {
      var b := s[i];
      var c := b as char;
      ByteChunk(b);
      assert s[..i + 1][..i] == s[..i];
      if Unreserved(c) {
        out := out + [c];
      } else {
        out := out + ['%'];
        out := out + [UPPER[b / 16]];
        out := out + [UPPER[b % 16]];
      }
    }
    assert s[..|s|] == s;
  }

  lemma ByteChunk(b: Byte)
    ensures EncodeByte(b) == if Unreserved(b as char) then [b as char]
                             else ['%', UPPER[b / 16], UPPER[b % 16]]
  {
  }

  // ----- reading it back -----

  /** The value of a digit; `ten` is the letter for ten. */
  function HexValue(c: char, ten: char): Option<nat> {
    if '0' <= c <= '9' then Some((c - '0') as nat)
    else if ten <= c && c as nat < ten as nat + 6 then Some((c - ten) as nat + 10)
    else None
  }

  function ReadByte(hi: char, lo: char, ten: char): Option<Byte> {
    match (HexValue(hi, ten), HexValue(lo, ten))
    case (Some(h), Some(l)) => if h < 16 && l < 16 then Some(16 * h + l) else None
    case _ => None
  }

  /** Decoding as RFC 3986 defines it; `None` for what no encoder writes. */
  function Decode(t: string): Option<Bytes>
    decreases |t|
  {
    if t == [] then Some([])
    else if t[0] == '%' then
      if |t| < 3 then None
      else match (ReadByte(t[1], t[2], 'A'), Decode(t[3..]))
        case (Some(b), Some(rest)) => Some([b] + rest)
        case _ => None
    else if !Unreserved(t[0]) then None
    else match Decode(t[1..])
      case Some(rest) => Some([t[0] as nat] + rest)
      case None => None
  }

  lemma DigitValues(k: nat)
    requires k < 16
    ensures HexValue(UPPER[k], 'A') == Some(k) && HexValue(LOWER[k], 'a') == Some(k)
  {
  }

  lemma Hex2ReadsBack(b: Byte)
    ensures var u := Hex2(b, UPPER); ReadByte(u[0], u[1], 'A') == Some(b)
    ensures var l := Hex2(b, LOWER); ReadByte(l[0], l[1], 'a') == Some(b)
  {
    DigitValues(b / 16);
    DigitValues(b % 16);
    hide HexValue;
  }

  lemma DecodeByte(b: Byte, rest: string)
    ensures Decode(EncodeByte(b) + rest) ==
            match Decode(rest) case Some(s) => Some([b] + s) case None => None
  {
    var t := EncodeByte(b) + rest;
    Hex2ReadsBack(b);
    hide Hex2, ReadByte;
    if Unreserved(b as char) {
      assert t[1..] == rest;
    } else {
      assert t[3..] == rest;
    }
  }

  lemma {:induction false} EncodedConcat(s: Bytes, t: Bytes)
    ensures Encoded(s + t) == Encoded(s) + Encoded(t)
    decreases |t|
  {
    hide EncodeByte;
    if t == [] {
      assert s + t == s;
    } else {
      assert (s + t)[..|s + t| - 1] == s + t[..|t| - 1];
      EncodedConcat(s, t[..|t| - 1]);
    }
  }

  /** Nothing is lost: decoding gives back every byte string. */
  lemma {:induction false} EncodedRoundTrip(s: Bytes)
    ensures Decode(Encoded(s)) == Some(s)
    decreases |s|
  {
    hide EncodeByte;
    if s == [] {
    } else {
      assert s == [s[0]] + s[1..];
      EncodedConcat([s[0]], s[1..]);
      assert [s[0]][..0] == [];
      assert Encoded([s[0]]) == Encoded([]) + EncodeByte(s[0]) == EncodeByte(s[0]);
      assert Encoded(s) == EncodeByte(s[0]) + Encoded(s[1..]);
      EncodedRoundTrip(s[1..]);
      DecodeByte(s[0], Encoded(s[1..]));
    }
  }

  /** Only unreserved characters and escapes appear, so the result stands unchanged between
      the separators of a query. */
  lemma {:induction false} EncodedIsSafe(s: Bytes)
    ensures forall c :: c in Encoded(s) ==> Unreserved(c) || c == '%'
    decreases |s|
  {
    if s == [] {
    } else {
      var b := s[|s| - 1];
      EncodedIsSafe(s[..|s| - 1]);
      DigitsUnreserved(b / 16);
      DigitsUnreserved(b % 16);
    }
  }

  lemma DigitsUnreserved(k: nat)
    requires k < 16
    ensures Unreserved(UPPER[k])
  {
  }

  // ----- blob names -----

  /** `to_hex`: the name a blob is stored under. */
  function HexName(id: Bytes): (r: string)
    ensures |r| == 2 * |id|
    decreases |id|
  {
    if id == [] then [] else HexName(id[..|id| - 1]) + Hex2(id[|id| - 1], LOWER)
  }

  method ToHex(id: Bytes) returns (s: string)
    ensures s == HexName(id)
  {
    s := "";
    for i := 0 to |id|
      invariant s == HexName(id[..i])
    {
      assert id[..i + 1][..i] == id[..i];
      s := s + [LOWER[id[i] / 16]];
      s := s + [LOWER[id[i] % 16]];
    }
    assert id[..|id|] == id;
  }

  lemma SplitLast(p: string, q: string, r: string, t: string)
    requires p + q == r + t && |q| == |t|
    ensures p == r && q == t
  {
    assert p == (p + q)[..|p|] && r == (r + t)[..|r|];
    assert q == (p + q)[|p|..] && t == (r + t)[|r|..];
  }

  lemma Hex2Injective(x: Byte, y: Byte)
    requires Hex2(x, LOWER) == Hex2(y, LOWER)
    ensures x == y
  {
    Hex2ReadsBack(x);
    Hex2ReadsBack(y);
    hide Hex2, ReadByte;
  }

  /** Different digests have different names. */
  lemma {:induction false} HexNameInjective(a: Bytes, b: Bytes)
    requires HexName(a) == HexName(b)
    ensures a == b
    decreases |a|
  {
    if a == [] {
    } else {
      hide Hex2;
      var x, y := a[|a| - 1], b[|b| - 1];
      SplitLast(HexName(a[..|a| - 1]), Hex2(x, LOWER), HexName(b[..|b| - 1]), Hex2(y, LOWER));
      Hex2Injective(x, y);
      HexNameInjective(a[..|a| - 1], b[..|b| - 1]);
      assert a == a[..|a| - 1] + [x] && b == b[..|b| - 1] + [y];
    }
  }
}
