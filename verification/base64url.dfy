/**
 `base64.URLEncoding.EncodeToString`: the URL- and file-name-safe alphabet of
 section 5 of RFC 4648 ('-' and '_' in place of '+' and '/') with '=' padding,
 and the UTF-8 bytes of a string (`[]byte(s)`). A decoder is defined only to
 state that the encoding loses nothing.
 */
module Base64Url {
  import opened Common

  type Byte = x: int | 0 <= x < 256

  /** Symbol `v` of the alphabet: 'A'..'Z', 'a'..'z', '0'..'9', '-', '_'. */
  function Symbol(v: int): (c: char)
    requires 0 <= v < 64
  {
    if v < 26 then ('A' as int + v) as char
    else if v < 52 then ('a' as int + (v - 26)) as char
    else if v < 62 then ('0' as int + (v - 52)) as char
    else if v == 62 then '-'
    else '_'
  }

  predicate IsSymbol(c: char) {
    ('A' <= c <= 'Z') || ('a' <= c <= 'z') || ('0' <= c <= '9') || c == '-' || c == '_'
  }

  /** The value of a symbol; the inverse of `Symbol`. */
  function SymbolValue(c: char): (v: int)
    requires IsSymbol(c)
    ensures 0 <= v < 64 && Symbol(v) == c
  {
    if 'A' <= c <= 'Z' then c as int - 'A' as int
    else if 'a' <= c <= 'z' then 26 + (c as int - 'a' as int)
    else if '0' <= c <= '9' then 52 + (c as int - '0' as int)
    else if c == '-' then 62
    else 63
  }

  lemma SymbolRoundTrip(v: int)
    requires 0 <= v < 64
    ensures IsSymbol(Symbol(v)) && SymbolValue(Symbol(v)) == v
  {
  }

  /** Three bytes as four 6-bit symbols. */
  function EncodeGroup(b0: Byte, b1: Byte, b2: Byte): (s: string)
    ensures |s| == 4
  {
    [Symbol(b0 / 4), Symbol((b0 % 4) * 16 + b1 / 16), Symbol((b1 % 16) * 4 + b2 / 64), Symbol(b2 % 64)]
  }

  /** The encoding: whole groups, then a padded final group of one or two bytes. */
  function Encode(b: seq<Byte>): (s: string)
    ensures |s| == (|b| + 2) / 3 * 4
    decreases |b|
  {
    if |b| == 0 then ""
    else if |b| == 1 then EncodeGroup(b[0], 0, 0)[..2] + "=="
    else if |b| == 2 then EncodeGroup(b[0], b[1], 0)[..3] + "="
    else
      GroupCountStep(|b|);
      EncodeGroup(b[0], b[1], b[2]) + Encode(b[3..])
  }

  /** Three more bytes make one more group of four symbols. */
  lemma GroupCountStep(n: int)
    requires n >= 3
    ensures (n + 2) / 3 * 4 == 4 + (n - 1) / 3 * 4
  {
    assert (n + 2) / 3 == (n - 1) / 3 + 1;
  }

  /** An input of three bytes or more starts with a whole group. */
  lemma EncodeLeading(b: seq<Byte>)
    requires |b| >= 3
    ensures Encode(b) == EncodeGroup(b[0], b[1], b[2]) + Encode(b[3..])
  {
  }

  /** Four symbols back to three bytes. */
  function DecodeGroup(s: string): (b: seq<Byte>)
    requires |s| == 4 && forall i | 0 <= i < 4 :: IsSymbol(s[i])
    ensures |b| == 3
  {
    var x, y, z, w := SymbolValue(s[0]), SymbolValue(s[1]), SymbolValue(s[2]), SymbolValue(s[3]);
    [x * 4 + y / 16, (y % 16) * 16 + z / 4, (z % 4) * 64 + w]
  }

  /** The decoder: `None` for text that is not a padded encoding. */
  function Decode(s: string): Option<seq<Byte>>
    decreases |s|
  {
    if s == [] then Some([])
    else if |s| < 4 then None
    else if |s| == 4 && s[2] == '=' && s[3] == '=' then
      if IsSymbol(s[0]) && IsSymbol(s[1]) then Some(DecodeGroup(s[..2] + "AA")[..1]) else None
    else if |s| == 4 && s[3] == '=' then
      if IsSymbol(s[0]) && IsSymbol(s[1]) && IsSymbol(s[2]) then Some(DecodeGroup(s[..3] + "A")[..2]) else None
    else if IsSymbol(s[0]) && IsSymbol(s[1]) && IsSymbol(s[2]) && IsSymbol(s[3]) then
      match Decode(s[4..])
      case None => None
      case Some(rest) => Some(DecodeGroup(s[..4]) + rest)
    else None
  }

  /** The bit arithmetic of a group: the four 6-bit values put back together give the three bytes. */
  lemma GroupBits(b0: Byte, b1: Byte, b2: Byte)
    ensures 0 <= b0 / 4 < 64 && 0 <= (b0 % 4) * 16 + b1 / 16 < 64 && 0 <= (b1 % 16) * 4 + b2 / 64 < 64
    ensures (b0 / 4) * 4 + ((b0 % 4) * 16 + b1 / 16) / 16 == b0
    ensures (((b0 % 4) * 16 + b1 / 16) % 16) * 16 + ((b1 % 16) * 4 + b2 / 64) / 4 == b1
    ensures (((b1 % 16) * 4 + b2 / 64) % 4) * 64 + b2 % 64 == b2
  {
    var y, z := (b0 % 4) * 16 + b1 / 16, (b1 % 16) * 4 + b2 / 64;
    assert y / 16 == b0 % 4 && y % 16 == b1 / 16;
    assert z / 4 == b1 % 16 && z % 4 == b2 / 64;
  }

  /** One group decodes to the bytes it encodes. */
  lemma GroupRoundTrip(b0: Byte, b1: Byte, b2: Byte)
    ensures var s := EncodeGroup(b0, b1, b2);
            (forall i | 0 <= i < 4 :: IsSymbol(s[i])) && DecodeGroup(s) == [b0, b1, b2]
  {
    GroupBits(b0, b1, b2);
    var x, y, z, w := b0 / 4, (b0 % 4) * 16 + b1 / 16, (b1 % 16) * 4 + b2 / 64, b2 % 64;
    var s := EncodeGroup(b0, b1, b2);
    assert s == [Symbol(x), Symbol(y), Symbol(z), Symbol(w)];
    SymbolRoundTrip(x);
    SymbolRoundTrip(y);
    SymbolRoundTrip(z);
    SymbolRoundTrip(w);
    assert DecodeGroup(s) == [x * 4 + y / 16, (y % 16) * 16 + z / 4, (z % 4) * 64 + w];
  }

  /** A zero byte in the padded positions contributes no symbol bits. */
  lemma PaddedGroups(b0: Byte, b1: Byte)
    ensures EncodeGroup(b0, 0, 0)[..2] + "AA" == EncodeGroup(b0, 0, 0)
    ensures EncodeGroup(b0, b1, 0)[..3] + "A" == EncodeGroup(b0, b1, 0)
  {
  }

  /** A final single byte decodes back from its two symbols and padding. */
  lemma DecodeOneByte(b0: Byte)
    ensures Decode(Encode([b0])) == Some([b0])
  {
    GroupRoundTrip(b0, 0, 0);
    PaddedGroups(b0, 0);
    var g := EncodeGroup(b0, 0, 0);
    var s := g[..2] + "==";
    assert Encode([b0]) == s;
    assert s[..2] == g[..2];
    assert Decode(s) == Some(DecodeGroup(g)[..1]);
    assert DecodeGroup(g)[..1] == [b0];
  }

  /** A final pair of bytes decodes back from its three symbols and padding. */
  lemma DecodeTwoBytes(b0: Byte, b1: Byte)
    ensures Decode(Encode([b0, b1])) == Some([b0, b1])
  {
    GroupRoundTrip(b0, b1, 0);
    PaddedGroups(b0, b1);
    var g := EncodeGroup(b0, b1, 0);
    var s := g[..3] + "=";
    assert Encode([b0, b1]) == s;
    assert s[..3] == g[..3];
    assert s[2] == g[2] && IsSymbol(g[2]);
    assert Decode(s) == Some(DecodeGroup(g)[..2]);
    assert DecodeGroup(g)[..2] == [b0, b1];
  }

  /** A leading group of four symbols is decoded on its own, before the rest. */
  lemma DecodeLeadingGroup(g: string, rest: string, r: seq<Byte>)
    requires |g| == 4 && forall i | 0 <= i < 4 :: IsSymbol(g[i])
    requires Decode(rest) == Some(r)
    ensures Decode(g + rest) == Some(DecodeGroup(g) + r)
  {
    var s := g + rest;
    assert s[..4] == g && s[4..] == rest;
    assert s[3] != '=' by { assert IsSymbol(g[3]); }
  }

  lemma LeadingThree(b: seq<Byte>)
    requires |b| >= 3
    ensures [b[0], b[1], b[2]] + b[3..] == b
  {
  }

  /** A whole leading group decodes back, given that the rest does. */
  lemma DecodeEncodeStep(b: seq<Byte>)
    requires |b| >= 3 && Decode(Encode(b[3..])) == Some(b[3..])
    ensures Decode(Encode(b)) == Some(b)
  {
    var g, rest := EncodeGroup(b[0], b[1], b[2]), Encode(b[3..]);
    GroupRoundTrip(b[0], b[1], b[2]);
    EncodeLeading(b);
    DecodeLeadingGroup(g, rest, b[3..]);
    LeadingThree(b);
  }

  /** Decoding an encoding gives back the bytes. */
  lemma {:induction false} DecodeEncode(b: seq<Byte>)
    ensures Decode(Encode(b)) == Some(b)
    decreases |b|
  {
    if |b| == 1 {
      assert [b[0]] == b;
      DecodeOneByte(b[0]);
    } else if |b| == 2 {
      assert [b[0], b[1]] == b;
      DecodeTwoBytes(b[0], b[1]);
    } else if |b| >= 3 {
      DecodeEncode(b[3..]);
      DecodeEncodeStep(b);
    }
  }

  /** Every symbol of an encoding is from the alphabet or is padding. */
  lemma {:induction false} EncodeAlphabet(b: seq<Byte>)
    ensures forall i | 0 <= i < |Encode(b)| :: IsSymbol(Encode(b)[i]) || Encode(b)[i] == '='
    decreases |b|
  {
    if |b| >= 1 {
      GroupRoundTrip(b[0], if |b| >= 2 then b[1] else 0, if |b| >= 3 then b[2] else 0);
    }
    if |b| >= 3 {
      EncodeAlphabet(b[3..]);
    }
  }

  // ---------------------------------------------------------------------------
  // UTF-8

  /** The UTF-8 bytes of one character. */
  function Utf8Char(c: char): (b: seq<Byte>)
    ensures 1 <= |b| <= 4
    ensures (c as int < 0x80) <==> |b| == 1
    ensures c as int < 0x80 ==> b == [c as int]
  {
    var v := c as int;
    if v < 0x80 then [v]
    else if v < 0x800 then [0xC0 + v / 0x40, 0x80 + v % 0x40]
    else if v < 0x1_0000 then [0xE0 + v / 0x1000, 0x80 + (v / 0x40) % 0x40, 0x80 + v % 0x40]
    else [0xF0 + v / 0x4_0000, 0x80 + (v / 0x1000) % 0x40, 0x80 + (v / 0x40) % 0x40, 0x80 + v % 0x40]
  }

  /** `[]byte(s)`. */
  function Utf8(s: string): (b: seq<Byte>)
    ensures |b| >= |s|
  {
    if s == [] then [] else Utf8Char(s[0]) + Utf8(s[1..])
  }

  /** Test vectors of section 10 of RFC 4648 (the URL-safe alphabet agrees
      with the standard one on them): one padded group of each length and
      two whole groups, fixing the bit order of the symbols. */
  lemma Rfc4648Vectors()
    ensures Encode(Utf8("f")) == "Zg=="
    ensures Encode(Utf8("fo")) == "Zm8="
    ensures Encode(Utf8("foobar")) == "Zm9vYmFy"
  {
    AsciiBytes("f", [102]);
    AsciiBytes("fo", [102, 111]);
    AsciiBytes("foobar", [102, 111, 111, 98, 97, 114]);
    PaddedVectors();
    FoobarVector();
  }

  /** The bytes of ASCII text are its character codes. */
  lemma AsciiBytes(s: string, b: seq<Byte>)
    requires |s| == |b| && forall i | 0 <= i < |s| :: s[i] as int == b[i] < 0x80
    ensures Utf8(s) == b
  {
    Utf8Ascii(s);
  }

  /** "f" and "fo": one group padded with two and with one '='. */
  lemma PaddedVectors()
    ensures Encode([102]) == "Zg=="
    ensures Encode([102, 111]) == "Zm8="
  {
    assert Symbol(25) == 'Z' && Symbol(38) == 'm' && Symbol(32) == 'g' && Symbol(60) == '8';
    assert EncodeGroup(102, 0, 0)[..2] == "Zg";
    assert EncodeGroup(102, 111, 0)[..3] == "Zm8";
  }

  /** "foobar" is two whole groups, "Zm9v" and "YmFy". */
  lemma FoobarVector()
    ensures Encode([102, 111, 111, 98, 97, 114]) == "Zm9vYmFy"
  {
    var b: seq<Byte> := [102, 111, 111, 98, 97, 114];
    EncodeLeading(b);
    var rest := b[3..];
    assert rest == [98, 97, 114];
    EncodeLeading(rest);
    assert rest[3..] == [];
    FoobarGroups();
  }

  lemma FoobarGroups()
    ensures EncodeGroup(102, 111, 111) == "Zm9v"
    ensures EncodeGroup(98, 97, 114) == "YmFy"
  {
    assert Symbol(25) == 'Z' && Symbol(38) == 'm' && Symbol(61) == '9' && Symbol(47) == 'v';
    assert Symbol(24) == 'Y' && Symbol(38) == 'm' && Symbol(5) == 'F' && Symbol(50) == 'y';
  }

  /** ASCII text is its own byte string. */
  lemma {:induction false} Utf8Ascii(s: string)
    requires forall i | 0 <= i < |s| :: s[i] as int < 0x80
    ensures |Utf8(s)| == |s|
    ensures forall i | 0 <= i < |s| :: Utf8(s)[i] == s[i] as int
  {
    if s != [] {
      Utf8Ascii(s[1..]);
    }
  }

  /** The bytes of a concatenation are the bytes of its parts. */
  lemma {:induction false} Utf8Append(a: string, b: string)
    ensures Utf8(a + b) == Utf8(a) + Utf8(b)
  {
    if a == [] {
      assert a + b == b;
    } else {
      assert (a + b)[0] == a[0];
      assert (a + b)[1..] == a[1..] + b;
      Utf8Append(a[1..], b);
    }
  }
}
