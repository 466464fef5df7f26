/**
 * The application/x-www-form-urlencoded format of the WHATWG URL Standard,
 * which `new URLSearchParams(record).toString()` produces: the serializer of
 * section 5.2 and its inverse, the parser of section 5.1 (up to the point
 * where the parser hands its percent-decoded bytes to UTF-8 decoding).
 */
module FormUrlEncoded {
  import opened Text

  type Byte = b: int | 0 <= b < 256

  // ---------------------------------------------------------------------------
  // UTF-8 encoding of scalar values
  // ---------------------------------------------------------------------------

  /** The UTF-8 encoding of one scalar value. */
  function Utf8Char(c: char): (bs: seq<Byte>)
    ensures 1 <= |bs| <= 4
    ensures (c as int) < 0x80 ==> bs == [c as int]
    ensures (c as int) >= 0x80 ==> forall i :: 0 <= i < |bs| ==> bs[i] >= 0x80
  {
    var cp := c as int;
    if cp < 0x80 then [cp]
    else if cp < 0x800 then [0xC0 + cp / 0x40, 0x80 + cp % 0x40]
    else if cp < 0x10000 then [0xE0 + cp / 0x1000, 0x80 + (cp / 0x40) % 0x40, 0x80 + cp % 0x40]
    else [0xF0 + cp / 0x40000, 0x80 + (cp / 0x1000) % 0x40, 0x80 + (cp / 0x40) % 0x40, 0x80 + cp % 0x40]
  }

  /** The UTF-8 encoding of a string. */
  function Utf8(s: string): seq<Byte>
    decreases |s|
  {
    if s == [] then [] else Utf8Char(s[0]) + Utf8(s[1..])
  }

  /** How many bytes a UTF-8 sequence takes, read from its lead byte. */
  function Utf8Width(lead: Byte): nat {
    if lead < 0x80 then 1 else if lead < 0xE0 then 2 else if lead < 0xF0 then 3 else 4
  }

  /** The scalar value a one- to four-byte UTF-8 sequence stands for. */
  function DecodeChar(bs: seq<Byte>): int
    requires 1 <= |bs| <= 4
  {
    var b: seq<int> := bs;
    if |b| == 1 then b[0]
    else if |b| == 2 then (b[0] - 0xC0) * 0x40 + (b[1] - 0x80)
    else if |b| == 3 then (b[0] - 0xE0) * 0x1000 + (b[1] - 0x80) * 0x40 + (b[2] - 0x80)
    else (b[0] - 0xF0) * 0x40000 + (b[1] - 0x80) * 0x1000 + (b[2] - 0x80) * 0x40 + (b[3] - 0x80)
  }

  /** The lead byte tells the length, and the bytes decode back to the character. */
  lemma Utf8CharDecodes(c: char)
    ensures var bs := Utf8Char(c);
      |bs| == Utf8Width(bs[0]) && DecodeChar(bs) == c as int
  {
    var cp := c as int;
    if cp < 0x80 {
    } else if cp < 0x800 {
      TwoByteSplit(cp);
    } else if cp < 0x10000 {
      ThreeByteSplit(cp);
    } else {
      FourByteSplit(cp);
    }
  }

  lemma TwoByteSplit(x: int)
    requires 0x80 <= x < 0x800
    ensures 2 <= x / 0x40 < 0x20
    ensures (x / 0x40) * 0x40 + x % 0x40 == x
  {
  }

  lemma ThreeByteSplit(x: int)
    requires 0x800 <= x < 0x10000
    ensures x / 0x1000 < 0x10
    ensures (x / 0x1000) * 0x1000 + ((x / 0x40) % 0x40) * 0x40 + x % 0x40 == x
  {
    var a := x / 0x40;
    ShiftTwice(x);
    assert x == 0x40 * a + x % 0x40;
    assert a == 0x40 * (a / 0x40) + a % 0x40;
  }

  lemma FourByteSplit(x: int)
    requires 0x10000 <= x < 0x110000
    ensures x / 0x40000 < 5
    ensures (x / 0x40000) * 0x40000 + ((x / 0x1000) % 0x40) * 0x1000 + ((x / 0x40) % 0x40) * 0x40 + x % 0x40 == x
  {
    var a := x / 0x40;
    var b := a / 0x40;
    ShiftTwice(x);
    ShiftTwice(a);
    ShiftThrice(x);
    assert x == 0x40 * a + x % 0x40;
    assert a == 0x40 * b + a % 0x40;
    assert b == 0x40 * (b / 0x40) + b % 0x40;
  }

  /** Dropping twelve bits is dropping six bits twice. */
  lemma ShiftTwice(x: int)
    requires 0 <= x
    ensures x / 0x1000 == (x / 0x40) / 0x40
  {
    var a := x / 0x40;
    var b := a / 0x40;
    assert x == 0x1000 * b + (0x40 * (a % 0x40) + x % 0x40);
    QuotientOf(x, 0x1000, b, 0x40 * (a % 0x40) + x % 0x40);
  }

  /** Dropping eighteen bits is dropping six bits three times. */
  lemma ShiftThrice(x: int)
    requires 0 <= x
    ensures x / 0x40000 == ((x / 0x40) / 0x40) / 0x40
  {
    var a := x / 0x40;
    ShiftTwice(a);
    var c := a / 0x1000;
    assert x == 0x40000 * c + (0x40 * (a % 0x1000) + x % 0x40);
    QuotientOf(x, 0x40000, c, 0x40 * (a % 0x1000) + x % 0x40);
  }

  lemma QuotientOf(x: int, m: int, q: int, r: int)
    requires 0 < m && 0 <= r < m && x == m * q + r
    ensures x / m == q
  {
    var q', r' := x / m, x % m;
    assert m * (q - q') == r' - r;
    if q > q' {
      MulAtLeast(m, q - q');
    } else if q < q' {
      MulAtLeast(m, q' - q);
    }
  }

  lemma MulAtLeast(m: int, k: int)
    requires 0 < m && 1 <= k
    ensures m * k >= m
  {
  }

  /** Different characters have different UTF-8 encodings. */
  lemma Utf8CharInjective(c: char, d: char)
    requires Utf8Char(c) == Utf8Char(d)
    ensures c == d
  {
    Utf8CharDecodes(c);
    Utf8CharDecodes(d);
  }

  /**
   * UTF-8 is a prefix code: when two encodings begin alike, the lead byte
   * fixes how long the first character's encoding is.
   */
  lemma {:induction false} Utf8Injective(s: string, t: string)
    requires Utf8(s) == Utf8(t)
    ensures s == t
    decreases |s|
  {
    if s != [] && t != [] {
      var bs, bt := Utf8Char(s[0]), Utf8Char(t[0]);
      Utf8CharDecodes(s[0]);
      Utf8CharDecodes(t[0]);
      assert bs[0] == Utf8(s)[0] == Utf8(t)[0] == bt[0];
      assert bs == Utf8(s)[..|bs|] == Utf8(t)[..|bt|] == bt;
      Utf8CharInjective(s[0], t[0]);
      assert Utf8(s[1..]) == Utf8(s)[|bs|..] == Utf8(t)[|bt|..] == Utf8(t[1..]);
      Utf8Injective(s[1..], t[1..]);
      assert s == [s[0]] + s[1..] && t == [t[0]] + t[1..];
    }
  }

  // ---------------------------------------------------------------------------
  // serializer (section 5.2)
  // ---------------------------------------------------------------------------

  predicate IsAsciiAlphanumeric(b: int) {
    ('0' as int <= b <= '9' as int) || ('A' as int <= b <= 'Z' as int) || ('a' as int <= b <= 'z' as int)
  }

  /** Bytes outside the application/x-www-form-urlencoded percent-encode set. */
  predicate LeftAsIs(b: Byte) {
    IsAsciiAlphanumeric(b) || b == '*' as int || b == '-' as int || b == '.' as int || b == '_' as int
  }

  /** The characters a serialized component can consist of. */
  predicate FormSafe(c: char) {
    ((c as int) < 0x80 && LeftAsIs(c as int)) || c == '+' || c == '%'
  }

  /** Upper-case hexadecimal digit, as percent-encoding writes it. */
  function HexDigit(d: nat): char
    requires d < 16
  {
    if d < 10 then ('0' as int + d) as char else ('A' as int + d - 10) as char
  }

  predicate IsHex(c: char) {
    ('0' <= c <= '9') || ('A' <= c <= 'F') || ('a' <= c <= 'f')
  }

  function HexValue(c: char): (d: nat)
    requires IsHex(c)
    ensures d < 16
  {
    if '0' <= c <= '9' then c as int - '0' as int
    else if 'A' <= c <= 'F' then c as int - 'A' as int + 10
    else c as int - 'a' as int + 10
  }

  /** One byte, percent-encoded with space as plus. */
  function EncodeByte(b: Byte): string {
    if b == 0x20 then "+"
    else if LeftAsIs(b) then [b as char]
    else ['%', HexDigit(b / 16), HexDigit(b % 16)]
  }

  /** Percent-encodes a byte sequence; the output uses only form-safe characters. */
  function EncodeBytes(bs: seq<Byte>): (r: string)
    ensures forall i :: 0 <= i < |r| ==> FormSafe(r[i])
    decreases |bs|
  {
    if bs == [] then [] else EncodeByte(bs[0]) + EncodeBytes(bs[1..])
  }

  /** A name or a value as the serializer writes it: UTF-8 then percent-encoding. */
  function Encode(s: string): string {
    EncodeBytes(Utf8(s))
  }

  /** The application/x-www-form-urlencoded serializer over an ordered list of name/value pairs. */
  function Serialize(pairs: seq<(string, string)>): string {
    Join(seq(|pairs|, i requires 0 <= i < |pairs| => PairText(pairs[i])), '&')
  }

  /** What the serializer writes for one pair. */
  function PairText(p: (string, string)): string {
    Encode(p.0) + "=" + Encode(p.1)
  }

  // ---------------------------------------------------------------------------
  // parser (section 5.1), up to UTF-8 decoding
  // ---------------------------------------------------------------------------

  /**
   * Plus-to-space followed by percent-decoding, applied to the UTF-8 bytes of
   * `s`. UTF-8 continuation and lead bytes are all at least 0x80, so they can
   * never be mistaken for `+`, `%` or a hexadecimal digit and pass through.
   */
  function Decode(s: string): seq<Byte>
    decreases |s|
  {
    if s == [] then []
    else if s[0] == '+' then [0x20] + Decode(s[1..])
    else if s[0] == '%' && |s| >= 3 && IsHex(s[1]) && IsHex(s[2]) then
      [16 * HexValue(s[1]) + HexValue(s[2])] + Decode(s[3..])
    else Utf8Char(s[0]) + Decode(s[1..])
  }

  /** Index of the first occurrence of `c` in `s`. */
  function IndexOf(s: string, c: char): (i: nat)
    requires c in s
    ensures i < |s| && s[i] == c && c !in s[..i]
  {
    if s[0] == c then 0 else 1 + IndexOf(s[1..], c)
  }

  /** One `&`-separated piece: name before the first `=`, value after it (empty when there is none). */
  function ParsePiece(piece: string): (seq<Byte>, seq<Byte>) {
    if '=' in piece then
      var i := IndexOf(piece, '=');
      (Decode(piece[..i]), Decode(piece[i + 1..]))
    else (Decode(piece), [])
  }

  /** The pieces in order, empty ones skipped. */
  function ParsePieces(pieces: seq<string>): seq<(seq<Byte>, seq<Byte>)>
    decreases |pieces|
  {
    if pieces == [] then []
    else if pieces[0] == [] then ParsePieces(pieces[1..])
    else [ParsePiece(pieces[0])] + ParsePieces(pieces[1..])
  }

  /** The application/x-www-form-urlencoded parser, returning each name and value as bytes. */
  function Parse(s: string): seq<(seq<Byte>, seq<Byte>)> {
    ParsePieces(Split(s, '&'))
  }

  // ---------------------------------------------------------------------------
  // round trip
  // ---------------------------------------------------------------------------

  lemma HexRoundTrip(b: Byte)
    ensures IsHex(HexDigit(b / 16)) && IsHex(HexDigit(b % 16))
    ensures 16 * HexValue(HexDigit(b / 16)) + HexValue(HexDigit(b % 16)) == b
  {
  }

  /** Decoding undoes the percent-encoding of any byte sequence. */
  lemma {:induction false} DecodeEncodeBytes(bs: seq<Byte>)
    ensures Decode(EncodeBytes(bs)) == bs
    decreases |bs|
  {
    if bs != [] {
      DecodeEncodeBytes(bs[1..]);
      DecodeEncodeByte(bs[0], EncodeBytes(bs[1..]));
      assert bs == [bs[0]] + bs[1..];
    }
  }

  /** Decoding reads one encoded byte back and goes on with what follows it. */
  lemma DecodeEncodeByte(b: Byte, rest: string)
    ensures Decode(EncodeByte(b) + rest) == [b] + Decode(rest)
  {
    var s := EncodeByte(b) + rest;
    if b == 0x20 {
      assert s[0] == '+' && s[1..] == rest;
    } else if LeftAsIs(b) {
      assert s[0] == b as char && s[1..] == rest;
      assert Utf8Char(b as char) == [b];
    } else {
      HexRoundTrip(b);
      assert s[0] == '%' && s[1] == HexDigit(b / 16) && s[2] == HexDigit(b % 16);
      assert s[3..] == rest;
    }
  }

  /** Decoding a serialized component yields the UTF-8 bytes of the original text. */
  lemma DecodeEncode(s: string)
    ensures Decode(Encode(s)) == Utf8(s)
  {
    DecodeEncodeBytes(Utf8(s));
  }

  lemma ParsePairText(p: (string, string))
    ensures '&' !in PairText(p) && PairText(p) != []
    ensures ParsePiece(PairText(p)) == (Utf8(p.0), Utf8(p.1))
  {
    var k, v := Encode(p.0), Encode(p.1);
    var t := PairText(p);
    assert !FormSafe('=') && !FormSafe('&');
    assert '=' !in k;
    assert t[|k|] == '=';
    assert IndexOf(t, '=') == |k|;
    assert t[..|k|] == k && t[|k| + 1..] == v;
    DecodeEncode(p.0);
    DecodeEncode(p.1);
  }

  lemma {:induction false} ParsePiecesAll(pieces: seq<string>)
    requires forall i :: 0 <= i < |pieces| ==> pieces[i] != []
    ensures ParsePieces(pieces) == seq(|pieces|, i requires 0 <= i < |pieces| => ParsePiece(pieces[i]))
    decreases |pieces|
  {
    if pieces != [] {
      ParsePiecesAll(pieces[1..]);
    }
  }

  /**
   * Parsing what the serializer wrote gives back every pair, in order, as the
   * UTF-8 bytes of its name and value.
   */
  lemma ParseSerialize(pairs: seq<(string, string)>)
    ensures Parse(Serialize(pairs)) ==
            seq(|pairs|, i requires 0 <= i < |pairs| => (Utf8(pairs[i].0), Utf8(pairs[i].1)))
  {
    var pieces := seq(|pairs|, i requires 0 <= i < |pairs| => PairText(pairs[i]));
    if pairs == [] {
      assert Split(Serialize(pairs), '&') == [[]];
    } else {
      forall i | 0 <= i < |pairs|
        ensures '&' !in pieces[i] && pieces[i] != [] && ParsePiece(pieces[i]) == (Utf8(pairs[i].0), Utf8(pairs[i].1))
      {
        ParsePairText(pairs[i]);
      }
      SplitJoin(pieces, '&');
      ParsePiecesAll(pieces);
    }
  }

  /** Different strings serialize to different text. */
  lemma EncodeInjective(x: string, y: string)
    requires Encode(x) == Encode(y)
    ensures x == y
  {
    DecodeEncode(x);
    DecodeEncode(y);
    Utf8Injective(x, y);
  }

  /** Different pair lists serialize to different text: nothing is lost on the way. */
  lemma SerializeInjective(pairs: seq<(string, string)>, others: seq<(string, string)>)
    requires Serialize(pairs) == Serialize(others)
    ensures pairs == others
  {
    ParseSerialize(pairs);
    ParseSerialize(others);
    var parsed := Parse(Serialize(pairs));
    assert |pairs| == |parsed| == |others|;
    forall i | 0 <= i < |pairs|
      ensures pairs[i] == others[i]
    {
      assert parsed[i] == (Utf8(pairs[i].0), Utf8(pairs[i].1)) == (Utf8(others[i].0), Utf8(others[i].1));
      Utf8Injective(pairs[i].0, others[i].0);
      Utf8Injective(pairs[i].1, others[i].1);
    }
  }

  /** ASCII letters and digits are written as they are. */
  lemma {:induction false} PlainText(s: string)
    requires forall i :: 0 <= i < |s| ==> IsAsciiAlphanumeric(s[i] as int)
    ensures Encode(s) == s
    decreases |s|
  {
    if s != [] {
      PlainText(s[1..]);
      assert Utf8(s) == [s[0] as int] + Utf8(s[1..]);
      EncodeBytesAppend([s[0] as int], Utf8(s[1..]));
      assert EncodeBytes([s[0] as int]) == [s[0]];
      assert s == [s[0]] + s[1..];
    }
  }

  lemma {:induction false} Utf8Append(x: string, y: string)
    ensures Utf8(x + y) == Utf8(x) + Utf8(y)
    decreases |x|
  {
    if x != [] {
      assert (x + y)[0] == x[0] && (x + y)[1..] == x[1..] + y;
      Utf8Append(x[1..], y);
    } else {
      assert x + y == y;
    }
  }

  lemma {:induction false} EncodeBytesAppend(p: seq<Byte>, q: seq<Byte>)
    ensures EncodeBytes(p + q) == EncodeBytes(p) + EncodeBytes(q)
    decreases |p|
  {
    if p != [] {
      assert (p + q)[0] == p[0] && (p + q)[1..] == p[1..] + q;
      EncodeBytesAppend(p[1..], q);
    } else {
      assert p + q == q;
    }
  }

  /** Encoding works character by character, so it distributes over concatenation. */
  lemma EncodeAppend(x: string, y: string)
    ensures Encode(x + y) == Encode(x) + Encode(y)
  {
    Utf8Append(x, y);
    EncodeBytesAppend(Utf8(x), Utf8(y));
  }

  /** A single pair serializes as its own text. */
  lemma SerializeOne(p: (string, string))
    ensures Serialize([p]) == PairText(p)
  {
    var texts := seq(1, i requires 0 <= i < 1 => PairText([p][i]));
    assert texts == [PairText(p)];
  }

  /**
   * The comma that joins tags is escaped: `{ tags: "<a>,<b>" }`, with a plain
   * name and plain tags, serializes to `<name>=<a>%2C<b>`.
   */
  lemma CommaIsEscaped(name: string, a: string, b: string)
    requires forall i :: 0 <= i < |name| ==> IsAsciiAlphanumeric(name[i] as int)
    requires forall i :: 0 <= i < |a| ==> IsAsciiAlphanumeric(a[i] as int)
    requires forall i :: 0 <= i < |b| ==> IsAsciiAlphanumeric(b[i] as int)
    ensures Serialize([(name, a + "," + b)]) == name + "=" + a + "%2C" + b
  {
    var v := a + "," + b;
    assert Encode(v) == a + "%2C" + b by {
      PlainText(a);
      PlainText(b);
      CommaEncoded();
      EncodeAppend(a, ",");
      EncodeAppend(a + ",", b);
    }
    assert Encode(name) == name by {
      PlainText(name);
    }
    SerializeOne((name, v));
  }

  lemma CommaEncoded()
    ensures Encode(",") == "%2C"
  {
    assert Utf8(",") == [44];
    assert EncodeBytes([44]) == EncodeByte(44) + EncodeBytes([]);
  }
}
