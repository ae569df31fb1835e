/** Unpadded base64url, section 5 of RFC 4648, as Node's Buffer writes and reads it. */
module Base64Url {
  import opened Wrappers

  type Byte = x: int | 0 <= x < 256
  type Sextet = x: int | 0 <= x < 64

  function CharOf(i: Sextet): (c: char)
    ensures c != '.'
  {
    if i < 26 then ('A' as int + i) as char
    else if i < 52 then ('a' as int + (i - 26)) as char
    else if i < 62 then ('0' as int + (i - 52)) as char
    else if i == 62 then '-'
    else '_'
  }

  /** Reading also takes the ordinary alphabet's '+' and '/', and skips every other character. */
  function ValueOf(c: char): Option<Sextet> {
    if 'A' <= c <= 'Z' then Some(c as int - 'A' as int)
    else if 'a' <= c <= 'z' then Some(c as int - 'a' as int + 26)
    else if '0' <= c <= '9' then Some(c as int - '0' as int + 52)
    else if c == '-' || c == '+' then Some(62)
    else if c == '_' || c == '/' then Some(63)
    else None
  }

  /** Three bytes as one number; a missing byte counts as zero. */
  function Bits(a: int, b: int, c: int): int {
    a * 65536 + b * 256 + c
  }

  function FirstSextets(n: int): (r: seq<Sextet>)
    requires 0 <= n < 16777216
    ensures |r| == 4
  {
    [n / 262144, n / 4096 % 64, n / 64 % 64, n % 64]
  }

  function Number(s0: int, s1: int, s2: int, s3: int): int {
    ((s0 * 64 + s1) * 64 + s2) * 64 + s3
  }

  function FirstBytes(n: int): (r: seq<Byte>)
    requires 0 <= n < 16777216
    ensures |r| == 3
  {
    [n / 65536, n / 256 % 256, n % 256]
  }

  /** Three bytes make four sextets; a last pair makes three and a last single byte two. */
  function Pack(bytes: seq<Byte>): seq<Sextet> {
    if bytes == [] then []
    else if |bytes| == 1 then FirstSextets(Bits(bytes[0], 0, 0))[..2]
    else if |bytes| == 2 then FirstSextets(Bits(bytes[0], bytes[1], 0))[..3]
    else FirstSextets(Bits(bytes[0], bytes[1], bytes[2])) + Pack(bytes[3..])
  }

  function Unpack(sextets: seq<Sextet>): seq<Byte> {
    if |sextets| <= 1 then []
    else if |sextets| == 2 then FirstBytes(Number(sextets[0], sextets[1], 0, 0))[..1]
    else if |sextets| == 3 then FirstBytes(Number(sextets[0], sextets[1], sextets[2], 0))[..2]
    else FirstBytes(Number(sextets[0], sextets[1], sextets[2], sextets[3])) + Unpack(sextets[4..])
  }

  function Chars(sextets: seq<Sextet>): string {
    if sextets == [] then "" else [CharOf(sextets[0])] + Chars(sextets[1..])
  }

  function Values(text: string): seq<Sextet> {
    if text == "" then []
    else
      var value := ValueOf(text[0]);
      (if value.Some? then [value.value] else []) + Values(text[1..])
  }

  function Encode(bytes: seq<Byte>): string {
    Chars(Pack(bytes))
  }

  function Decode(text: string): seq<Byte> {
    Unpack(Values(text))
  }

  lemma SixtyFourths(n: int)
    ensures n / 64 / 64 == n / 4096 && n / 4096 / 64 == n / 262144
  {
  }

  lemma NumberOfSextets(n: int)
    requires 0 <= n < 16777216
    ensures Number(n / 262144, n / 4096 % 64, n / 64 % 64, n % 64) == n
  {
    SixtyFourths(n);
    assert n == n / 64 * 64 + n % 64;
    assert n / 64 == n / 64 / 64 * 64 + n / 64 % 64;
    assert n / 4096 == n / 4096 / 64 * 64 + n / 4096 % 64;
  }

  lemma HighPart(high: int, low: int)
    requires 0 <= low < 65536
    ensures (high * 65536 + low) / 65536 == high
  {
  }

  lemma LowByte(high: int, low: int)
    requires 0 <= low < 256
    ensures (high * 256 + low) / 256 == high && (high * 256 + low) % 256 == low
  {
  }

  lemma BytesOfBits(a: Byte, b: Byte, c: Byte)
    ensures 0 <= Bits(a, b, c) < 16777216
    ensures FirstBytes(Bits(a, b, c)) == [a, b, c]
  {
    HighPart(a, Bits(0, b, c));
    LowByte(Bits(0, a, b), c);
    LowByte(a, b);
    assert Bits(a, b, c) == Bits(0, a, b) * 256 + c;
  }

  /** The sextets left out of a last single byte or pair are zero. */
  lemma ZeroTail(a: int, b: int)
    ensures Bits(a, 0, 0) / 64 % 64 == 0 && Bits(a, 0, 0) % 64 == 0
    ensures Bits(a, b, 0) % 64 == 0
  {
    Multiple(16 * a);
    Multiple(1024 * a);
    Multiple(1024 * a + 4 * b);
    assert Bits(a, 0, 0) == 64 * (1024 * a) && 1024 * a == 64 * (16 * a);
    assert Bits(a, b, 0) == 64 * (1024 * a + 4 * b);
  }

  lemma Multiple(k: int)
    ensures 64 * k / 64 == k && 64 * k % 64 == 0
  {
  }

  lemma {:induction false} UnpackPack(bytes: seq<Byte>)
    ensures Unpack(Pack(bytes)) == bytes
  {
    if bytes != [] {
      var a, b, c := bytes[0], if |bytes| > 1 then bytes[1] else 0, if |bytes| > 2 then bytes[2] else 0;
      BytesOfBits(a, b, c);
      NumberOfSextets(Bits(a, b, c));
      ZeroTail(a, b);
      if |bytes| > 2 {
        UnpackPack(bytes[3..]);
        assert Pack(bytes)[4..] == Pack(bytes[3..]);
        assert bytes == [a, b, c] + bytes[3..];
      }
    }
  }

  lemma {:induction false} ValuesOfChars(sextets: seq<Sextet>)
    ensures Values(Chars(sextets)) == sextets
    ensures '.' !in Chars(sextets)
    ensures |Chars(sextets)| == |sextets|
  {
    if sextets != [] {
      ValuesOfChars(sextets[1..]);
      assert Chars(sextets)[1..] == Chars(sextets[1..]);
      assert ValueOf(CharOf(sextets[0])) == Some(sextets[0]);
    }
  }

  /** Decoding undoes encoding, and the text never holds the separator. */
  lemma RoundTrip(bytes: seq<Byte>)
    ensures Decode(Encode(bytes)) == bytes
    ensures '.' !in Encode(bytes)
    ensures bytes != [] ==> Encode(bytes) != ""
  {
    UnpackPack(bytes);
    ValuesOfChars(Pack(bytes));
  }

  lemma Vector(bytes: seq<Byte>, sextets: seq<Sextet>, text: string)
    requires Pack(bytes) == sextets && |text| == |sextets|
    requires forall i :: 0 <= i < |sextets| ==> CharOf(sextets[i]) == text[i]
    ensures Encode(bytes) == text
  {
    CharsAt(sextets);
  }

  lemma {:induction false} CharsAt(sextets: seq<Sextet>)
    ensures |Chars(sextets)| == |sextets|
    ensures forall i :: 0 <= i < |sextets| ==> Chars(sextets)[i] == CharOf(sextets[i])
  {
    if sextets != [] {
      CharsAt(sextets[1..]);
    }
  }

  /** Test vectors of section 10 of RFC 4648, without padding, and the two letters of the URL alphabet. */
  lemma TestVectors()
    ensures Encode([0x66]) == "Zg"
    ensures Encode([0x66, 0x6f]) == "Zm8"
    ensures Encode([0xfb, 0xff]) == "-_8"
  {
    Vector([0x66], [25, 32], "Zg");
    Vector([0x66, 0x6f], [25, 38, 60], "Zm8");
    Vector([0xfb, 0xff], [62, 63, 60], "-_8");
  }

  /** The URL-safe alphabet of section 5 of RFC 4648, in order. */
  lemma CapitalLetters()
    ensures [CharOf(0), CharOf(1), CharOf(2), CharOf(3), CharOf(4), CharOf(5), CharOf(6), CharOf(7),
             CharOf(8), CharOf(9), CharOf(10), CharOf(11), CharOf(12), CharOf(13), CharOf(14),
             CharOf(15), CharOf(16), CharOf(17), CharOf(18), CharOf(19), CharOf(20), CharOf(21),
             CharOf(22), CharOf(23), CharOf(24), CharOf(25)] == "ABCDEFGHIJKLMNOPQRSTUVWXYZ"
  {
  }

  lemma SmallLetters()
    ensures [CharOf(26), CharOf(27), CharOf(28), CharOf(29), CharOf(30), CharOf(31), CharOf(32),
             CharOf(33), CharOf(34), CharOf(35), CharOf(36), CharOf(37), CharOf(38), CharOf(39),
             CharOf(40), CharOf(41), CharOf(42), CharOf(43), CharOf(44), CharOf(45), CharOf(46),
             CharOf(47), CharOf(48), CharOf(49), CharOf(50), CharOf(51)] == "abcdefghijklmnopqrstuvwxyz"
  {
  }

  lemma DigitsAndMarks()
    ensures [CharOf(52), CharOf(53), CharOf(54), CharOf(55), CharOf(56), CharOf(57), CharOf(58),
             CharOf(59), CharOf(60), CharOf(61)] == "0123456789"
    ensures [CharOf(62), CharOf(63)] == "-_"
  {
  }

  /** Some sextet is written as c. */
  ghost predicate InAlphabet(c: char) {
    exists i: Sextet :: CharOf(i) == c
  }

  lemma OneValue(c: char)
    ensures Values([c]) == if ValueOf(c).Some? then [ValueOf(c).value] else []
  {
    assert [c][1..] == "";
  }

  lemma KnownIsInAlphabet(c: char)
    requires ValueOf(c).Some?
    ensures InAlphabet(c) || c == '+' || c == '/'
  {
    if c != '+' && c != '/' {
      assert CharOf(ValueOf(c).value) == c;
    }
  }

  lemma {:induction false} ValuesSplit(a: string, b: string)
    ensures Values(a + b) == Values(a) + Values(b)
  {
    if a == "" {
      assert a + b == b;
    } else {
      var value := ValueOf(a[0]);
      var head := if value.Some? then [value.value] else [];
      ValuesSplit(a[1..], b);
      assert (a + b)[0] == a[0] && (a + b)[1..] == a[1..] + b;
      assert head + (Values(a[1..]) + Values(b)) == (head + Values(a[1..])) + Values(b);
    }
  }

  lemma ValuesAround(a: string, c: char, b: string)
    ensures Values(a + [c] + b) == Values(a) + Values([c]) + Values(b)
  {
    ValuesSplit(a + [c], b);
    ValuesSplit(a, [c]);
  }

  /** Reading a text passes over whatever is in neither alphabet, and takes '+' and '/' for '-' and '_'. */
  lemma ReadingTolerates(a: string, c: char, b: string)
    ensures !InAlphabet(c) && c != '+' && c != '/' ==> Decode(a + [c] + b) == Decode(a + b)
    ensures Decode(a + ['+'] + b) == Decode(a + ['-'] + b) && Decode(a + ['/'] + b) == Decode(a + ['_'] + b)
  {
    if !InAlphabet(c) && c != '+' && c != '/' {
      if ValueOf(c).Some? {
        KnownIsInAlphabet(c);
      }
      OneValue(c);
      ValuesAround(a, c, b);
      ValuesSplit(a, b);
      assert Values(a) + [] + Values(b) == Values(a) + Values(b);
    }
    SameValue(a, '+', '-', b);
    SameValue(a, '/', '_', b);
  }

  lemma SameValue(a: string, c: char, d: char, b: string)
    requires ValueOf(c) == ValueOf(d)
    ensures Decode(a + [c] + b) == Decode(a + [d] + b)
  {
    OneValue(c);
    OneValue(d);
    ValuesAround(a, c, b);
    ValuesAround(a, d, b);
  }
}
