/** The address formatters: `get_hwaddress` prints the six hardware-address
    bytes as `%02x:%02x:%02x:%02x:%02x:%02x`, and `get_ipaddress`,
    `get_netmask` and `get_broadcast` print bytes 2 to 5 of the socket
    address as `%u.%u.%u.%u`. Each byte is a C `char` (signed here) passed
    through `(unsigned int)c % 256`. */
module Format {

  /** A C `char` as it is on the platforms the extension targets. */
  type int8 = x: int | -128 <= x < 128

  /** `(unsigned int)c % 256`: the cast wraps modulo 2^32, then the remainder
      keeps the low byte. */
  function Octet(c: int8): (o: nat)
    ensures o < 256
    ensures 0 <= c ==> o == c
  {
    ((c as int) % 0x1_0000_0000) % 256
  }

  /** The signed `char` holding the bit pattern of byte `o`. */
  function SignedChar(o: nat): int8
    requires o < 256
  {
    if o < 128 then o else o - 256
  }

  /** The printed byte is the bit pattern of the `char`: reading it back as a
      signed `char` gives the original. */
  lemma OctetBitPattern(c: int8)
    ensures SignedChar(Octet(c)) == c
    ensures c < 0 ==> Octet(c) == c + 256
  {
    if c < 0 {
      assert (c as int) % 0x1_0000_0000 == c + 0x1_0000_0000;
      assert (c + 0x1_0000_0000) % 256 == c + 256;
    }
  }

  // ---------------------------------------------------------------------------
  // %02x groups
  // ---------------------------------------------------------------------------

  const HEX_DIGITS: string := "0123456789abcdef"

  /** `%02x` of a byte: two lower-case hexadecimal digits, zero-padded. */
  function Hex2(o: nat): (s: string)
    requires o < 256
    ensures |s| == 2
  {
    [HEX_DIGITS[o / 16], HEX_DIGITS[o % 16]]
  }

  /** The value of one hexadecimal digit, or -1 for any other character. */
  function HexDigitValue(c: char): int {
    if '0' <= c <= '9' then c as int - '0' as int
    else if 'a' <= c <= 'f' then c as int - 'a' as int + 10
    else -1
  }

  /** Reads a two-digit hexadecimal group. */
  function ParseHex2(s: string): int
    requires |s| == 2
  {
    16 * HexDigitValue(s[0]) + HexDigitValue(s[1])
  }

  lemma HexDigitRoundTrip(d: nat)
    requires d < 16
    ensures HexDigitValue(HEX_DIGITS[d]) == d
  {
  }

  /** Reading a printed byte back gives the byte. */
  lemma Hex2RoundTrip(o: nat)
    requires o < 256
    ensures ParseHex2(Hex2(o)) == o
  {
    HexDigitRoundTrip(o / 16);
    HexDigitRoundTrip(o % 16);
  }

  predicate AllOctets(os: seq<nat>) {
    forall i :: 0 <= i < |os| ==> os[i] < 256
  }

  /** The groups of a `%02x:%02x:...` format: each byte as two digits,
      separated by colons. */
  function HexGroups(os: seq<nat>): (s: string)
    requires |os| >= 1 && AllOctets(os)
    ensures |s| == 3 * |os| - 1
    decreases |os|
  {
    if |os| == 1 then Hex2(os[0]) else Hex2(os[0]) + ":" + HexGroups(os[1..])
  }

  /** Reads colon-separated two-digit groups: the inverse of `HexGroups`. */
  function ParseHexGroups(s: string): seq<int>
    decreases |s|
  {
    if |s| < 2 then []
    else if |s| < 5 then [ParseHex2(s[..2])]
    else [ParseHex2(s[..2])] + ParseHexGroups(s[3..])
  }

  /** The first group and the groups after its colon. */
  lemma HexGroupsSplit(os: seq<nat>)
    requires |os| > 1 && AllOctets(os)
    ensures HexGroups(os)[..2] == Hex2(os[0])
    ensures HexGroups(os)[3..] == HexGroups(os[1..])
  {
    assert HexGroups(os) == Hex2(os[0]) + ":" + HexGroups(os[1..]);
  }

  /** Printed groups read back as the bytes they were printed from. */
  lemma {:induction false} HexGroupsRoundTrip(os: seq<nat>)
    requires |os| >= 1 && AllOctets(os)
    ensures ParseHexGroups(HexGroups(os)) == os
    decreases |os|
  {
    Hex2RoundTrip(os[0]);
    if |os| == 1 {
      assert HexGroups(os)[..2] == Hex2(os[0]);
    } else {
      HexGroupsSplit(os);
      HexGroupsRoundTrip(os[1..]);
      assert ParseHexGroups(HexGroups(os)) == [os[0]] + os[1..];
    }
  }

  /** Every third character of printed groups is a colon. */
  lemma {:induction false} HexGroupsColons(os: seq<nat>)
    requires |os| >= 1 && AllOctets(os)
    ensures forall i :: 0 <= i < |os| - 1 ==> HexGroups(os)[3 * i + 2] == ':'
    decreases |os|
  {
    if |os| > 1 {
      var s := HexGroups(os);
      var rest := HexGroups(os[1..]);
      assert s == Hex2(os[0]) + ":" + rest;
      HexGroupsColons(os[1..]);
      forall i | 0 < i < |os| - 1 ensures s[3 * i + 2] == ':' {
        assert s[3 * i + 2] == rest[3 * (i - 1) + 2];
      }
    }
  }

  /** The six bytes `get_hwaddress` prints. */
  function HwOctets(sa: seq<int8>): (os: seq<nat>)
    requires |sa| >= 6
    ensures |os| == 6 && AllOctets(os)
  {
    seq(6, i requires 0 <= i < 6 => Octet(sa[i]))
  }

  /** The string `get_hwaddress` returns. */
  function MacString(sa: seq<int8>): (s: string)
    requires |sa| >= 6
    ensures |s| == 17
  {
    HexGroups(HwOctets(sa))
  }

  /** The hardware address is 17 characters, which with its NUL fits the
      20-byte `hwaddr` buffer, and it reads back as the six bytes of
      `sa_data`. */
  lemma MacStringSpec(sa: seq<int8>)
    requires |sa| >= 6
    ensures |MacString(sa)| == 17 && |MacString(sa)| + 1 <= 20
    ensures ParseHexGroups(MacString(sa)) == HwOctets(sa)
    ensures forall i :: 0 <= i < 6 ==> HwOctets(sa)[i] == Octet(sa[i])
    ensures forall i :: 0 <= i < 5 ==> MacString(sa)[3 * i + 2] == ':'
  {
    HexGroupsRoundTrip(HwOctets(sa));
    HexGroupsColons(HwOctets(sa));
  }

  // ---------------------------------------------------------------------------
  // %u groups
  // ---------------------------------------------------------------------------

  const DEC_DIGITS: string := "0123456789"

  /** `%u`: the decimal digits of `n`, without leading zeros. */
  function Decimal(n: nat): (s: string)
    ensures 1 <= |s|
    ensures forall i :: 0 <= i < |s| ==> '0' <= s[i] <= '9'
    ensures |s| > 1 ==> s[0] != '0'
  {
    if n < 10 then [DEC_DIGITS[n]] else Decimal(n / 10) + [DEC_DIGITS[n % 10]]
  }

  /** Reads a string of decimal digits. */
  function ParseDecimal(s: string): int
    decreases |s|
  {
    if s == [] then 0
    else 10 * ParseDecimal(s[..|s| - 1]) + (s[|s| - 1] as int - '0' as int)
  }

  /** Reading a printed number back gives the number. */
  lemma {:induction false} DecimalRoundTrip(n: nat)
    ensures ParseDecimal(Decimal(n)) == n
  {
    if n >= 10 {
      var s := Decimal(n);
      assert s[..|s| - 1] == Decimal(n / 10);
      DecimalRoundTrip(n / 10);
    }
  }

  /** A byte prints as at most three digits. */
  lemma {:induction false} DecimalOfOctet(n: nat)
    requires n < 256
    ensures |Decimal(n)| <= 3
  {
    if n >= 10 {
      assert |Decimal(n)| == |Decimal(n / 10)| + 1;
      if n / 10 >= 10 {
        assert |Decimal(n / 10)| == |Decimal(n / 100)| + 1;
      }
    }
  }

  /** The groups of a `%u.%u...` format, separated by dots. */
  function DecGroups(os: seq<nat>): (s: string)
    requires |os| >= 1
    ensures |s| >= 2 * |os| - 1
    decreases |os|
  {
    if |os| == 1 then Decimal(os[0]) else Decimal(os[0]) + "." + DecGroups(os[1..])
  }

  /** Bytes print as at most four characters per group, dot included. */
  lemma {:induction false} DecGroupsLength(os: seq<nat>)
    requires |os| >= 1 && AllOctets(os)
    ensures |DecGroups(os)| <= 4 * |os| - 1
    decreases |os|
  {
    DecimalOfOctet(os[0]);
    if |os| > 1 {
      DecGroupsLength(os[1..]);
    }
  }

  /** The fields of `s` between occurrences of `sep`. */
  function Split(s: string, sep: char): (fields: seq<string>)
    ensures |fields| >= 1
  {
    if s == [] then [[]]
    else
      var rest := Split(s[1..], sep);
      if s[0] == sep then [[]] + rest else [[s[0]] + rest[0]] + rest[1..]
  }

  /** Splitting a string with no separator gives the string itself. */
  lemma {:induction false} SplitNone(s: string, sep: char)
    requires sep !in s
    ensures Split(s, sep) == [s]
    decreases |s|
  {
    if s != [] {
      SplitNone(s[1..], sep);
      assert [s[0]] + s[1..] == s;
    }
  }

  /** Splitting at the first separator peels off the first field. */
  lemma {:induction false} SplitFirst(a: string, sep: char, b: string)
    requires sep !in a
    ensures Split(a + [sep] + b, sep) == [a] + Split(b, sep)
    decreases |a|
  {
    if a == [] {
      assert [] + [sep] + b == [sep] + b;
      assert ([sep] + b)[1..] == b;
    } else {
      assert (a + [sep] + b)[1..] == a[1..] + [sep] + b;
      SplitFirst(a[1..], sep, b);
      assert [a[0]] + a[1..] == a;
    }
  }

  /** Dotted groups split into the printed numbers, which read back as the
      numbers they were printed from. */
  lemma {:induction false} DecGroupsRoundTrip(os: seq<nat>)
    requires |os| >= 1
    ensures var fields := Split(DecGroups(os), '.');
      |fields| == |os| && forall i :: 0 <= i < |os| ==> ParseDecimal(fields[i]) == os[i]
    decreases |os|
  {
    DecimalRoundTrip(os[0]);
    assert '.' !in Decimal(os[0]);
    if |os| == 1 {
      SplitNone(Decimal(os[0]), '.');
    } else {
      SplitFirst(Decimal(os[0]), '.', DecGroups(os[1..]));
      DecGroupsRoundTrip(os[1..]);
    }
  }

  /** The four bytes `get_ipaddress`, `get_netmask` and `get_broadcast`
      print: bytes 2 to 5 of `sa_data`, after the port. */
  function InetOctets(sa: seq<int8>): (os: seq<nat>)
    requires |sa| >= 6
    ensures |os| == 4 && AllOctets(os)
  {
    seq(4, i requires 0 <= i < 4 => Octet(sa[2 + i]))
  }

  /** The string those getters return. */
  function DottedQuad(sa: seq<int8>): (s: string)
    requires |sa| >= 6
    ensures |s| >= 7
  {
    DecGroups(InetOctets(sa))
  }

  /** The dotted quad has four fields that read back as bytes 2 to 5 of
      `sa_data`, and with its NUL it fits the 20-byte buffer. */
  lemma {:induction false} DottedQuadSpec(sa: seq<int8>)
    requires |sa| >= 6
    ensures var fields := Split(DottedQuad(sa), '.');
      |fields| == 4 && forall i :: 0 <= i < 4 ==> ParseDecimal(fields[i]) == Octet(sa[2 + i])
    ensures |DottedQuad(sa)| + 1 <= 20
  {
    var os := InetOctets(sa);
    DecGroupsRoundTrip(os);
    DecGroupsLength(os);
  }
}
