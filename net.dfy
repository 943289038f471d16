/**
 * Link-layer and IPv4 addresses: `MacAddr` with its constructor, `Default` and
 * `Display`, `Ipv4Addr` with its dotted-decimal `Display`, and `get_lease_ip`.
 */
module Net {
  import opened Wrappers
  import opened Text

  /** Rust's `u8`. */
  type Byte = x: int | 0 <= x < 256

  /** `Ipv4Addr`, as its four octets in network order. */
  datatype Ipv4 = Ipv4(a: Byte, b: Byte, c: Byte, d: Byte)
  {
    function Octets(): seq<Byte>
    {
      [a, b, c, d]
    }
  }

  /** `Ipv4Addr::UNSPECIFIED`, 0.0.0.0. */
  const Unspecified := Ipv4(0, 0, 0, 0)

  /** `Ipv4Addr::BROADCAST`, 255.255.255.255. */
  const Broadcast := Ipv4(255, 255, 255, 255)

  /** A piece of dotted-decimal text that spells an octet. */
  predicate IsOctetText(t: string)
  {
    t != [] && AllDigits(t) && DecimalValue(t) < 256
  }

  /** Reads dotted-decimal text back: exactly four '.'-separated decimal octets. */
  function ReadIpv4(s: string): Option<Ipv4>
  {
    var parts := SplitOn(s, '.');
    if |parts| == 4 && IsOctetText(parts[0]) && IsOctetText(parts[1]) && IsOctetText(parts[2]) && IsOctetText(parts[3]) then
      Some(Ipv4(DecimalValue(parts[0]), DecimalValue(parts[1]), DecimalValue(parts[2]), DecimalValue(parts[3])))
    else
      None
  }

  /**
   * The dotted-decimal text `Display` gives an `Ipv4Addr`, as in 192.168.1.200: only
   * digits and dots, and it reads back to the same address.
   */
  function Ipv4Text(ip: Ipv4): (s: string)
    ensures forall i :: 0 <= i < |s| ==> IsDigit(s[i]) || s[i] == '.'
    ensures ReadIpv4(s) == Some(ip)
  {
    DottedOctets(ip);
    Dotted(Decimal(ip.a), Decimal(ip.b), Decimal(ip.c), Decimal(ip.d))
  }

  /** Four pieces of text joined by '.'. */
  function Dotted(a: string, b: string, c: string, d: string): string
  {
    a + "." + b + "." + c + "." + d
  }

  /** Dot-free pieces joined by '.' split back into the same four pieces. */
  lemma SplitDotted(a: string, b: string, c: string, d: string)
    requires forall i :: 0 <= i < |a| ==> a[i] != '.'
    requires forall i :: 0 <= i < |b| ==> b[i] != '.'
    requires forall i :: 0 <= i < |c| ==> c[i] != '.'
    requires forall i :: 0 <= i < |d| ==> d[i] != '.'
    ensures SplitOn(Dotted(a, b, c, d), '.') == [a, b, c, d]
  {
    var cd := c + ['.'] + d;
    var bcd := b + ['.'] + cd;
    SplitOnAbsent(d, '.');
    SplitOnFirst(c, '.', d);
    assert SplitOn(cd, '.') == [c, d];
    SplitOnFirst(b, '.', cd);
    assert SplitOn(bcd, '.') == [b, c, d];
    SplitOnFirst(a, '.', bcd);
    assert Dotted(a, b, c, d) == a + ['.'] + bcd;
  }

  /** The dotted decimal octets of `ip` consist of digits and dots and read back to `ip`. */
  lemma DottedOctets(ip: Ipv4)
    ensures var s := Dotted(Decimal(ip.a), Decimal(ip.b), Decimal(ip.c), Decimal(ip.d));
            (forall i :: 0 <= i < |s| ==> IsDigit(s[i]) || s[i] == '.') && ReadIpv4(s) == Some(ip)
  {
    var a, b, c, d := Decimal(ip.a), Decimal(ip.b), Decimal(ip.c), Decimal(ip.d);
    OctetTextOf(ip.a);
    OctetTextOf(ip.b);
    OctetTextOf(ip.c);
    OctetTextOf(ip.d);
    SplitDotted(a, b, c, d);
  }

  /** The decimal text of an octet spells it, with no '.' in it. */
  lemma OctetTextOf(v: Byte)
    ensures IsOctetText(Decimal(v)) && DecimalValue(Decimal(v)) == v
    ensures forall i :: 0 <= i < |Decimal(v)| ==> IsDigit(Decimal(v)[i]) && Decimal(v)[i] != '.'
  {
    DecimalRoundTrip(v);
  }

  /** The host octet `get_lease_ip` gives the device. */
  const LeaseHostOctet: Byte := 200

  /**
   * `get_lease_ip`: copies the server address's octets into a local array, overwrites
   * the fourth with 200 and builds the address back, so the device is offered host
   * .200 in the server's /24. When the server itself is host .200 the device is
   * offered the server's own address.
   */
  method GetLeaseIp(serverIp: Ipv4) returns (leaseIp: Ipv4)
    ensures leaseIp.Octets()[..3] == serverIp.Octets()[..3]
    ensures leaseIp.d == LeaseHostOctet
    ensures leaseIp == serverIp <==> serverIp.d == LeaseHostOctet
  {
    var octets := new Byte[4];
    octets[0], octets[1], octets[2], octets[3] := serverIp.a, serverIp.b, serverIp.c, serverIp.d;
    octets[3] := LeaseHostOctet;
    leaseIp := Ipv4(octets[0], octets[1], octets[2], octets[3]);
  }

  /** The six bytes of a hardware address. */
  type MacBytes = s: seq<Byte> | |s| == 6 witness [0, 0, 0, 0, 0, 0]

  /** `MacAddr([u8; 6])`; equality is byte-wise. */
  datatype MacAddr = MacAddr(bytes: MacBytes)

  /** `MacAddr::new`. */
  function NewMac(a: Byte, b: Byte, c: Byte, d: Byte, e: Byte, f: Byte): (m: MacAddr)
    ensures m.bytes == [a, b, c, d, e, f]
  {
    MacAddr([a, b, c, d, e, f])
  }

  /** `MacAddr::default`: all six bytes zero. */
  function DefaultMac(): MacAddr
  {
    MacAddr([0, 0, 0, 0, 0, 0])
  }

  const HexDigits := "0123456789abcdef"

  /** A lower-case hexadecimal digit, as `{:x}` writes it. */
  function HexDigit(v: nat): (c: char)
    requires v < 16
  {
    HexDigits[v]
  }

  predicate IsLowerHex(c: char)
  {
    '0' <= c <= '9' || 'a' <= c <= 'f'
  }

  function HexValue(c: char): (v: nat)
    requires IsLowerHex(c)
    ensures v < 16 && HexDigit(v) == c
  {
    if c <= '9' then c as int - '0' as int else c as int - 'a' as int + 10
  }

  lemma HexDigitRoundTrip(v: nat)
    requires v < 16
    ensures IsLowerHex(HexDigit(v)) && HexValue(HexDigit(v)) == v
  {
  }

  /** `{:02x}`: a byte as exactly two lower-case hexadecimal digits. */
  function Hex2(v: Byte): string
  {
    [HexDigit(v / 16), HexDigit(v % 16)]
  }

  /**
   * The character the `Display` of `m` has at position `k` of its 17: a ':' after
   * every pair, otherwise the high then the low digit of byte `k / 3`.
   */
  function MacTextAt(m: MacAddr, k: nat): char
    requires k < 17
  {
    if k % 3 == 2 then ':'
    else if k % 3 == 0 then HexDigit(m.bytes[k / 3] / 16)
    else HexDigit(m.bytes[k / 3] % 16)
  }

  /** `Display for MacAddr`: six two-digit lower-case hex pairs, in byte order, joined by ':'. */
  function MacText(m: MacAddr): (s: string)
    ensures |s| == 17
    ensures forall k :: 0 <= k < 17 ==> s[k] == MacTextAt(m, k)
  {
    var b := m.bytes;
    Hex2(b[0]) + ":" + Hex2(b[1]) + ":" + Hex2(b[2]) + ":" + Hex2(b[3]) + ":" + Hex2(b[4]) + ":" + Hex2(b[5])
  }

  /** The default address is displayed as 00:00:00:00:00:00. */
  lemma DefaultMacText()
    ensures MacText(DefaultMac()) == "00:00:00:00:00:00"
  {
    var s := MacText(DefaultMac());
    forall k | 0 <= k < 17
      ensures s[k] == "00:00:00:00:00:00"[k]
    {
      assert s[k] == MacTextAt(DefaultMac(), k);
    }
  }

  /** Text in the shape `MacText` writes: hex digit pairs separated by ':'. */
  predicate IsMacText(s: string)
  {
    |s| == 17 && forall k :: 0 <= k < 17 ==> if k % 3 == 2 then s[k] == ':' else IsLowerHex(s[k])
  }

  /** The byte that the pair of hex digits at positions 3i and 3i+1 of `s` spells. */
  function PairValue(s: string, i: nat): Byte
    requires IsMacText(s) && i < 6
  {
    PairPositions(i);
    HexValue(s[3 * i]) * 16 + HexValue(s[3 * i + 1])
  }

  /** Reads back text in the form `MacText` writes; anything else is refused. */
  function ParseMac(s: string): (r: Option<MacAddr>)
  {
    if IsMacText(s) then Some(MacAddr(seq(6, i requires 0 <= i < 6 => PairValue(s, i)))) else None
  }

  /** Every character `MacText` writes is a lower-case hex digit or a ':' after a pair. */
  lemma MacTextShape(m: MacAddr)
    ensures IsMacText(MacText(m))
  {
    var s := MacText(m);
    forall k | 0 <= k < 17
      ensures if k % 3 == 2 then s[k] == ':' else IsLowerHex(s[k])
    {
      assert s[k] == MacTextAt(m, k);
      if k % 3 != 2 {
        var v := if k % 3 == 0 then m.bytes[k / 3] / 16 else m.bytes[k / 3] % 16;
        HexDigitRoundTrip(v);
      }
    }
  }

  /** Positions 3i and 3i+1 of the text are the two digits of byte i. */
  lemma PairPositions(i: nat)
    requires i < 6
    ensures (3 * i) % 3 == 0 && (3 * i) / 3 == i
    ensures (3 * i + 1) % 3 == 1 && (3 * i + 1) / 3 == i
  {
  }

  /** The two digits `MacText` writes for byte `i` spell that byte. */
  lemma MacTextPair(m: MacAddr, i: nat)
    requires i < 6
    ensures IsMacText(MacText(m)) && PairValue(MacText(m), i) == m.bytes[i]
  {
    var s := MacText(m);
    MacTextShape(m);
    PairPositions(i);
    assert s[3 * i] == MacTextAt(m, 3 * i) == HexDigit(m.bytes[i] / 16);
    assert s[3 * i + 1] == MacTextAt(m, 3 * i + 1) == HexDigit(m.bytes[i] % 16);
    HexDigitRoundTrip(m.bytes[i] / 16);
    HexDigitRoundTrip(m.bytes[i] % 16);
  }

  /** The `Display` text of a hardware address determines the address. */
  lemma MacTextRoundTrip(m: MacAddr)
    ensures ParseMac(MacText(m)) == Some(m)
  {
    var s := MacText(m);
    MacTextPair(m, 0);
    var bytes := seq(6, i requires 0 <= i < 6 => PairValue(s, i));
    forall i | 0 <= i < 6
      ensures bytes[i] == m.bytes[i]
    {
      MacTextPair(m, i);
    }
    assert bytes == m.bytes;
  }

  /** Two addresses with the same `Display` text are the same address. */
  lemma MacTextInjective(m1: MacAddr, m2: MacAddr)
    requires MacText(m1) == MacText(m2)
    ensures m1 == m2
  {
    MacTextRoundTrip(m1);
    MacTextRoundTrip(m2);
  }
}
