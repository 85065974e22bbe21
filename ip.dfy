/**
 * The address classifier of server/src/geo.rs (`is_private`) and the part of
 * Rust's `std::net` it relies on: IPv4 dotted-decimal parsing and printing.
 * IPv6 text parsing is a parameter (`Ipv6Parser`).
 */
module Ip {
  import opened Wrappers
  import opened Strings

  newtype byte = x: int | 0 <= x < 256

  /** An IPv4 address by its four octets, most significant first. */
  datatype Ipv4 = Ipv4(a: byte, b: byte, c: byte, d: byte)

  /** An IPv6 address by its eight 16-bit segments, most significant first. */
  type Segments = s: seq<bv16> | |s| == 8 witness [0, 0, 0, 0, 0, 0, 0, 0]

  datatype IpAddr = V4(v4: Ipv4) | V6(v6: Segments)

  /** Rust's `Ipv6Addr::from_str`, which this model does not spell out. */
  type Ipv6Parser = string -> Option<Segments>

  // ---------------------------------------------------------------------------
  // The predicates of `std::net` that `is_private` calls

  /** `Ipv4Addr::is_loopback`: 127.0.0.0/8. */
  predicate V4Loopback(x: Ipv4) { x.a == 127 }
  /** `Ipv4Addr::is_link_local`: 169.254.0.0/16. */
  predicate V4LinkLocal(x: Ipv4) { x.a == 169 && x.b == 254 }
  /** `Ipv4Addr::is_unspecified`: 0.0.0.0. */
  predicate V4Unspecified(x: Ipv4) { x == Ipv4(0, 0, 0, 0) }
  /** `Ipv4Addr::is_broadcast`: 255.255.255.255. */
  predicate V4Broadcast(x: Ipv4) { x == Ipv4(255, 255, 255, 255) }

  /** `Ipv6Addr::is_loopback`: ::1. */
  predicate V6Loopback(s: Segments) { s == [0, 0, 0, 0, 0, 0, 0, 1] }
  /** `Ipv6Addr::is_unspecified`: ::. */
  predicate V6Unspecified(s: Segments) { s == [0, 0, 0, 0, 0, 0, 0, 0] }

  /** The IPv4 arm of `is_private`. */
  predicate PrivateV4(x: Ipv4) {
    V4Loopback(x) || V4LinkLocal(x) || V4Unspecified(x) || V4Broadcast(x)
    || x.a == 10
    || (x.a == 172 && 16 <= x.b <= 31)
    || (x.a == 192 && x.b == 168)
  }

  /** The IPv6 arm of `is_private`. */
  predicate PrivateV6(s: Segments) {
    V6Loopback(s) || V6Unspecified(s)
    || (s[0] & 0xffc0) == 0xfe80
    || (s[0] & 0xfe00) == 0xfc00
  }

  // ---------------------------------------------------------------------------
  // `is_private`

  /** The IPv4-mapped IPv6 prefix that `is_private` strips, literally and in lower case. */
  const MappedPrefix: string := "::ffff:"

  /** `strip_prefix("::ffff:").unwrap_or(ip_str)`: drops the prefix once, if present. */
  function StripMapped(s: string): (r: string)
    ensures MappedPrefix <= s ==> s == MappedPrefix + r
    ensures !(MappedPrefix <= s) ==> r == s
  {
    if MappedPrefix <= s then s[|MappedPrefix|..] else s
  }

  /**
   * `IpAddr::from_str`: an IPv4 dotted quad if the whole text is one, otherwise
   * whatever the IPv6 parser makes of it.
   */
  function ParseIp(s: string, parseV6: Ipv6Parser): (r: Option<IpAddr>)
    ensures ParseV4(s).Some? ==> r == Some(V4(ParseV4(s).value))
    ensures ParseV4(s).None? ==> (r.Some? <==> parseV6(s).Some?)
    ensures ParseV4(s).None? && r.Some? ==> r == Some(V6(parseV6(s).value))
  {
    match ParseV4(s)
    case Some(x) => Some(V4(x))
    case None =>
      match parseV6(s)
      case Some(g) => Some(V6(g))
      case None => None
  }

  /** The verdict of `is_private` on an already stripped and parsed address. */
  predicate Classify(addr: Option<IpAddr>) {
    match addr
    case None => true
    case Some(V4(x)) => PrivateV4(x)
    case Some(V6(g)) => PrivateV6(g)
  }

  /**
   * `is_private`: true for addresses never sent to the public geolocation
   * service (loopback, link-local, private and the other special ranges) and for
   * text that does not parse as an address.
   */
  predicate IsPrivate(ipStr: string, parseV6: Ipv6Parser) {
    Classify(ParseIp(StripMapped(ipStr), parseV6))
  }

  /** The prefix is stripped once and only once: what follows it is classified as it stands. */
  lemma MappedStrippedOnce(s: string, parseV6: Ipv6Parser)
    ensures IsPrivate(MappedPrefix + s, parseV6) == Classify(ParseIp(s, parseV6))
  {
    assert MappedPrefix <= MappedPrefix + s;
    assert (MappedPrefix + s)[|MappedPrefix|..] == s;
  }

  /** Text that is neither a dotted quad nor an IPv6 address counts as private. */
  lemma UnparseableIsPrivate(ipStr: string, parseV6: Ipv6Parser)
    requires ParseV4(StripMapped(ipStr)).None? && parseV6(StripMapped(ipStr)).None?
    ensures IsPrivate(ipStr, parseV6)
  {
  }

  /** `::ffff:a.b.c.d` is classified as the IPv4 address a.b.c.d. */
  lemma {:induction false} MappedV4ClassifiedAsV4(x: Ipv4, parseV6: Ipv6Parser)
    ensures IsPrivate(MappedPrefix + FormatV4(x), parseV6) == PrivateV4(x)
  {
    MappedStrippedOnce(FormatV4(x), parseV6);
    ParseFormatV4(x);
  }

  /** A dotted quad as `to_string` prints it is classified as that IPv4 address. */
  lemma {:induction false} FormattedV4Classified(x: Ipv4, parseV6: Ipv6Parser)
    ensures IsPrivate(FormatV4(x), parseV6) == PrivateV4(x)
  {
    ParseFormatV4(x);
    assert FormatV4(x)[0] == FormatOctet(x.a)[0];
    assert !(MappedPrefix <= FormatV4(x)) by {
      assert IsDigit(FormatV4(x)[0]);
    }
  }

  // ---------------------------------------------------------------------------
  // Dotted-decimal text of an IPv4 address

  predicate IsDigit(c: char) { '0' <= c <= '9' }

  predicate AllDigits(f: string) { forall i :: 0 <= i < |f| ==> IsDigit(f[i]) }

  /** The value of a decimal digit. */
  function DigitOf(c: char): int { c as int - '0' as int }

  /** The number written by the decimal digits `f`. */
  function DecimalValue(f: string): nat
    requires AllDigits(f)
  {
    if f == [] then 0
    else DecimalValue(f[..|f| - 1]) * 10 + DigitOf(f[|f| - 1])
  }

  /**
   * One field of `Ipv4Addr::from_str`: one to three decimal digits, no leading
   * zero unless the field is "0", and a value that fits in an octet.
   */
  function ParseOctet(f: string): (r: Option<byte>)
    ensures r.Some? <==>
      1 <= |f| <= 3 && AllDigits(f) && (f[0] == '0' ==> |f| == 1) && DecimalValue(f) <= 255
    ensures r.Some? ==> r.value as int == DecimalValue(f)
  {
    if 1 <= |f| <= 3 && AllDigits(f) && (f[0] != '0' || |f| == 1) && DecimalValue(f) <= 255
    then Some(DecimalValue(f) as byte)
    else None
  }

  /** `Ipv4Addr::from_str`: exactly four dot-separated fields, each an octet. */
  function ParseV4(s: string): (r: Option<Ipv4>)
    ensures r.Some? <==>
      |Split(s, '.')| == 4 && forall i :: 0 <= i < 4 ==> ParseOctet(Split(s, '.')[i]).Some?
    ensures r.Some? ==>
      var fields := Split(s, '.');
      r.value == Ipv4(ParseOctet(fields[0]).value, ParseOctet(fields[1]).value,
                      ParseOctet(fields[2]).value, ParseOctet(fields[3]).value)
  {
    var fields := Split(s, '.');
    if |fields| != 4 then None
    else
      match (ParseOctet(fields[0]), ParseOctet(fields[1]), ParseOctet(fields[2]), ParseOctet(fields[3]))
      case (Some(a), Some(b), Some(c), Some(d)) => Some(Ipv4(a, b, c, d))
      case _ => None
  }

  function DigitChar(n: nat): (c: char)
    requires n < 10
    ensures IsDigit(c) && (c as int) - ('0' as int) == n
  {
    (('0' as int) + n) as char
  }

  /** An octet in decimal without leading zeros, as `Display for Ipv4Addr` prints it. */
  function FormatOctet(x: byte): (f: string)
    ensures 1 <= |f| <= 3 && AllDigits(f) && (|f| > 1 ==> f[0] != '0')
  {
    var n := x as int;
    if n < 10 then [DigitChar(n)]
    else if n < 100 then [DigitChar(n / 10), DigitChar(n % 10)]
    else [DigitChar(n / 100), DigitChar(n / 10 % 10), DigitChar(n % 10)]
  }

  /** `Display for Ipv4Addr`: the four octets in decimal, separated by dots. */
  function FormatV4(x: Ipv4): (s: string)
    ensures s == Join([FormatOctet(x.a), FormatOctet(x.b), FormatOctet(x.c), FormatOctet(x.d)], '.')
    ensures s != [] && IsDigit(s[0])
  {
    var parts := [FormatOctet(x.a), FormatOctet(x.b), FormatOctet(x.c), FormatOctet(x.d)];
    assert parts[1..][1..][1..] == [FormatOctet(x.d)];
    assert Join(parts[1..][1..], '.') == FormatOctet(x.c) + "." + FormatOctet(x.d);
    assert Join(parts[1..], '.') == FormatOctet(x.b) + "." + (FormatOctet(x.c) + "." + FormatOctet(x.d));
    FormatOctet(x.a) + "." + (FormatOctet(x.b) + "." + (FormatOctet(x.c) + "." + FormatOctet(x.d)))
  }

  /** Parsing an octet printed in decimal gives the octet back. */
  lemma ParseFormatOctet(x: byte)
    ensures ParseOctet(FormatOctet(x)) == Some(x)
    ensures '.' !in FormatOctet(x)
  {
    var n := x as int;
    var f := FormatOctet(x);
    if n < 10 {
      DecimalOfDigits(DigitChar(n), DigitChar(0), DigitChar(0));
      assert f == [DigitChar(n)];
      assert DecimalValue(f) == n;
    } else if n < 100 {
      DecimalOfDigits(DigitChar(n / 10), DigitChar(n % 10), DigitChar(0));
      assert f == [DigitChar(n / 10), DigitChar(n % 10)];
      assert DecimalValue(f) == n;
    } else {
      DecimalOfDigits(DigitChar(n / 100), DigitChar(n / 10 % 10), DigitChar(n % 10));
      assert f == [DigitChar(n / 100), DigitChar(n / 10 % 10), DigitChar(n % 10)];
      assert DecimalValue(f) == n;
    }
  }

  /** The values of the one-, two- and three-digit strings over `d0`, `d1`, `d2`. */
  lemma DecimalOfDigits(d0: char, d1: char, d2: char)
    requires IsDigit(d0) && IsDigit(d1) && IsDigit(d2)
    ensures DecimalValue([d0]) == DigitOf(d0)
    ensures DecimalValue([d0, d1]) == DigitOf(d0) * 10 + DigitOf(d1)
    ensures DecimalValue([d0, d1, d2]) == (DigitOf(d0) * 10 + DigitOf(d1)) * 10 + DigitOf(d2)
  {
    assert [d0][..0] == [];
    assert [d0, d1][..1] == [d0];
    assert [d0, d1, d2][..2] == [d0, d1];
  }

  /** Octet text that `ParseOctet` accepts is printed back unchanged: it is canonical. */
  lemma FormatParseOctet(f: string)
    requires ParseOctet(f).Some?
    ensures FormatOctet(ParseOctet(f).value) == f
  {
    var one := f[..1];
    assert one[..0] == [] && one[0] == f[0];
    assert DecimalValue(one) == f[0] as int - '0' as int;
    if |f| == 1 {
      assert f == one;
    } else if |f| == 2 {
      assert f[..|f| - 1] == one;
      FormatTwoDigits(f);
    } else {
      var two := f[..2];
      assert two[..1] == one && two[1] == f[1];
      assert f[..|f| - 1] == two;
      FormatThreeDigits(f);
    }
  }

  lemma FormatTwoDigits(f: string)
    requires |f| == 2 && AllDigits(f) && f[0] != '0'
    requires DecimalValue(f) == DigitOf(f[0]) * 10 + DigitOf(f[1])
    ensures DecimalValue(f) < 256 && FormatOctet(DecimalValue(f) as byte) == f
  {
    var v := DecimalValue(f);
    var d0, d1 := DigitOf(f[0]), DigitOf(f[1]);
    assert 10 <= v < 100;
    assert v / 10 == d0 && v % 10 == d1;
    var g := FormatOctet(v as byte);
    assert g[0] as int == f[0] as int && g[1] as int == f[1] as int;
  }

  lemma FormatThreeDigits(f: string)
    requires |f| == 3 && AllDigits(f) && f[0] != '0'
    requires DecimalValue(f[..2]) == DigitOf(f[0]) * 10 + DigitOf(f[1])
    requires DecimalValue(f) == DecimalValue(f[..2]) * 10 + DigitOf(f[2]) <= 255
    ensures FormatOctet(DecimalValue(f) as byte) == f
  {
    var v := DecimalValue(f);
    var d0, d1, d2 := DigitOf(f[0]), DigitOf(f[1]), DigitOf(f[2]);
    assert v == d0 * 100 + d1 * 10 + d2;
    assert 100 <= v;
    assert v / 100 == d0 && v / 10 % 10 == d1 && v % 10 == d2;
    var g := FormatOctet(v as byte);
    assert g[0] as int == f[0] as int && g[1] as int == f[1] as int && g[2] as int == f[2] as int;
  }

  /**
   * Text that `Ipv4Addr::from_str` accepts is exactly the printed form of the
   * address it denotes: there is one spelling per address.
   */
  lemma {:induction false} FormatParseV4(s: string)
    requires ParseV4(s).Some?
    ensures FormatV4(ParseV4(s).value) == s
  {
    var fields := Split(s, '.');
    var x := ParseV4(s).value;
    FormatParseOctet(fields[0]);
    FormatParseOctet(fields[1]);
    FormatParseOctet(fields[2]);
    FormatParseOctet(fields[3]);
    JoinSplit(s, '.');
    assert fields[1..][1..][1..] == [fields[3]];
    assert Join(fields[1..][1..], '.') == fields[2] + "." + fields[3];
    assert Join(fields[1..], '.') == fields[1] + "." + (fields[2] + "." + fields[3]);
    assert Join(fields, '.') == fields[0] + "." + (fields[1] + "." + (fields[2] + "." + fields[3]));
  }

  /** Parsing the printed form of an IPv4 address gives the address back. */
  lemma {:induction false} ParseFormatV4(x: Ipv4)
    ensures ParseV4(FormatV4(x)) == Some(x)
  {
    ParseFormatOctet(x.a);
    ParseFormatOctet(x.b);
    ParseFormatOctet(x.c);
    ParseFormatOctet(x.d);
    var parts := [FormatOctet(x.a), FormatOctet(x.b), FormatOctet(x.c), FormatOctet(x.d)];
    SplitJoin(parts, '.');
  }

  // ---------------------------------------------------------------------------
  // The special-purpose ranges as CIDR blocks (RFC 1918 section 3, RFC 6890
  // sections 2.2.2 and 2.2.3, RFC 4291 sections 2.5.2, 2.5.3 and 2.5.6, RFC 4193
  // section 3.1)

  /** An IPv4 address as a 32-bit number. */
  function V4Value(x: Ipv4): nat
  {
    x.a as int * 0x100_0000 + x.b as int * 0x1_0000 + x.c as int * 0x100 + x.d as int
  }

  function Pow2(n: nat): (p: nat)
    ensures p >= 1
  {
    if n == 0 then 1 else 2 * Pow2(n - 1)
  }

  lemma {:induction false} Pow2Add(m: nat, n: nat)
    ensures Pow2(m + n) == Pow2(m) * Pow2(n)
  {
    if n > 0 {
      Pow2Add(m, n - 1);
    }
  }

  lemma Pow2Values()
    ensures Pow2(0) == 1 && Pow2(4) == 0x10 && Pow2(8) == 0x100
    ensures Pow2(16) == 0x1_0000 && Pow2(20) == 0x10_0000 && Pow2(24) == 0x100_0000
  {
    assert Pow2(4) == 0x10 by {
      assert Pow2(1) == 2;
      assert Pow2(2) == 4;
      assert Pow2(3) == 8;
    }
    assert Pow2(8) == 0x100 by { Pow2Add(4, 4); }
    assert Pow2(16) == 0x1_0000 by { Pow2Add(8, 8); }
    assert Pow2(20) == 0x10_0000 by { Pow2Add(16, 4); }
    assert Pow2(24) == 0x100_0000 by { Pow2Add(16, 8); }
  }

  /** A prefix length of an IPv4 block. */
  type V4PrefixLen = n: nat | n <= 32

  /** A CIDR block: a base address and the number of leading bits that are fixed. */
  datatype V4Block = V4Block(base: Ipv4, prefixLen: V4PrefixLen)

  /** The block's addresses: the 2^(32 - prefixLen) numbers from the base on. */
  predicate InV4Block(x: Ipv4, blk: V4Block) {
    V4Value(blk.base) <= V4Value(x) < V4Value(blk.base) + Pow2(32 - blk.prefixLen)
  }

  /**
   * The base has no bit set past the prefix, so the block holds exactly the
   * addresses whose first `prefixLen` bits are those of the base.
   */
  predicate Aligned(blk: V4Block) {
    V4Value(blk.base) % Pow2(32 - blk.prefixLen) == 0
  }

  /** The IPv4 blocks the server never geolocates. */
  const PrivateV4Blocks: seq<V4Block> := [
    V4Block(Ipv4(127, 0, 0, 0), 8),          // loopback, RFC 6890 section 2.2.2
    V4Block(Ipv4(169, 254, 0, 0), 16),       // link local, RFC 6890 section 2.2.2
    V4Block(Ipv4(0, 0, 0, 0), 32),           // the unspecified address
    V4Block(Ipv4(255, 255, 255, 255), 32),   // limited broadcast, RFC 6890 section 2.2.2
    V4Block(Ipv4(10, 0, 0, 0), 8),           // private, RFC 1918 section 3
    V4Block(Ipv4(172, 16, 0, 0), 12),        // private, RFC 1918 section 3
    V4Block(Ipv4(192, 168, 0, 0), 16)        // private, RFC 1918 section 3
  ]

  /** Every base in the table is aligned to its prefix. */
  lemma PrivateV4BlocksAligned()
    ensures forall i :: 0 <= i < |PrivateV4Blocks| ==> Aligned(PrivateV4Blocks[i])
  {
    Pow2Values();
  }

  /** Distinct addresses have distinct numbers. */
  lemma V4ValueInjective(x: Ipv4, y: Ipv4)
    ensures V4Value(x) == V4Value(y) <==> x == y
  {
    if V4Value(x) == V4Value(y) {
      assert x.a == y.a;
      assert x.b == y.b;
      assert x.c == y.c;
    }
  }

  lemma InSlash8(x: Ipv4, base: Ipv4)
    requires base.b == 0 && base.c == 0 && base.d == 0
    ensures InV4Block(x, V4Block(base, 8)) <==> x.a == base.a
  {
    Pow2Values();
  }

  lemma InSlash12(x: Ipv4, base: Ipv4)
    requires base.b as int % 16 == 0 && base.c == 0 && base.d == 0
    ensures InV4Block(x, V4Block(base, 12)) <==> x.a == base.a && x.b as int / 16 == base.b as int / 16
  {
    Pow2Values();
    var low := x.c as int * 0x100 + x.d as int;
    assert 0 <= low < 0x1_0000;
    var top := x.a as int * 16 + x.b as int / 16;
    var baseTop := base.a as int * 16 + base.b as int / 16;
    assert V4Value(x) == top * 0x10_0000 + (x.b as int % 16) * 0x1_0000 + low;
    assert V4Value(base) == baseTop * 0x10_0000;
    assert InV4Block(x, V4Block(base, 12)) <==> top == baseTop;
  }

  lemma InSlash16(x: Ipv4, base: Ipv4)
    requires base.c == 0 && base.d == 0
    ensures InV4Block(x, V4Block(base, 16)) <==> x.a == base.a && x.b == base.b
  {
    Pow2Values();
    var top := x.a as int * 256 + x.b as int;
    var baseTop := base.a as int * 256 + base.b as int;
    assert V4Value(x) == top * 0x1_0000 + x.c as int * 0x100 + x.d as int;
    assert V4Value(base) == baseTop * 0x1_0000;
    assert InV4Block(x, V4Block(base, 16)) <==> top == baseTop;
  }

  lemma InSlash32(x: Ipv4, base: Ipv4)
    ensures InV4Block(x, V4Block(base, 32)) <==> x == base
  {
    V4ValueInjective(x, base);
  }

  /**
   * The IPv4 arm of `is_private` holds exactly for the addresses inside one of
   * the listed CIDR blocks.
   */
  lemma {:induction false} PrivateV4IffInBlock(x: Ipv4)
    ensures PrivateV4(x) <==>
      exists i :: 0 <= i < |PrivateV4Blocks| && InV4Block(x, PrivateV4Blocks[i])
  {
    if PrivateV4(x) {
      PrivateV4InBlock(x);
    }
    forall i | 0 <= i < |PrivateV4Blocks| && InV4Block(x, PrivateV4Blocks[i]) ensures PrivateV4(x) {
      InBlockIsPrivateV4(x, i);
    }
  }

  lemma PrivateV4InBlock(x: Ipv4)
    requires PrivateV4(x)
    ensures exists i :: 0 <= i < |PrivateV4Blocks| && InV4Block(x, PrivateV4Blocks[i])
  {
    var i: nat;
    if V4Loopback(x) {
      i := 0;
      InSlash8(x, Ipv4(127, 0, 0, 0));
    } else if V4LinkLocal(x) {
      i := 1;
      InSlash16(x, Ipv4(169, 254, 0, 0));
    } else if V4Unspecified(x) {
      i := 2;
      InSlash32(x, Ipv4(0, 0, 0, 0));
    } else if V4Broadcast(x) {
      i := 3;
      InSlash32(x, Ipv4(255, 255, 255, 255));
    } else if x.a == 10 {
      i := 4;
      InSlash8(x, Ipv4(10, 0, 0, 0));
    } else if x.a == 172 {
      i := 5;
      InSlash12(x, Ipv4(172, 16, 0, 0));
    } else {
      i := 6;
      InSlash16(x, Ipv4(192, 168, 0, 0));
    }
    InBlockWitness(x, i);
  }

  lemma InBlockWitness(x: Ipv4, i: nat)
    requires i < |PrivateV4Blocks| && InV4Block(x, PrivateV4Blocks[i])
    ensures exists j :: 0 <= j < |PrivateV4Blocks| && InV4Block(x, PrivateV4Blocks[j])
  {
  }

  lemma InBlockIsPrivateV4(x: Ipv4, i: nat)
    requires i < |PrivateV4Blocks| && InV4Block(x, PrivateV4Blocks[i])
    ensures PrivateV4(x)
  {
    var blk := PrivateV4Blocks[i];
    if i == 0 { InSlash8(x, blk.base); }
    else if i == 1 { InSlash16(x, blk.base); }
    else if i == 2 { InSlash32(x, blk.base); }
    else if i == 3 { InSlash32(x, blk.base); }
    else if i == 4 { InSlash8(x, blk.base); }
    else if i == 5 { InSlash12(x, blk.base); }
    else { InSlash16(x, blk.base); }
  }

  /** `x` lies in the IPv6 block whose first segment is `base0` and whose prefix length is at most 16. */
  predicate InV6Block(s: Segments, base0: bv16, prefixLen: nat)
    requires prefixLen <= 16
  {
    s[0] >> (16 - prefixLen) == base0 >> (16 - prefixLen)
  }

  /**
   * Masking the first segment is the same as testing the link-local block
   * fe80::/10 (RFC 4291 section 2.5.6) and the unique-local block fc00::/7
   * (RFC 4193 section 3.1); the remaining cases are ::1 and ::.
   */
  lemma PrivateV6IffInBlock(s: Segments)
    ensures (s[0] & 0xffc0) == 0xfe80 <==> InV6Block(s, 0xfe80, 10)
    ensures (s[0] & 0xfe00) == 0xfc00 <==> InV6Block(s, 0xfc00, 7)
    ensures PrivateV6(s) <==>
      V6Loopback(s) || V6Unspecified(s) || InV6Block(s, 0xfe80, 10) || InV6Block(s, 0xfc00, 7)
  {
  }
}
