/** The part of Go's net/netip that the controller uses. Parsing and printing of
    address texts (section 4 of RFC 5952 for IPv6) are a parameter. */
module Netip {
  import opened Prelude
  import opened Text

  type U32 = n: nat | n < 0x1_0000_0000
  type U128 = n: nat | n < 0x1_0000_0000_0000_0000_0000_0000_0000_0000

  /** An address; Zero is the invalid address. Zones cannot occur in prefixes. */
  datatype Addr = Zero | V4(v4: U32) | V6(v6: U128)

  function BitLen(a: Addr): nat {
    match a
    case Zero => 0
    case V4(_) => 32
    case V6(_) => 128
  }

  function Value(a: Addr): nat {
    match a
    case Zero => 0
    case V4(n) => n
    case V6(n) => n
  }

  /** First by family, then by value: negative, zero or positive. */
  function Compare(a: Addr, b: Addr): int {
    if BitLen(a) != BitLen(b) then BitLen(a) - BitLen(b) else Value(a) - Value(b)
  }

  /** The following address of the family; Zero after the last one. */
  function Next(a: Addr): Addr {
    match a
    case Zero => Zero
    case V4(n) => if n + 1 < 0x1_0000_0000 then V4(n + 1) else Zero
    case V6(n) => if n + 1 < 0x1_0000_0000_0000_0000_0000_0000_0000_0000 then V6(n + 1) else Zero
  }

  /** An address in CIDR notation; the invalid prefix has -1 bits. */
  datatype Prefix = Prefix(addr: Addr, bits: int)

  predicate ValidPrefix(p: Prefix) {
    !p.addr.Zero? && 0 <= p.bits <= BitLen(p.addr)
  }

  predicate IsSingleIP(p: Prefix) {
    ValidPrefix(p) && p.bits == BitLen(p.addr)
  }

  /** ParsePrefix, and String of an address. */
  datatype Net = Net(parse: string -> Option<Prefix>, text: Addr -> string)

  /** The text of a valid address determines it and has no separator in it. */
  ghost predicate Lawful(net: Net) {
    && (forall a: Addr, b: Addr :: !a.Zero? && !b.Zero? && net.text(a) == net.text(b) ==> a == b)
    && (forall a: Addr, c: char :: !a.Zero? && c in net.text(a) ==> c != '\n' && c != ' ' && c != '/')
  }

  /** String of a prefix. */
  function PrefixText(net: Net, p: Prefix): string {
    if !ValidPrefix(p) then "invalid Prefix" else net.text(p.addr) + ("/" + Decimal(p.bits))
  }

  lemma PrefixTextDetermines(net: Net, p: Prefix, q: Prefix)
    requires Lawful(net) && ValidPrefix(p) && ValidPrefix(q)
    requires PrefixText(net, p) == PrefixText(net, q)
    ensures p == q
  {
    CutAt(net.text(p.addr), '/', Decimal(p.bits));
    CutAt(net.text(q.addr), '/', Decimal(q.bits));
    NatOfDecimal(p.bits);
    NatOfDecimal(q.bits);
  }

  /** A single address is printed with the full length of its family. */
  lemma SingleText(net: Net, p: Prefix)
    requires (p.addr.V4? && p.bits == 32) || (p.addr.V6? && p.bits == 128)
    ensures PrefixText(net, p) == net.text(p.addr) + (if p.addr.V4? then "/32" else "/128")
  {
    DecimalSpelled(32);
    DecimalSpelled(128);
    DecimalSpelled(12);
    DecimalSpelled(1);
    DecimalSpelled(2);
    DecimalSpelled(3);
    DecimalSpelled(8);
    assert "3" + "2" == "32" && ("1" + "2") + "8" == "128";
    assert "/" + "32" == "/32" && "/" + "128" == "/128";
  }

  lemma PrefixTextOneLine(net: Net, p: Prefix)
    requires Lawful(net) && ValidPrefix(p)
    ensures OneLine(PrefixText(net, p))
  {
    DecimalHasNo(p.bits, '\n');
  }
}
