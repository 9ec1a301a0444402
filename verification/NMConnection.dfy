/** The NetworkManager connection of the interface that carries the public VIPs:
    the printer of its template, a parser, and what the text says about the VIPs. */
module NMConnection {
  import opened Prelude
  import opened Text
  import opened Netip
  import opened Sorting
  import opened Vips

  const ORIGIN_KEY := "org.freedesktop.NetworkManager.origin="
  const ORIGIN := "bootc-loadbalancer-controller"

  const CONNECTION: seq<string> := ["[connection]", "id=keepalived", "type=dummy", "interface-name=keepalived", ""]
  const USER: seq<string> := ["[user]", ORIGIN_KEY + ORIGIN, ""]
  const DUMMY: seq<string> := ["[dummy]", "", "[ipv4]", "method=manual"]
  const HEAD: seq<string> := CONNECTION + (USER + DUMMY)

  const HEAD6: seq<string> := ["[ipv6]", "method=manual"]

  const KEY := "address"

  /** The line of the VIP with index `i`; the template counts from 1. */
  function AddressLine(i: nat, vip: string): string {
    KEY + (Decimal(i + 1) + (['='] + vip))
  }

  function AddressLines(vips: seq<string>): seq<string> {
    seq(|vips|, i requires 0 <= i < |vips| => AddressLine(i, vips[i]))
  }

  /** The template: the section of the IPv6 addresses is present only if there are any. */
  function Printed(vips4: seq<string>, vips6: seq<string>): string {
    Unlines(HEAD + (AddressLines(vips4) + (if vips6 == [] then [] else HEAD6 + (AddressLines(vips6) + []))))
  }

  // ---------------------------------------------------------------------
  // Reading it back
  // ---------------------------------------------------------------------

  datatype Address = Address(number: nat, text: string)

  datatype Connection = Connection(ipv4: seq<Address>, ipv6: Option<seq<Address>>)

  function ReadAddress(line: string): Option<Address> {
    match Strip(KEY, line)
    case None => None
    case Some(s) => Some(Address(NatOf(Before(s, '=')), After(s, '=')))
  }

  function ReadAddresses(ls: seq<string>): Option<seq<Address>> {
    AllSome(seq(|ls|, i requires 0 <= i < |ls| => ReadAddress(ls[i])))
  }

  function Parse(s: string): Option<Connection> {
    var four := Section(HEAD, KEY, Lines(s));
    if four.None? then None
    else
      var a4 := ReadAddresses(four.value.0);
      if a4.None? then None
      else if four.value.1 == [] then Some(Connection(a4.value, None))
      else
        var six := Section(HEAD6, KEY, four.value.1);
        if six.None? || six.value.1 != [] then None
        else
          var a6 := ReadAddresses(six.value.0);
          if a6.None? then None else Some(Connection(a4.value, a6))
  }

  /** A list numbered from 1. */
  function Numbered(vips: seq<string>): seq<Address> {
    seq(|vips|, i requires 0 <= i < |vips| => Address(i + 1, vips[i]))
  }

  lemma ReadLine(i: nat, vip: string)
    ensures ReadAddress(AddressLine(i, vip)) == Some(Address(i + 1, vip))
    ensures KEY <= AddressLine(i, vip)
  {
    var number := Decimal(i + 1);
    StripJoined(KEY, number + (['='] + vip));
    DecimalHasNo(i + 1, '=');
    CutAt(number, '=', vip);
    NatOfDecimal(i + 1);
  }

  lemma AddressLineIsLine(i: nat, vip: string)
    requires OneLine(vip)
    ensures OneLine(AddressLine(i, vip))
  {
    var number := Decimal(i + 1);
    DecimalHasNo(i + 1, '\n');
    OneLineJoined(['='], vip);
    OneLineJoined(number, ['='] + vip);
    OneLineJoined(KEY, number + (['='] + vip));
  }

  lemma ReadLines(vips: seq<string>)
    ensures ReadAddresses(AddressLines(vips)) == Some(Numbered(vips))
    ensures forall l :: l in AddressLines(vips) ==> KEY <= l
    ensures (forall v :: v in vips ==> OneLine(v)) ==> forall l :: l in AddressLines(vips) ==> OneLine(l)
  {
    var ls := AddressLines(vips);
    forall i | 0 <= i < |vips|
      ensures ReadAddress(ls[i]) == Some(Address(i + 1, vips[i])) && KEY <= ls[i]
      ensures OneLine(vips[i]) ==> OneLine(ls[i])
    {
      ReadLine(i, vips[i]);
      if OneLine(vips[i]) { AddressLineIsLine(i, vips[i]); }
    }
    AllSomeOf(seq(|ls|, i requires 0 <= i < |ls| => ReadAddress(ls[i])), Numbered(vips));
  }

  lemma ConnectionIsLines()
    ensures forall l :: l in CONNECTION ==> OneLine(l)
  {
  }

  lemma UserIsLines()
    ensures forall l :: l in USER ==> OneLine(l)
  {
    OneLineJoined(ORIGIN_KEY, ORIGIN);
  }

  lemma HeadsAreLines()
    ensures forall l :: l in HEAD || l in HEAD6 ==> OneLine(l)
    ensures !(KEY <= HEAD6[0])
  {
    ConnectionIsLines();
    UserIsLines();
    assert HEAD6[0][0] == '[' && KEY[0] == 'a';
  }

  /** NetworkManager printer round trip: for lists of any length the text gives back
      both lists in order, each numbered from 1, and it has an IPv6 section exactly
      when there are IPv6 addresses. */
  lemma RoundTrip(vips4: seq<string>, vips6: seq<string>)
    requires forall v :: v in vips4 || v in vips6 ==> OneLine(v)
    ensures Parse(Printed(vips4, vips6)) ==
            Some(Connection(Numbered(vips4), if vips6 == [] then None else Some(Numbered(vips6))))
  {
    var l4, l6 := AddressLines(vips4), AddressLines(vips6);
    var tail := if vips6 == [] then [] else HEAD6 + (l6 + []);
    ReadLines(vips4);
    ReadLines(vips6);
    HeadsAreLines();
    LinesOfUnlines(HEAD + (l4 + tail));
    SectionOf(HEAD, KEY, l4, tail);
    SectionOf(HEAD6, KEY, l6, []);
  }

  /** The lines of the text, spelled out. */
  lemma LinesSpelled(vips4: seq<string>, vips6: seq<string>)
    requires forall v :: v in vips4 || v in vips6 ==> OneLine(v)
    ensures Lines(Printed(vips4, vips6)) ==
            (["[connection]", "id=keepalived", "type=dummy", "interface-name=keepalived", "", "[user]",
              "org.freedesktop.NetworkManager.origin=" + "bootc-loadbalancer-controller", "", "[dummy]", "",
              "[ipv4]", "method=manual"] +
             seq(|vips4|, i requires 0 <= i < |vips4| => "address" + (Decimal(i + 1) + ("=" + vips4[i])))) +
            (if vips6 == [] then [] else (["[ipv6]", "method=manual"] +
             seq(|vips6|, i requires 0 <= i < |vips6| => "address" + (Decimal(i + 1) + ("=" + vips6[i])))))
  {
    var l4, l6 := AddressLines(vips4), AddressLines(vips6);
    var tail := if vips6 == [] then [] else HEAD6 + (l6 + []);
    ReadLines(vips4);
    ReadLines(vips6);
    HeadsAreLines();
    LinesOfUnlines(HEAD + (l4 + tail));
    AddressesSpelled(vips4);
    AddressesSpelled(vips6);
    HeadSpelled();
    assert HEAD + (l4 + tail) == (HEAD + l4) + tail;
    assert l6 + [] == l6;
  }

  lemma HeadSpelled()
    ensures HEAD == ["[connection]", "id=keepalived", "type=dummy", "interface-name=keepalived", "", "[user]",
              "org.freedesktop.NetworkManager.origin=" + "bootc-loadbalancer-controller", "", "[dummy]", "",
              "[ipv4]", "method=manual"]
    ensures HEAD6 == ["[ipv6]", "method=manual"]
  {
  }

  lemma AddressesSpelled(vips: seq<string>)
    ensures AddressLines(vips) == seq(|vips|, i requires 0 <= i < |vips| => "address" + (Decimal(i + 1) + ("=" + vips[i])))
  {
  }

  lemma NumberedDetermines(a: seq<string>, b: seq<string>)
    requires Numbered(a) == Numbered(b)
    ensures a == b
  {
    assert |a| == |Numbered(a)| == |Numbered(b)| == |b|;
    forall i | 0 <= i < |a| ensures a[i] == b[i] {
      assert Numbered(a)[i] == Numbered(b)[i];
    }
  }

  /** Different lists are printed differently. */
  lemma PrintedDetermines(a4: seq<string>, a6: seq<string>, b4: seq<string>, b6: seq<string>)
    requires forall v :: v in a4 || v in a6 || v in b4 || v in b6 ==> OneLine(v)
    requires Printed(a4, a6) == Printed(b4, b6)
    ensures a4 == b4 && a6 == b6
  {
    RoundTrip(a4, a6);
    RoundTrip(b4, b6);
    NumberedDetermines(a4, b4);
    if a6 != [] && b6 != [] { NumberedDetermines(a6, b6); }
  }

  // ---------------------------------------------------------------------
  // From the configuration to the text
  // ---------------------------------------------------------------------

  function Texts(net: Net, ps: seq<Prefix>): seq<string> {
    seq(|ps|, i requires 0 <= i < |ps| => PrefixText(net, ps[i]))
  }

  /** The text for a list of VIPs. */
  function DummyText(net: Net, vips: seq<Prefix>): string {
    Printed(Texts(net, Family(vips, true)), Texts(net, Family(vips, false)))
  }

  /** RenderKeepalivedDummyNMConnection. */
  method RenderKeepalivedDummyNMConnection(net: Net, v: VIPs) returns (r: Result<string>)
    ensures r.Ok? <==> KindParses(net, All(v), PUBLIC)
    ensures r.Ok? ==> r.value == DummyText(net, PublicList(net, v))
  {
    var vips, ok := PublicVIPs(net, v);
    if !ok { return Err("failed to prepare public IPv4 VIPs"); }
    var vips4, vips6 := SplitFamilies(vips);
    return Ok(Printed(Texts(net, vips4), Texts(net, vips6)));
  }

  lemma {:induction false} FamilyOf(ps: seq<Prefix>, v4: bool)
    ensures forall p :: p in Family(ps, v4) ==> p in ps && p.addr.V4? == v4
  {
    if ps != [] {
      FamilyOf(DropLast(ps), v4);
      assert forall p :: p in DropLast(ps) ==> p in ps;
    }
  }

  lemma TextsAreLines(net: Net, ps: seq<Prefix>)
    requires Lawful(net) && forall p :: p in ps ==> ValidPrefix(p)
    ensures forall t :: t in Texts(net, ps) ==> OneLine(t)
  {
    forall i | 0 <= i < |ps| ensures OneLine(Texts(net, ps)[i]) {
      assert ps[i] in ps;
      PrefixTextOneLine(net, ps[i]);
    }
  }

  lemma TextsDetermine(net: Net, ps: seq<Prefix>, qs: seq<Prefix>)
    requires Lawful(net) && (forall p :: p in ps ==> ValidPrefix(p)) && (forall q :: q in qs ==> ValidPrefix(q))
    requires Texts(net, ps) == Texts(net, qs)
    ensures ps == qs
  {
    assert |ps| == |Texts(net, ps)| == |Texts(net, qs)| == |qs|;
    forall i | 0 <= i < |ps| ensures ps[i] == qs[i] {
      assert ps[i] in ps && qs[i] in qs;
      assert Texts(net, ps)[i] == Texts(net, qs)[i];
      PrefixTextDetermines(net, ps[i], qs[i]);
    }
  }

  ghost predicate Listed(ps: seq<Prefix>) {
    Sorted(ps, BY_ADDR) && forall p :: p in ps ==> ValidPrefix(p)
  }

  /** The text of a list of VIPs determines the list. */
  lemma DummyTextDetermines(net: Net, ps: seq<Prefix>, qs: seq<Prefix>)
    requires Lawful(net) && Listed(ps) && Listed(qs)
    requires DummyText(net, ps) == DummyText(net, qs)
    ensures ps == qs
  {
    FamilyOf(ps, true);
    FamilyOf(ps, false);
    FamilyOf(qs, true);
    FamilyOf(qs, false);
    TextsAreLines(net, Family(ps, true));
    TextsAreLines(net, Family(ps, false));
    TextsAreLines(net, Family(qs, true));
    TextsAreLines(net, Family(qs, false));
    PrintedDetermines(Texts(net, Family(ps, true)), Texts(net, Family(ps, false)),
                      Texts(net, Family(qs, true)), Texts(net, Family(qs, false)));
    TextsDetermine(net, Family(ps, true), Family(qs, true));
    TextsDetermine(net, Family(ps, false), Family(qs, false));
    SplitKeepsOrder(ps);
    SplitKeepsOrder(qs);
  }

  function TextsOf(addresses: seq<Address>): seq<string> {
    seq(|addresses|, i requires 0 <= i < |addresses| => addresses[i].text)
  }

  /** The addresses of a connection, IPv4 first. */
  function Listing(c: Connection): seq<string> {
    TextsOf(c.ipv4) + (if c.ipv6.Some? then TextsOf(c.ipv6.value) else [])
  }

  lemma TextsJoined(net: Net, ps: seq<Prefix>, qs: seq<Prefix>)
    ensures Texts(net, ps) + Texts(net, qs) == Texts(net, ps + qs)
  {
  }

  lemma TextsOfNumbered(vips: seq<string>)
    ensures TextsOf(Numbered(vips)) == vips
  {
  }

  /** Although it is printed in two sections, the connection lists the VIPs in
      their order. */
  lemma DummyTextReads(net: Net, ps: seq<Prefix>)
    requires Lawful(net) && Listed(ps)
    ensures Parse(DummyText(net, ps)).Some? && Listing(Parse(DummyText(net, ps)).value) == Texts(net, ps)
  {
    var a, b := Texts(net, Family(ps, true)), Texts(net, Family(ps, false));
    FamilyOf(ps, true);
    FamilyOf(ps, false);
    TextsAreLines(net, Family(ps, true));
    TextsAreLines(net, Family(ps, false));
    RoundTrip(a, b);
    TextsOfNumbered(a);
    TextsOfNumbered(b);
    TextsJoined(net, Family(ps, true), Family(ps, false));
    SplitKeepsOrder(ps);
  }

  lemma PublicListed(net: Net, v: VIPs)
    ensures Listed(PublicList(net, v)) && Elems(PublicList(net, v)) == VIPSet(net, v, PUBLIC, [])
    ensures Ascending(PublicList(net, v))
  {
    var s := VIPSet(net, v, PUBLIC, []);
    ArrangeArranges(s, BY_ADDR);
    ListsAreCanonical(net, v, v, PUBLIC, [], [], PublicList(net, v), PublicList(net, v));
    SinglesDetermined(net, v, PUBLIC, []);
    forall p | p in PublicList(net, v) ensures ValidPrefix(p) {
      assert p in Elems(PublicList(net, v));
    }
  }

  /** Two configurations get the same text exactly when they have the same set of
      public VIPs: the text misses no change, and no reordering changes it. */
  lemma DummyTextExactly(net: Net, v: VIPs, w: VIPs)
    requires Lawful(net)
    ensures DummyText(net, PublicList(net, v)) == DummyText(net, PublicList(net, w))
       <==> VIPSet(net, v, PUBLIC, []) == VIPSet(net, w, PUBLIC, [])
  {
    PublicListed(net, v);
    PublicListed(net, w);
    if DummyText(net, PublicList(net, v)) == DummyText(net, PublicList(net, w)) {
      DummyTextDetermines(net, PublicList(net, v), PublicList(net, w));
    }
  }
}
