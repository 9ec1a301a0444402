/** The final text of a managed file: a header, a stamp that names the
    LoadBalancerConfig it was generated from, and the rendered text. */
module FinalConfig {
  import opened Prelude
  import opened Text
  import opened Files
  import Paths

  /** The metadata that identifies a LoadBalancerConfig. */
  datatype Identity = Identity(namespace: string, name: string, uid: string)

  const FILE_HEADER := "# Managed by bootc-loadbalancer-controller\n"
  const XML_FILE_HEADER :=
    "<?xml version=\"1.0\" encoding=\"utf-8\"?>\n\n" +
    "<!-- Managed by bootc-loadbalancer-controller -->\n"

  /** The text around the stamp's fields. */
  function StampStart(xml: bool): string {
    if xml then "<!-- Generated from LoadBalancerConfig " else "# Generated from LoadBalancerConfig "
  }

  function StampEnd(xml: bool): string {
    if xml then "-->\n\n" else "\n\n"
  }

  /** The fields of a stamp, its end, and what follows it. */
  function FieldsThen(id: Identity, generation: int, end: string, rest: string): string {
    id.namespace + ("/" + (id.name + (" " + ("(UID " + (id.uid + ("," + (" generation " +
    (Signed(generation) + (")" + (end + rest))))))))))
  }

  /** stampYAML and stampXML. */
  function Stamp(xml: bool, id: Identity, generation: int): string {
    StampStart(xml) + FieldsThen(id, generation, StampEnd(xml), "")
  }

  function Header(xml: bool): string {
    if xml then XML_FILE_HEADER else FILE_HEADER
  }

  /** RenderFinalConfig; the path's extension chooses the style. */
  function RenderFinalConfig(path: string, id: Identity, generation: int, configdata: string): string {
    var xml := Paths.Ext(path) == ".xml";
    Header(xml) + (Stamp(xml, id, generation) + configdata)
  }

  // ---------------------------------------------------------------------
  // Reading a final text back
  // ---------------------------------------------------------------------

  datatype Parsed = Parsed(id: Identity, generation: int, body: string)

  /** Everything after the words that start the stamp. */
  function ParseFields(s: string, end: string): Option<Parsed> {
    var namespace, s1 := Before(s, '/'), After(s, '/');
    var name, s2 := Before(s1, ' '), Strip("(UID ", After(s1, ' '));
    if s2.None? then None
    else
      var uid, s3 := Before(s2.value, ','), Strip(" generation ", After(s2.value, ','));
      if s3.None? then None
      else
        var generation, body := Before(s3.value, ')'), Strip(end, After(s3.value, ')'));
        if body.None? then None
        else Some(Parsed(Identity(namespace, name, uid), IntOf(generation), body.value))
  }

  function ParseFinal(s: string): Option<Parsed> {
    var plain, xml := Strip(Header(false) + StampStart(false), s), Strip(Header(true) + StampStart(true), s);
    if plain.Some? then ParseFields(plain.value, StampEnd(false))
    else if xml.Some? then ParseFields(xml.value, StampEnd(true))
    else None
  }

  /** The separators that follow a field do not occur in it. Names and namespaces
      of Kubernetes objects consist of lower-case letters, digits, '-' and '.'
      (section 2.1 of RFC 1123), and a UID has no comma. */
  predicate WellFormed(id: Identity) {
    '/' !in id.namespace && ' ' !in id.name && ',' !in id.uid
  }

  lemma FieldsThenRest(id: Identity, generation: int, end: string, rest: string)
    ensures FieldsThen(id, generation, end, "") + rest == FieldsThen(id, generation, end, rest)
  {
    var number := Signed(generation);
    var a := end + "";
    var b := number + (")" + a);
    var c := "," + (" generation " + b);
    var d := id.uid + c;
    var e := " " + ("(UID " + d);
    var f := id.name + e;
    Regroup(id.namespace, "/" + f, rest);
    Regroup("/", f, rest);
    Regroup(id.name, e, rest);
    Regroup(" ", "(UID " + d, rest);
    Regroup("(UID ", d, rest);
    Regroup(id.uid, c, rest);
    Regroup(",", " generation " + b, rest);
    Regroup(" generation ", b, rest);
    Regroup(number, ")" + a, rest);
    Regroup(")", a, rest);
    assert a == end;
  }

  lemma NumberHasNoBracket(generation: int)
    ensures ')' !in Signed(generation)
  {
    DecimalHasNo(if generation < 0 then -generation else generation, ')');
  }

  lemma FieldsRoundTrip(id: Identity, generation: int, end: string, body: string)
    requires WellFormed(id)
    ensures ParseFields(FieldsThen(id, generation, end, body), end) == Some(Parsed(id, generation, body))
  {
    var number := Signed(generation);
    var t4 := end + body;
    var t3 := number + ([')'] + t4);
    var t2 := id.uid + ([','] + (" generation " + t3));
    var t1 := id.name + ([' '] + ("(UID " + t2));
    CutAt(id.namespace, '/', t1);
    CutAt(id.name, ' ', "(UID " + t2);
    StripJoined("(UID ", t2);
    CutAt(id.uid, ',', " generation " + t3);
    StripJoined(" generation ", t3);
    NumberHasNoBracket(generation);
    CutAt(number, ')', t4);
    StripJoined(end, body);
    IntOfSigned(generation);
  }

  lemma PlainStamp(id: Identity, generation: int, body: string)
    ensures FieldsThen(id, generation, StampEnd(false), body) ==
            id.namespace + ("/" + (id.name + (" (UID " + (id.uid + (", generation " + (Signed(generation) + (")\n\n" + body)))))))
  {
    FieldsSpelled(id, generation, "\n\n", body);
    Regroup(")", "\n\n", body);
    assert ")" + "\n\n" == ")\n\n";
  }

  lemma XmlStamp(id: Identity, generation: int, body: string)
    ensures FieldsThen(id, generation, StampEnd(true), body) ==
            id.namespace + ("/" + (id.name + (" (UID " + (id.uid +
            (", generation " + (Signed(generation) + (")-->\n\n" + body)))))))
  {
    FieldsSpelled(id, generation, "-->\n\n", body);
    Regroup(")", "-->\n\n", body);
    assert ")" + "-->\n\n" == ")-->\n\n";
  }

  lemma FieldsSpelled(id: Identity, generation: int, end: string, body: string)
    ensures FieldsThen(id, generation, end, body) ==
            id.namespace + ("/" + (id.name + (" (UID " + (id.uid +
            (", generation " + (Signed(generation) + (")" + (end + body))))))))
  {
    var t3 := Signed(generation) + (")" + (end + body));
    var t2 := id.uid + (", generation " + t3);
    Regroup(",", " generation ", t3);
    assert "," + " generation " == ", generation ";
    Regroup(" ", "(UID ", t2);
    assert " " + "(UID " == " (UID ";
  }

  lemma HeadersSpelled()
    ensures Header(false) == "# Managed by bootc-loadbalancer-controller\n"
    ensures Header(true) ==
            "<?xml version=\"1.0\" encoding=\"utf-8\"?>\n\n" + "<!-- Managed by bootc-loadbalancer-controller -->\n"
    ensures StampStart(false) == "# Generated from LoadBalancerConfig "
    ensures StampStart(true) == "<!-- Generated from LoadBalancerConfig "
  {
  }

  /** A final text, spelled out. */
  function Spelled(xml: bool, id: Identity, generation: int, body: string): string {
    if xml then
      ("<?xml version=\"1.0\" encoding=\"utf-8\"?>\n\n" + "<!-- Managed by bootc-loadbalancer-controller -->\n") +
      ("<!-- Generated from LoadBalancerConfig " + (id.namespace + ("/" + (id.name + (" (UID " + (id.uid +
      (", generation " + (Signed(generation) + (")-->\n\n" + body)))))))))
    else
      "# Managed by bootc-loadbalancer-controller\n" +
      ("# Generated from LoadBalancerConfig " + (id.namespace + ("/" + (id.name + (" (UID " + (id.uid +
      (", generation " + (Signed(generation) + (")\n\n" + body)))))))))
  }

  lemma StampThenBody(xml: bool, id: Identity, generation: int, body: string)
    ensures Header(xml) + (Stamp(xml, id, generation) + body) == Spelled(xml, id, generation, body)
  {
    hide FieldsThen, Header, StampStart, StampEnd;
    var end := StampEnd(xml);
    HeadersSpelled();
    FieldsThenRest(id, generation, end, body);
    Regroup(StampStart(xml), FieldsThen(id, generation, end, ""), body);
    if xml { XmlStamp(id, generation, body); } else { PlainStamp(id, generation, body); }
  }

  /** The final text of a file under any root: the XML style for the two Firewalld
      files and the plain style for all others. */
  lemma FinalTextSpelled(root: string, f: ConfigFile, id: Identity, generation: int, body: string)
    ensures RenderFinalConfig(ConfigPath(root, f), id, generation, body)
            == Spelled(f == DirectRules || f == ExternalZone, id, generation, body)
  {
    hide ConfigPath, Paths.Ext, Stamp, Header, Spelled;
    XmlFiles(root, f);
    StampThenBody(Paths.Ext(ConfigPath(root, f)) == ".xml", id, generation, body);
  }

  /** The start of a final text tells the two header styles apart. */
  lemma FinalStart(xml: bool, rest: string)
    ensures Strip(Header(xml) + StampStart(xml), Header(xml) + (StampStart(xml) + rest)) == Some(rest)
    ensures xml ==> Strip(Header(false) + StampStart(false), Header(xml) + (StampStart(xml) + rest)) == None
  {
    Regroup(Header(xml), StampStart(xml), rest);
    StripJoined(Header(xml) + StampStart(xml), rest);
    if xml {
      assert (Header(xml) + (StampStart(xml) + rest))[0] == XML_FILE_HEADER[0] == '<';
      assert (Header(false) + StampStart(false))[0] == FILE_HEADER[0] == '#';
    }
  }

  /** Final-file round trip: the file names its LoadBalancerConfig and carries the
      rendered text, in both header styles. */
  lemma FinalRoundTrip(path: string, id: Identity, generation: int, body: string)
    requires WellFormed(id)
    ensures ParseFinal(RenderFinalConfig(path, id, generation, body)) == Some(Parsed(id, generation, body))
  {
    var xml := Paths.Ext(path) == ".xml";
    var fields := FieldsThen(id, generation, StampEnd(xml), "");
    var after := FieldsThen(id, generation, StampEnd(xml), body);
    FieldsThenRest(id, generation, StampEnd(xml), body);
    Regroup(StampStart(xml), fields, body);
    FinalStart(xml, after);
    FieldsRoundTrip(id, generation, StampEnd(xml), body);
  }
}
