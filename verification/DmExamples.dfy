/** The export worked out on literal names: accepted or not, split, normalised, typed and printed. */
module DmExamples {
  import opened Wrappers
  import opened DmNames
  import opened DmTree
  import opened DmBuild
  import opened DmXml
  import opened DmNaming

  const RADIO := "Device.WiFi.Radio.1.Enable"

  lemma TypeWords()
    ensures |TYPE_STR| == 13 && CCSP_ARRAY == 11 && CCSP_OBJECT == 12
    ensures TYPE_STR[0] == "string" && TYPE_STR[1] == "int" && TYPE_STR[2] == "unsignedInt" && TYPE_STR[3] == "boolean"
    ensures TYPE_STR[4] == "dateTime" && TYPE_STR[5] == "base64" && TYPE_STR[6] == "long"
    ensures TYPE_STR[7] == "unsignedLong" && TYPE_STR[8] == "float" && TYPE_STR[9] == "double" && TYPE_STR[10] == "byte"
    ensures TYPE_STR[11] == "true" && TYPE_STR[12] == "false"
  {
  }

  /** `Device.X` and even `DeviceX` are accepted, `X.Device` is not. */
  lemma AcceptedExamples(dataType: nat)
    ensures Accepted(Some(NameSpace("Device.X", dataType))) && Accepted(Some(NameSpace("DeviceX", dataType)))
    ensures !Accepted(Some(NameSpace("X.Device", dataType)))
  {
    AcceptedIff(Some(NameSpace("Device.X", dataType)));
    AcceptedIff(Some(NameSpace("DeviceX", dataType)));
    AcceptedIff(Some(NameSpace("X.Device", dataType)));
    assert "X.Device"[0] != "Device"[0];
  }

  lemma FiveTokens(a: string, b: string, c: string, d: string, e: string)
    requires IsToken(a) && IsToken(b) && IsToken(c) && IsToken(d) && IsToken(e)
    ensures Tokens(a + "." + (b + "." + (c + "." + (d + "." + e)))) == [a, b, c, d, e]
  {
    TokensAtDot(a, b + "." + (c + "." + (d + "." + e)));
    TokensAtDot(b, c + "." + (d + "." + e));
    TokensAtDot(c, d + "." + e);
    TokensAtDot(d, e);
    TokensWithoutDot(a);
    TokensWithoutDot(b);
    TokensWithoutDot(c);
    TokensWithoutDot(d);
    TokensWithoutDot(e);
  }

  lemma RadioJoined(name: string)
    requires name == RADIO
    ensures name == "Device" + "." + ("WiFi" + "." + ("Radio" + "." + ("1" + "." + "Enable")))
  {
  }

  lemma RadioTokens(name: string, a: string, b: string, c: string, d: string, e: string)
    requires name == RADIO && a == "Device" && b == "WiFi" && c == "Radio" && d == "1" && e == "Enable"
    ensures Tokens(name) == [a, b, c, d, e]
  {
    RadioJoined(name);
    FiveTokens(a, b, c, d, e);
  }

  lemma RadioWords(a: string, b: string, c: string, d: string, e: string)
    requires a == "Device" && b == "WiFi" && c == "Radio" && d == "1" && e == "Enable"
    ensures Ordinary(a) && Ordinary(b) && Ordinary(c) && Instance(d) && Ordinary(e)
  {
    OneToEight(a[0]);
    OneToEight(b[0]);
    OneToEight(c[0]);
    OneToEight(d[0]);
    OneToEight(e[0]);
  }

  lemma FiveWithInstance(ns: NameSpace, a: string, b: string, c: string, d: string, e: string)
    requires Tokens(ns.name) == [a, b, c, d, e]
    requires Ordinary(a) && Ordinary(b) && Ordinary(c) && Instance(d) && Ordinary(e)
    ensures PathOf(ns) == [Entry(a, 12), Entry(b, 12), Entry(c, 11), Entry(e, ns.dataType)]
  {
    assert [a, b, c, d, e] == [a, b] + [c, d] + [e];
    MarkDropsInstance([a, b], c, d, [e], ns.dataType);
    assert [a, b] + [c] + [e] == [a, b, c, e];
  }

  lemma RadioName(ns: NameSpace) returns (a: string, b: string, c: string, d: string, e: string)
    requires ns.name == RADIO
    ensures a == "Device" && b == "WiFi" && c == "Radio" && e == "Enable" && Tokens(ns.name) == [a, b, c, d, e]
    ensures Ordinary(a) && Ordinary(b) && Ordinary(c) && Instance(d) && Ordinary(e)
  {
    a, b, c, d, e := "Device", "WiFi", "Radio", "1", "Enable";
    RadioTokens(ns.name, a, b, c, d, e);
    RadioWords(a, b, c, d, e);
  }

  /** The instance number is dropped and makes its table an array. */
  lemma RadioPath(ns: NameSpace)
    requires ns.name == RADIO && ns.dataType == 3
    ensures PathOf(ns) == [Entry("Device", 12), Entry("WiFi", 12), Entry("Radio", 11), Entry("Enable", 3)]
  {
    var a, b, c, d, e := RadioName(ns);
    FiveWithInstance(ns, a, b, c, d, e);
  }

  /** A leading `0` or `9` makes no instance. */
  lemma ZeroAndNineStay(ty: nat)
    ensures Mark(["Device", "A", "0", "9", "B"], ty) ==
            [Entry("Device", 12), Entry("A", 12), Entry("0", 12), Entry("9", 12), Entry("B", ty)]
  {
    var ts := ["Device", "A", "0", "9", "B"];
    OneToEight('D');
    OneToEight('A');
    OneToEight('0');
    OneToEight('9');
    OneToEight('B');
    MarkKeepsOrdinary(ts, ty);
  }

  function RadioTree(): Tree {
    Node("Device", 12, [Node("WiFi", 12, [Node("Radio", 11, [Node("Enable", 3, [])])])])
  }

  lemma RadioBuild(w: seq<Entry>)
    requires w == [Entry("Device", 12), Entry("WiFi", 12), Entry("Radio", 11), Entry("Enable", 3)]
    ensures AddNode(Root(), w) == RadioTree()
  {
    var w1 := w[1..];
    var w2 := w1[1..];
    assert Branch(w2[1..]) == Node("Enable", 3, []);
    assert Branch(w2) == Node("Radio", 11, [Branch(w2[1..])]);
    assert Branch(w1) == Node("WiFi", 12, [Branch(w2)]);
    assert "WiFi" != "Device" by { assert |"WiFi"| != |"Device"|; }
    assert AddNode(Root(), w1) == Root().(kids := Root().kids + [Branch(w1)]);
  }

  lemma PrintOne(t: Tree)
    requires Typed(t) && |t.kids| == 1
    ensures Typed(t.kids[0]) && Print(t) == [Open(t.name, TYPE_STR[t.ty])] + Print(t.kids[0]) + [Close]
  {
    assert t.kids[..0] == [];
    assert PrintKids(t.kids) == Print(t.kids[0]) + PrintKids(t.kids[..0]);
  }

  lemma RadioPrint(t: Tree)
    requires t == RadioTree()
    ensures Typed(t)
    ensures Print(t) ==
            [Open("Device", "false"), Open("WiFi", "false"), Open("Radio", "true"), Leaf("Enable", "boolean"),
             Close, Close, Close]
  {
    PrintOne(t);
    PrintOne(t.kids[0]);
    PrintOne(t.kids[0].kids[0]);
  }

  lemma OnePath(names: seq<Option<NameSpace>>)
    requires |names| == 1 && Accepted(names[0])
    ensures Build(Root(), PathsOf(names)) == AddNode(Root(), PathOf(names[0].value))
  {
    var w := PathOf(names[0].value);
    assert names[..0] == [] && PathsOf(names) == [] + [w];
    BuildSnoc(Root(), [], w);
  }

  /** The whole export of a single boolean parameter below a table. */
  lemma RadioExport(names: seq<Option<NameSpace>>)
    requires names == [Some(NameSpace(RADIO, 3))]
    ensures KnownTypes(names)
    ensures Exported(names) ==
            [Open("Device", "false"), Open("WiFi", "false"), Open("Radio", "true"), Leaf("Enable", "boolean"),
             Close, Close, Close]
  {
    var ns := names[0].value;
    AcceptedIff(names[0]);
    assert ns.name[..6] == "Device";
    RadioPath(ns);
    OnePath(names);
    RadioBuild(PathOf(ns));
    RadioPrint(RadioTree());
  }
}
