/**
 * `ConfigLoader` (Project/src/ConfigLoader.java): the server settings read
 * from an XML file. The XML parser is outside the model: a parsed document
 * is given as its elements in document order, each with its tag name and
 * its text content, and a file that cannot be read or parsed as `None`.
 */
module Config {
  import opened JavaLang

  /** An element of the document: its tag name and `getTextContent()`. */
  datatype Element = Element(tag: string, text: string)

  /** All elements of a parsed document, in document order. */
  type Document = seq<Element>

  const DefaultPort: string := "80"
  const DefaultRoot: string := "."
  const DefaultAccessLog: string := "src/logs/access.log"
  const DefaultErrorLog: string := "src/logs/error.log"

  /** `doc.getElementsByTagName(tag)`, as the text of each element. */
  function Texts(doc: Document, tag: string): (r: seq<string>)
    ensures |r| <= |doc|
    ensures forall t :: t in r <==> exists i :: 0 <= i < |doc| && doc[i].tag == tag && doc[i].text == t
  {
    if doc == [] then []
    else
      var rest := Texts(doc[1..], tag);
      assert forall i :: 0 < i < |doc| ==> doc[i] == doc[1..][i - 1];
      if doc[0].tag == tag then [doc[0].text] + rest else rest
  }

  /** `getTagValue`: the text of the first element with that tag, or the
      default when there is none. */
  function TagValue(doc: Document, tag: string, default: string): string {
    var texts := Texts(doc, tag);
    if |texts| > 0 then texts[0] else default
  }

  /** The value is the text of the first element carrying the tag, and the
      default exactly when no element carries it. */
  lemma {:induction false} TagValueFirst(doc: Document, tag: string, default: string, i: nat)
    requires i < |doc| && doc[i].tag == tag
    requires forall j :: 0 <= j < i ==> doc[j].tag != tag
    ensures TagValue(doc, tag, default) == doc[i].text
  {
    if i > 0 {
      TagValueFirst(doc[1..], tag, default, i - 1);
    }
  }

  lemma {:induction false} TagValueDefault(doc: Document, tag: string, default: string)
    requires forall j :: 0 <= j < |doc| ==> doc[j].tag != tag
    ensures TagValue(doc, tag, default) == default
  {
    if doc != [] {
      TagValueDefault(doc[1..], tag, default);
    }
  }

  /** The four settings `loadConfig` stores, defaults included. */
  function Settings(doc: Document): (m: map<string, string>)
    ensures m.Keys == {"port", "root", "accesslog", "errorlog"}
  {
    map["port" := TagValue(doc, "port", DefaultPort),
        "root" := TagValue(doc, "root", DefaultRoot),
        "accesslog" := TagValue(doc, "accesslog", DefaultAccessLog),
        "errorlog" := TagValue(doc, "errorlog", DefaultErrorLog)]
  }

  /** Storing the four values one by one is the same as merging `Settings`. */
  lemma StoreSettings(m: map<string, string>, doc: Document)
    ensures m["port" := TagValue(doc, "port", DefaultPort)]["root" := TagValue(doc, "root", DefaultRoot)]
             ["accesslog" := TagValue(doc, "accesslog", DefaultAccessLog)]
             ["errorlog" := TagValue(doc, "errorlog", DefaultErrorLog)] == m + Settings(doc)
  {
  }

  /** What a freshly built loader holds after one load. */
  lemma FreshSettings(doc: Document)
    ensures map[] + Settings(doc) == Settings(doc)
    ensures "root" in Settings(doc) && Settings(doc)["root"] == TagValue(doc, "root", DefaultRoot)
    ensures "port" in Settings(doc) && Settings(doc)["port"] == TagValue(doc, "port", DefaultPort)
  {
  }

  /** The addresses listed in one element. */
  function TokenSet(text: string): set<string> {
    set t | t in Tokens(text)
  }

  /** The addresses listed in a sequence of element texts. */
  function AddressesOf(texts: seq<string>): set<string> {
    if texts == [] then {}
    else AddressesOf(texts[..|texts| - 1]) + TokenSet(texts[|texts| - 1])
  }

  lemma AddressesOfSpec(texts: seq<string>, ip: string)
    ensures ip in AddressesOf(texts) <==> exists k :: 0 <= k < |texts| && ip in TokenSet(texts[k])
  {
    if ip in AddressesOf(texts) {
      var k := ListedBy(texts, ip);
    }
    if exists k :: 0 <= k < |texts| && ip in TokenSet(texts[k]) {
      var k :| 0 <= k < |texts| && ip in TokenSet(texts[k]);
      ListedIn(texts, k, ip);
    }
  }

  lemma {:induction false} ListedIn(texts: seq<string>, k: nat, ip: string)
    requires k < |texts| && ip in TokenSet(texts[k])
    ensures ip in AddressesOf(texts)
  {
    var init := texts[..|texts| - 1];
    if k < |init| {
      assert init[k] == texts[k];
      ListedIn(init, k, ip);
    }
  }

  lemma {:induction false} ListedBy(texts: seq<string>, ip: string) returns (k: nat)
    requires ip in AddressesOf(texts)
    ensures k < |texts| && ip in TokenSet(texts[k])
  {
    var init := texts[..|texts| - 1];
    if ip in TokenSet(texts[|texts| - 1]) {
      k := |texts| - 1;
    } else {
      k := ListedBy(init, ip);
      assert init[k] == texts[k];
    }
  }

  /** The addresses all elements with `tag` list. */
  function Addresses(doc: Document, tag: string): set<string> {
    AddressesOf(Texts(doc, tag))
  }

  /** An address is listed exactly when some element with the tag has it
      among the whitespace-separated tokens of its trimmed text. */
  lemma AddressesSpec(doc: Document, tag: string, ip: string)
    ensures ip in Addresses(doc, tag) <==>
      exists i :: 0 <= i < |doc| && doc[i].tag == tag && ip in Tokens(doc[i].text)
  {
    var texts := Texts(doc, tag);
    AddressesOfSpec(texts, ip);
    if ip in Addresses(doc, tag) {
      var k :| 0 <= k < |texts| && ip in TokenSet(texts[k]);
      assert texts[k] in texts;
    }
    if exists i :: 0 <= i < |doc| && doc[i].tag == tag && ip in Tokens(doc[i].text) {
      var i :| 0 <= i < |doc| && doc[i].tag == tag && ip in Tokens(doc[i].text);
      assert doc[i].text in texts;
      var k :| 0 <= k < |texts| && texts[k] == doc[i].text;
      assert ip in TokenSet(texts[k]);
    }
  }

  /** Every listed address is a non-empty run of non-space characters,
      except the empty string, which only an element with blank text adds. */
  lemma AddressShape(doc: Document, tag: string, ip: string)
    requires ip in Addresses(doc, tag)
    ensures ip == [] || NoSpace(ip)
    ensures ip == [] ==> exists i :: 0 <= i < |doc| && doc[i].tag == tag && Trim(doc[i].text) == []
  {
    AddressesSpec(doc, tag, ip);
    var i :| 0 <= i < |doc| && doc[i].tag == tag && ip in Tokens(doc[i].text);
    TokenShape(doc[i].text, ip);
  }

  lemma TokenShape(text: string, ip: string)
    requires ip in Tokens(text)
    ensures ip == [] || NoSpace(ip)
    ensures ip == [] ==> Trim(text) == []
  {
    var tokens := Tokens(text);
    var k :| 0 <= k < |tokens| && tokens[k] == ip;
    if Trim(text) != [] {
      WhitespaceSplit(Trim(text));
      assert tokens[k] != [] && NoSpace(tokens[k]);
    } else {
      assert tokens == [[]];
    }
  }

  /** The texts of the elements carrying `tag`, as a set. */
  function TextSet(doc: Document, tag: string): set<string> {
    set i | 0 <= i < |doc| && doc[i].tag == tag :: doc[i].text
  }

  /** The addresses do not depend on the order of the elements nor on how
      often a text is repeated: only on which texts carry the tag. */
  lemma AddressesOrderFree(d1: Document, d2: Document, tag: string)
    requires TextSet(d1, tag) == TextSet(d2, tag)
    ensures Addresses(d1, tag) == Addresses(d2, tag)
  {
    forall ip | ip in Addresses(d1, tag) ensures ip in Addresses(d2, tag) {
      Listed(d1, d2, tag, ip);
    }
    forall ip | ip in Addresses(d2, tag) ensures ip in Addresses(d1, tag) {
      Listed(d2, d1, tag, ip);
    }
  }

  lemma Listed(d1: Document, d2: Document, tag: string, ip: string)
    requires TextSet(d1, tag) == TextSet(d2, tag) && ip in Addresses(d1, tag)
    ensures ip in Addresses(d2, tag)
  {
    AddressesSpec(d1, tag, ip);
    AddressesSpec(d2, tag, ip);
    var i :| 0 <= i < |d1| && d1[i].tag == tag && ip in Tokens(d1[i].text);
    assert d1[i].text in TextSet(d1, tag);
    var j :| 0 <= j < |d2| && d2[j].tag == tag && d2[j].text == d1[i].text;
  }

  /** An element with blank text adds the empty string to the set. */
  lemma BlankAddsEmpty(doc: Document, tag: string, i: nat)
    requires i < |doc| && doc[i].tag == tag && Trim(doc[i].text) == []
    ensures [] in Addresses(doc, tag)
  {
    TokensSpec(doc[i].text);
    assert [] in Tokens(doc[i].text);
    AddressesSpec(doc, tag, []);
  }

  /** The addresses the first `j` rounds of the inner loop add. */
  function Added(ips: seq<string>, j: nat): set<string>
    requires j <= |ips|
  {
    if j == 0 then {} else Added(ips, j - 1) + {ips[j - 1]}
  }

  lemma {:induction false} AddedSpec(ips: seq<string>, j: nat)
    requires j <= |ips|
    ensures forall t :: t in Added(ips, j) <==> t in ips[..j]
  {
    if j > 0 {
      AddedSpec(ips, j - 1);
      assert ips[..j] == ips[..j - 1] + [ips[j - 1]];
    }
  }

  /** One more element adds the tokens of its text. */
  lemma AddElement(nodes: seq<string>, i: nat)
    requires i < |nodes|
    ensures AddressesOf(nodes[..i + 1]) == AddressesOf(nodes[..i]) + Added(Tokens(nodes[i]), |Tokens(nodes[i])|)
  {
    assert nodes[..i + 1][..i] == nodes[..i];
    var ips := Tokens(nodes[i]);
    AddedSpec(ips, |ips|);
    assert ips[..|ips|] == ips;
    assert Added(ips, |ips|) == TokenSet(nodes[i]);
  }

  /** The configuration of the server, filled by `loadConfig`. */
  class ConfigLoader {
    var config: map<string, string>
    var acceptIPs: set<string>
    var rejectIPs: set<string>

    /** Starts from empty settings and loads the document; `None` stands
        for a file the parser could not read. */
    constructor(doc: Option<Document>)
      ensures doc.Some? ==> config == Settings(doc.value)
      ensures doc.Some? ==> acceptIPs == Addresses(doc.value, "accept") && rejectIPs == Addresses(doc.value, "reject")
      ensures doc.None? ==> config == map[] && acceptIPs == {} && rejectIPs == {}
      ensures doc.None? ==> GetRootDirectory().None? && GetPort().None?
      ensures doc.Some? ==> GetRootDirectory() == Some(TagValue(doc.value, "root", DefaultRoot))
      ensures doc.Some? ==> GetPort() == ParseInt(TagValue(doc.value, "port", DefaultPort))
    {
      config := map[];
      acceptIPs := {};
      rejectIPs := {};
      new;
      LoadConfig(doc);
      if doc.Some? {
        FreshSettings(doc.value);
      }
    }

    /** `loadConfig`: stores the four settings, overwriting earlier values,
        and adds every listed address to the accepted and rejected sets.
        A document that failed to parse changes nothing (the exception is
        caught and only reported). */
    method LoadConfig(doc: Option<Document>)
      modifies this
      ensures doc.None? ==> config == old(config) && acceptIPs == old(acceptIPs) && rejectIPs == old(rejectIPs)
      ensures doc.Some? ==> config == old(config) + Settings(doc.value)
      ensures doc.Some? ==> acceptIPs == old(acceptIPs) + Addresses(doc.value, "accept")
      ensures doc.Some? ==> rejectIPs == old(rejectIPs) + Addresses(doc.value, "reject")
    {
      if doc.None? {
        return;
      }
      var d := doc.value;
      config := config["port" := TagValue(d, "port", DefaultPort)];
      config := config["root" := TagValue(d, "root", DefaultRoot)];
      config := config["accesslog" := TagValue(d, "accesslog", DefaultAccessLog)];
      config := config["errorlog" := TagValue(d, "errorlog", DefaultErrorLog)];
      StoreSettings(old(config), d);
      AddAccepted(Texts(d, "accept"));
      AddRejected(Texts(d, "reject"));
    }

    /** Lines 56-62 of `loadConfig`: every token of every `<accept>` text
        is added to the accepted addresses. */
    method AddAccepted(acceptNodes: seq<string>)
      modifies this
      ensures acceptIPs == old(acceptIPs) + AddressesOf(acceptNodes)
      ensures config == old(config) && rejectIPs == old(rejectIPs)
    {
      ghost var settings, others, initial := config, rejectIPs, acceptIPs;
      var i := 0;
      while i < |acceptNodes|
        invariant i <= |acceptNodes|
        invariant acceptIPs == initial + AddressesOf(acceptNodes[..i])
        invariant config == settings && rejectIPs == others
      {
        var ips := Tokens(acceptNodes[i]);
        AcceptEach(ips);
        AddElement(acceptNodes, i);
        i := i + 1;
      }
      assert acceptNodes[..i] == acceptNodes;
    }

    /** Lines 59-61 of `loadConfig`: adds each token of one element. */
    method AcceptEach(ips: seq<string>)
      modifies this
      ensures acceptIPs == old(acceptIPs) + Added(ips, |ips|)
      ensures config == old(config) && rejectIPs == old(rejectIPs)
    {
      var j := 0;
      while j < |ips|
        invariant j <= |ips|
        invariant acceptIPs == old(acceptIPs) + Added(ips, j)
        invariant config == old(config) && rejectIPs == old(rejectIPs)
      {
        acceptIPs := acceptIPs + {ips[j]};
        j := j + 1;
      }
    }

    /** Lines 65-71 of `loadConfig`: the same for `<reject>`. */
    method AddRejected(rejectNodes: seq<string>)
      modifies this
      ensures rejectIPs == old(rejectIPs) + AddressesOf(rejectNodes)
      ensures config == old(config) && acceptIPs == old(acceptIPs)
    {
      ghost var settings, others, initial := config, acceptIPs, rejectIPs;
      var i := 0;
      while i < |rejectNodes|
        invariant i <= |rejectNodes|
        invariant rejectIPs == initial + AddressesOf(rejectNodes[..i])
        invariant config == settings && acceptIPs == others
      {
        var ips := Tokens(rejectNodes[i]);
        RejectEach(ips);
        AddElement(rejectNodes, i);
        i := i + 1;
      }
      assert rejectNodes[..i] == rejectNodes;
    }

    /** Lines 68-70 of `loadConfig`: adds each token of one element. */
    method RejectEach(ips: seq<string>)
      modifies this
      ensures rejectIPs == old(rejectIPs) + Added(ips, |ips|)
      ensures config == old(config) && acceptIPs == old(acceptIPs)
    {
      var j := 0;
      while j < |ips|
        invariant j <= |ips|
        invariant rejectIPs == old(rejectIPs) + Added(ips, j)
        invariant config == old(config) && acceptIPs == old(acceptIPs)
      {
        rejectIPs := rejectIPs + {ips[j]};
        j := j + 1;
      }
    }

    /** `getPort`: `Integer.parseInt` of the stored port; `None` for the
        NumberFormatException, also thrown when no port is stored. */
    function GetPort(): Option<int32>
      reads this
    {
      if "port" in config then ParseInt(config["port"]) else None
    }

    /** `getRootDirectory`; `None` stands for `null`. */
    function GetRootDirectory(): Option<string>
      reads this
    {
      if "root" in config then Some(config["root"]) else None
    }

    function GetAccessLog(): Option<string>
      reads this
    {
      if "accesslog" in config then Some(config["accesslog"]) else None
    }

    function GetErrorLog(): Option<string>
      reads this
    {
      if "errorlog" in config then Some(config["errorlog"]) else None
    }

    function GetAccept(): set<string>
      reads this
    {
      acceptIPs
    }

    function GetReject(): set<string>
      reads this
    {
      rejectIPs
    }
  }

  /** The default port text parses as 80. */
  lemma DefaultPortIs80()
    ensures ParseInt(DefaultPort) == Some(80)
  {
    assert Digits(8) == "8";
    assert Digits(80) == Digits(8) + [DigitChar(0)] == DefaultPort;
    ParseDecimal(80);
  }

  /** A document without a `port` element gives port 80. */
  lemma PortDefault(doc: Document)
    requires forall j :: 0 <= j < |doc| ==> doc[j].tag != "port"
    ensures ParseInt(Settings(doc)["port"]) == Some(80)
  {
    TagValueDefault(doc, "port", DefaultPort);
    DefaultPortIs80();
  }

  /** A first `port` element holding a printed `int` gives back that
      number. */
  lemma PortPrinted(doc: Document, n: int32)
    requires TagValue(doc, "port", DefaultPort) == Decimal(n)
    ensures ParseInt(Settings(doc)["port"]) == Some(n)
  {
    ParseDecimal(n);
  }

  /** The port text is not trimmed: a space in front of the number makes
      `getPort` throw. */
  lemma PortNotTrimmed(doc: Document, n: int32)
    requires TagValue(doc, "port", DefaultPort) == " " + Decimal(n)
    ensures ParseInt(Settings(doc)["port"]).None?
  {
  }
}
