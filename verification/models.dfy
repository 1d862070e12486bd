/**
 * The record decoders of nsapi/models.py: each `from_xml` turns an element (or
 * a `NodeParse` of it) into a record, reading fields in the order the source
 * lists them, so the first missing child or malformed number decides the
 * raised error.  Python floats are read as exact reals (`ParseFloat`).
 */
module Models {
  import opened Outcomes
  import opened Strings
  import opened Parser

  /** `node.attrib[key]`: KeyError when the attribute is absent. */
  function Attr(e: Element, key: string): (r: Result<string>)
    ensures r.Ok? <==> key in e.attrib
    ensures r.Ok? ==> r.value == e.attrib[key]
    ensures r.Err? ==> r.error == KeyError(key)
  {
    if key in e.attrib then Ok(e.attrib[key]) else Err(KeyError(key))
  }

  /** `node[i]`: IndexError when the node has too few children. */
  function Child(e: Element, i: nat): (r: Result<Element>)
    ensures r.Ok? <==> i < |e.children|
    ensures r.Ok? ==> r.value == e.children[i]
    ensures r.Err? ==> r.error == IndexError
  {
    if i < |e.children| then Ok(e.children[i]) else Err(IndexError)
  }

  // ---- Dossier ----

  datatype Dossier = Dossier(dossier: set<string>, rdossier: set<string>)

  /** The set of child texts, a child without text contributing "". */
  function ChildTexts(e: Element): (r: set<string>)
    ensures forall c :: c in e.children ==> Content(c) in r
    ensures forall x :: x in r ==> exists i :: 0 <= i < |e.children| && Content(e.children[i]) == x
  {
    set c | c in e.children :: Content(c)
  }

  /** `Dossier(dossier, rdossier)`. */
  function DossierFromXml(dossier: Element, rdossier: Element): (r: Dossier)
    ensures forall x :: x in r.dossier <==> exists i :: 0 <= i < |dossier.children| && Content(dossier.children[i]) == x
    ensures forall x :: x in r.rdossier <==> exists i :: 0 <= i < |rdossier.children| && Content(rdossier.children[i]) == x
  {
    Dossier(ChildTexts(dossier), ChildTexts(rdossier))
  }

  // ---- Happening ----

  datatype Happening = Happening(id: int, timestamp: Option<int>, text: string)

  /** `int(text) if text else default`: a falsy text gives the default. */
  function IntOr(text: string, default: int): (r: Result<int>)
    ensures text == "" ==> r == Ok(default)
    ensures text != "" ==> r == ParseInt(text)
  {
    if text != "" then ParseInt(text) else Ok(default)
  }

  /** `int(text) if text else None`. */
  function OptionalInt(text: string): (r: Result<Option<int>>)
    ensures text == "" ==> r == Ok(None)
    ensures text != "" ==> (r.Ok? <==> ParseInt(text).Ok?)
    ensures text != "" && r.Ok? ==> r.value == Some(ParseInt(text).value)
  {
    if text == "" then Ok(None)
    else
      var v :- ParseInt(text);
      Ok(Some(v))
  }

  /** `Happening(node)`: the `id` attribute, then the timestamp of child 0, then the text of child 1. */
  function HappeningFromXml(node: Element): (r: Result<Happening>)
    ensures "id" !in node.attrib ==> r == Err(KeyError("id"))
    ensures r.Ok? ==> |node.children| >= 2 && ParseInt(node.attrib["id"]) == Ok(r.value.id)
    ensures r.Ok? ==> (r.value.timestamp.None? <==> Content(node.children[0]) == "")
    ensures r.Ok? && r.value.timestamp.Some? ==> ParseInt(Content(node.children[0])) == Ok(r.value.timestamp.value)
    ensures r.Ok? ==> r.value.text == Content(node.children[1])
    ensures ("id" in node.attrib && ParseInt(node.attrib["id"]).Ok? && |node.children| < 2
      && (|node.children| == 0 || Content(node.children[0]) == "")) ==> r == Err(IndexError)
  {
    var idText :- Attr(node, "id");
    var id :- ParseInt(idText);
    var first :- Child(node, 0);
    var timestamp :- OptionalInt(Content(first));
    var second :- Child(node, 1);
    Ok(Happening(id, timestamp, Content(second)))
  }

  // ---- Cards ----

  datatype CardIdentifier = CardIdentifier(id: int, rarity: string, season: string)

  /** `CardIdentifier.from_xml`: children 0, 1 and 2 by position, with 0, "" and "" for missing text. */
  function CardIdentifierFromXml(node: Element): (r: Result<CardIdentifier>)
    ensures r.Ok? ==> |node.children| >= 3
    ensures |node.children| < 1 ==> r == Err(IndexError)
    ensures r.Ok? ==> (Content(node.children[0]) == "" ==> r.value.id == 0)
    ensures r.Ok? && Content(node.children[0]) != "" ==> ParseInt(Content(node.children[0])) == Ok(r.value.id)
    ensures r.Ok? ==> r.value.rarity == Content(node.children[1]) && r.value.season == Content(node.children[2])
    ensures |node.children| >= 3 ==> (r.Ok? <==> IntOr(Content(node.children[0]), 0).Ok?)
  {
    var c0 :- Child(node, 0);
    var id :- IntOr(Content(c0), 0);
    var c1 :- Child(node, 1);
    var c2 :- Child(node, 2);
    Ok(CardIdentifier(id, Content(c1), Content(c2)))
  }

  datatype CardInfo = CardInfo(
    id: int, rarity: string, season: string,
    flag: string, government: string, marketValue: real, name: string, region: string,
    slogan: string, classification: string)

  /** `CardInfo.identifier()`: the id, rarity and season of the card. */
  function Identifier(info: CardInfo): (r: CardIdentifier)
    ensures r.id == info.id && r.rarity == info.rarity && r.season == info.season
  {
    CardIdentifier(info.id, info.rarity, info.season)
  }

  /** `CardInfo.from_xml` as written: MARKET_VALUE is read with `int()`, so a
      decimal market value such as "0.05" raises ValueError. */
  function CardInfoFromXmlAsWritten(node: Element): (r: Result<CardInfo>) {
    var data := Parse(node);
    var idText :- Simple(data, "CARDID");
    var id :- ParseInt(idText);
    var rarity :- Simple(data, "CATEGORY");
    var season :- Simple(data, "SEASON");
    var flag :- Simple(data, "FLAG");
    var government :- Simple(data, "GOVT");
    var valueText :- Simple(data, "MARKET_VALUE");
    var value :- ParseInt(valueText);
    var name :- Simple(data, "NAME");
    var region :- Simple(data, "REGION");
    var slogan :- Simple(data, "SLOGAN");
    var classification :- Simple(data, "TYPE");
    Ok(CardInfo(id, rarity, season, flag, government, value as real, name, region, slogan, classification))
  }

  /** `CardInfo.from_xml` with the market value read as the float it is declared to be. */
  function CardInfoFromXml(node: Element): (r: Result<CardInfo>)
    ensures r.Ok? ==> (Simple(Parse(node), "MARKET_VALUE").Ok? &&
      ParseFloat(Simple(Parse(node), "MARKET_VALUE").value) == Ok(r.value.marketValue))
    ensures CardFieldsPresent(node) ==> (r.Ok? <==> ParseFloat(Simple(Parse(node), "MARKET_VALUE").value).Ok?)
  {
    var data := Parse(node);
    var idText :- Simple(data, "CARDID");
    var id :- ParseInt(idText);
    var rarity :- Simple(data, "CATEGORY");
    var season :- Simple(data, "SEASON");
    var flag :- Simple(data, "FLAG");
    var government :- Simple(data, "GOVT");
    var valueText :- Simple(data, "MARKET_VALUE");
    var value :- ParseFloat(valueText);
    var name :- Simple(data, "NAME");
    var region :- Simple(data, "REGION");
    var slogan :- Simple(data, "SLOGAN");
    var classification :- Simple(data, "TYPE");
    Ok(CardInfo(id, rarity, season, flag, government, value, name, region, slogan, classification))
  }

  /** The CARD node carries every field `CardInfo.from_xml` reads, and its id is an integer. */
  predicate CardFieldsPresent(node: Element) {
    var p := Parse(node);
    Simple(p, "CARDID").Ok? && ParseInt(Simple(p, "CARDID").value).Ok? &&
    Simple(p, "CATEGORY").Ok? && Simple(p, "SEASON").Ok? && Simple(p, "FLAG").Ok? &&
    Simple(p, "GOVT").Ok? && Simple(p, "MARKET_VALUE").Ok? && Simple(p, "NAME").Ok? &&
    Simple(p, "REGION").Ok? && Simple(p, "SLOGAN").Ok? && Simple(p, "TYPE").Ok?
  }

  /** `int("0.05")` raises ValueError. */
  lemma DecimalRejectedByInt()
    ensures ParseInt("0.05") == Err(ValueError("0.05"))
  {
    StripUnchanged("0.05");
    assert !IsDigit("0.05"[1]);
  }

  /** "0.05" splits at its point into "0" and "05". */
  lemma SplitDecimal()
    ensures SplitOnce("0.05", ".") == ["0", "05"]
  {
    var s := "0.05";
    assert s[0..1] == "0" && s[1..2] == ".";
    assert IndexOf(s, ".") == Some(1);
    assert s[..1] == "0" && s[2..] == "05";
  }

  /** The literal "0.05" denotes 0.05. */
  lemma DecimalValueExample()
    ensures UnsignedDecimal("0.05") == Some(0.05)
  {
    SplitDecimal();
    assert AllDigits("0") && AllDigits("05");
    assert DigitsValue("0") == 0 by { assert "0"[..0] == ""; }
    assert FractionValue("05") == 0.05 by { assert "05"[1..] == "5" && "5"[1..] == ""; }
    assert DecimalValue("0", "05") == 0.05;
  }

  /** `float("0.05")` is 0.05. */
  lemma DecimalReadByFloat()
    ensures ParseFloat("0.05") == Ok(0.05)
  {
    var t := "0.05";
    assert t[0] == '0' && t[|t| - 1] == '5';
    UnsignedFloat(t);
    DecimalValueExample();
  }

  /** On any CARD node with every field present, a market value of "0.05" makes
      the as-written decoder raise ValueError, while the corrected decoder reads
      the card with market value 0.05. */
  lemma MarketValueCounterexample(node: Element)
    requires CardFieldsPresent(node)
    requires Simple(Parse(node), "MARKET_VALUE") == Ok("0.05")
    ensures CardInfoFromXmlAsWritten(node) == Err(ValueError("0.05"))
    ensures CardInfoFromXml(node).Ok? && CardInfoFromXml(node).value.marketValue == 0.05
  {
    DecimalRejectedByInt();
    DecimalReadByFloat();
  }

  /** On a node with every field present, both decoders succeed or fail with the
      market value alone, and agree wherever that value is an integer. */
  lemma MarketValueIntegers(node: Element)
    requires CardFieldsPresent(node)
    requires ParseInt(Simple(Parse(node), "MARKET_VALUE").value).Ok?
    ensures CardInfoFromXmlAsWritten(node).Ok?
    ensures CardInfoFromXml(node) == CardInfoFromXmlAsWritten(node)
  {
    ParseIntAgreesWithFloat(Simple(Parse(node), "MARKET_VALUE").value);
  }

  datatype CardStandard = CardStandard(
    id: int, name: string, rarity: string, classification: string, motto: string,
    region: string, government: string, flag: string, description: string,
    badges: seq<string>, trophies: map<string, int>)

  /** `child.get("type", default="")`. */
  function TypeOr(c: Element): string {
    if "type" in c.attrib then c.attrib["type"] else ""
  }

  /** A dict comprehension `{key(c): value(c) for c in cs}`: for each child in
      document order the key is computed, then the value, and a later entry
      overwrites an earlier one with the same key. */
  function DictOf<K(==), V>(cs: seq<Element>, key: Element -> Result<K>, value: Element -> Result<V>): Result<map<K, V>>
    decreases |cs|
  {
    if cs == [] then Ok(map[])
    else
      var m :- DictOf(cs[..|cs| - 1], key, value);
      var k :- key(cs[|cs| - 1]);
      var v :- value(cs[|cs| - 1]);
      Ok(m[k := v])
  }

  /** The comprehension succeeds exactly when every key and every value can be computed. */
  lemma {:induction false} DictOfOk<K, V>(cs: seq<Element>, key: Element -> Result<K>, value: Element -> Result<V>)
    ensures DictOf(cs, key, value).Ok? <==> forall i :: 0 <= i < |cs| ==> key(cs[i]).Ok? && value(cs[i]).Ok?
    decreases |cs|
  {
    if cs != [] {
      var init := cs[..|cs| - 1];
      DictOfOk(init, key, value);
      assert forall i :: 0 <= i < |init| ==> init[i] == cs[i];
    }
  }

  /** The keys of the result are exactly the keys of the children. */
  lemma {:induction false} DictOfKeys<K, V>(cs: seq<Element>, key: Element -> Result<K>, value: Element -> Result<V>)
    requires DictOf(cs, key, value).Ok?
    ensures forall k :: k in DictOf(cs, key, value).value <==> exists i :: 0 <= i < |cs| && key(cs[i]) == Ok(k)
    decreases |cs|
  {
    if cs != [] {
      var init := cs[..|cs| - 1];
      DictOfKeys(init, key, value);
      assert forall i :: 0 <= i < |init| ==> init[i] == cs[i];
    }
  }

  /** A key holds the value of the LAST child with that key. */
  lemma {:induction false} DictOfLast<K, V>(cs: seq<Element>, key: Element -> Result<K>, value: Element -> Result<V>, i: nat)
    requires DictOf(cs, key, value).Ok? && i < |cs|
    requires forall j :: i < j < |cs| ==> key(cs[j]) != key(cs[i])
    ensures key(cs[i]).Ok? && value(cs[i]).Ok?
    ensures key(cs[i]).value in DictOf(cs, key, value).value
    ensures DictOf(cs, key, value).value[key(cs[i]).value] == value(cs[i]).value
    decreases |cs|
  {
    var init := cs[..|cs| - 1];
    if i < |cs| - 1 {
      assert init[i] == cs[i];
      assert forall j :: i < j < |init| ==> init[j] == cs[j];
      DictOfLast(init, key, value, i);
      assert key(cs[|cs| - 1]) != key(cs[i]);
    }
  }


  /** The trophy comprehension: each child's `type` (default "") to the int of its text. */
  function Trophies(cs: seq<Element>): Result<map<string, int>> {
    DictOf(cs, (c: Element) => Ok(TypeOr(c)), (c: Element) => ParseInt(Content(c)))
  }

  /** Trophies decode exactly when every trophy text is an integer. */
  lemma TrophiesOk(cs: seq<Element>)
    ensures Trophies(cs).Ok? <==> forall i :: 0 <= i < |cs| ==> ParseInt(Content(cs[i])).Ok?
  {
    DictOfOk(cs, (c: Element) => Ok(TypeOr(c)), (c: Element) => ParseInt(Content(c)));
  }

  /** The keys of the trophies are the trophy types. */
  lemma TrophiesKeys(cs: seq<Element>)
    requires Trophies(cs).Ok?
    ensures forall k :: k in Trophies(cs).value <==> exists i :: 0 <= i < |cs| && TypeOr(cs[i]) == k
  {
    DictOfKeys(cs, (c: Element) => Ok(TypeOr(c)), (c: Element) => ParseInt(Content(c)));
  }

  /** Each trophy type holds the value of the last trophy of that type. */
  lemma TrophiesLast(cs: seq<Element>, i: nat)
    requires Trophies(cs).Ok? && i < |cs|
    requires forall j :: i < j < |cs| ==> TypeOr(cs[j]) != TypeOr(cs[i])
    ensures TypeOr(cs[i]) in Trophies(cs).value && Ok(Trophies(cs).value[TypeOr(cs[i])]) == ParseInt(Content(cs[i]))
  {
    TrophiesOk(cs);
    DictOfLast(cs, (c: Element) => Ok(TypeOr(c)), (c: Element) => ParseInt(Content(c)), i);
  }

  /** `sequence(node, content)`: the texts of the children in order; `content` never raises. */
  function Texts(cs: seq<Element>): (r: seq<string>)
    ensures |r| == |cs| && forall i :: 0 <= i < |cs| ==> r[i] == Content(cs[i])
  {
    seq(|cs|, i requires 0 <= i < |cs| => Content(cs[i]))
  }

  /** `CardStandard.from_xml` on a CARD element of the card dump. */
  function CardStandardFromXml(node: Element): (r: Result<CardStandard>)
    ensures r.Ok? ==> First(Parse(node), "BADGES").Ok? && First(Parse(node), "TROPHIES").Ok?
    ensures r.Ok? ==> r.value.badges == Texts(First(Parse(node), "BADGES").value.children)
    ensures r.Ok? ==> Trophies(First(Parse(node), "TROPHIES").value.children) == Ok(r.value.trophies)
  {
    var data := Parse(node);
    var idText :- Simple(data, "ID");
    var id :- ParseInt(idText);
    var name :- Simple(data, "NAME");
    var rarity :- Simple(data, "CARDCATEGORY");
    var classification :- Simple(data, "TYPE");
    var motto :- Simple(data, "MOTTO");
    var region :- Simple(data, "REGION");
    var government :- Simple(data, "CATEGORY");
    var flag :- Simple(data, "FLAG");
    var description :- Simple(data, "DESCRIPTION");
    var badgeNode :- First(data, "BADGES");
    var badges := Texts(badgeNode.children);
    var trophyNode :- First(data, "TROPHIES");
    var trophies :- Trophies(trophyNode.children);
    Ok(CardStandard(id, name, rarity, classification, motto, region, government, flag, description, badges, trophies))
  }

  // ---- Issues ----

  datatype Issue = Issue(
    id: int, title: string, text: string, author: string, editors: seq<string>,
    pic1: string, pic2: string, options: map<int, string>)

  /** `s.split(sep) if s else []`. */
  function SplitNonEmpty(s: string, sep: string): (r: seq<string>)
    requires sep != []
    ensures s == "" ==> r == []
    ensures s != "" ==> |r| >= 1 && Join(r, sep) == s
  {
    if s == "" then [] else
      JoinSplit(s, sep);
      Split(s, sep)
  }

  /** `x.simple(tag) if x.has_name(tag) else ""`. */
  function SimpleOr(p: NodeParse, tag: string): (r: Result<string>)
    ensures !HasName(p, tag) ==> r == Ok("")
    ensures HasName(p, tag) ==> r == Simple(p, tag)
  {
    if HasName(p, tag) then Simple(p, tag) else Ok("")
  }

  /** The integer `id` attribute of an OPTION element. */
  function OptionId(c: Element): Result<int> {
    var idText :- Attr(c, "id");
    ParseInt(idText)
  }

  /** The option comprehension: each OPTION's integer `id` to its text. */
  function Options(cs: seq<Element>): Result<map<int, string>> {
    DictOf(cs, OptionId, (c: Element) => Ok(Content(c)))
  }

  /** Options decode exactly when every option has an integer id. */
  lemma OptionsOk(cs: seq<Element>)
    ensures Options(cs).Ok? <==> forall i :: 0 <= i < |cs| ==> OptionId(cs[i]).Ok?
  {
    DictOfOk(cs, OptionId, (c: Element) => Ok(Content(c)));
  }

  /** The keys of the options are their ids. */
  lemma OptionsKeys(cs: seq<Element>)
    requires Options(cs).Ok?
    ensures forall k :: k in Options(cs).value <==> exists i :: 0 <= i < |cs| && OptionId(cs[i]) == Ok(k)
  {
    DictOfKeys(cs, OptionId, (c: Element) => Ok(Content(c)));
  }

  /** Each id holds the text of the last option with that id. */
  lemma OptionsLast(cs: seq<Element>, i: nat)
    requires Options(cs).Ok? && i < |cs|
    requires forall j :: i < j < |cs| ==> OptionId(cs[j]) != OptionId(cs[i])
    ensures OptionId(cs[i]).Ok? && OptionId(cs[i]).value in Options(cs).value
    ensures Options(cs).value[OptionId(cs[i]).value] == Content(cs[i])
  {
    DictOfLast(cs, OptionId, (c: Element) => Ok(Content(c)), i);
  }

  /** `Issue.from_xml` on an ISSUE element. */
  function IssueFromXml(node: Element): (r: Result<Issue>)
    ensures "id" !in node.attrib ==> r == Err(KeyError("id"))
    ensures r.Ok? ==> ParseInt(node.attrib["id"]) == Ok(r.value.id)
    ensures r.Ok? ==> Simple(Parse(node), "EDITOR").Ok?
    ensures r.Ok? ==> var editor := Simple(Parse(node), "EDITOR").value;
      (editor == "" ==> r.value.editors == []) && (editor != "" ==> r.value.editors == Split(editor, ", "))
    ensures r.Ok? ==> (!HasName(Parse(node), "PIC1") ==> r.value.pic1 == "") && (!HasName(Parse(node), "PIC2") ==> r.value.pic2 == "")
    ensures r.Ok? ==> HasName(Parse(node), "OPTION") && Options(WithTag(node.children, "OPTION")) == Ok(r.value.options)
  {
    var idText :- Attr(node, "id");
    var id :- ParseInt(idText);
    var parse := Parse(node);
    var title :- Simple(parse, "TITLE");
    var text :- Simple(parse, "TEXT");
    var author :- Simple(parse, "AUTHOR");
    var editor :- Simple(parse, "EDITOR");
    var pic1 :- SimpleOr(parse, "PIC1");
    var pic2 :- SimpleOr(parse, "PIC2");
    var optionNodes :- FromName(parse, "OPTION");
    FromNameSpec(node, "OPTION");
    var options :- Options(optionNodes);
    Ok(Issue(id, title, text, author, SplitNonEmpty(editor, ", "), pic1, pic2, options))
  }

  // ---- Nations ----

  datatype Freedoms<T> = Freedoms(civilRights: T, economy: T, politicalFreedom: T)

  /** `Freedoms.from_xml(node, converter)` with `str` as the converter. */
  function FreedomTexts(node: Element): (r: Result<Freedoms<string>>)
    ensures r.Ok? <==> HasName(Parse(node), "CIVILRIGHTS") && HasName(Parse(node), "ECONOMY") && HasName(Parse(node), "POLITICALFREEDOM")
    ensures r.Ok? ==> (Simple(Parse(node), "CIVILRIGHTS").Ok? && Simple(Parse(node), "ECONOMY").Ok? &&
      Simple(Parse(node), "POLITICALFREEDOM").Ok? &&
      r.value == Freedoms(Simple(Parse(node), "CIVILRIGHTS").value,
        Simple(Parse(node), "ECONOMY").value, Simple(Parse(node), "POLITICALFREEDOM").value))
  {
    var data := Parse(node);
    FirstSpec(node, "CIVILRIGHTS");
    FirstSpec(node, "ECONOMY");
    FirstSpec(node, "POLITICALFREEDOM");
    var civil :- Simple(data, "CIVILRIGHTS");
    var economy :- Simple(data, "ECONOMY");
    var political :- Simple(data, "POLITICALFREEDOM");
    Ok(Freedoms(civil, economy, political))
  }

  /** `Freedoms.from_xml(node, converter)` with `int` as the converter. */
  function FreedomScores(node: Element): (r: Result<Freedoms<int>>)
    ensures r.Ok? <==> (FreedomTexts(node).Ok? && ParseInt(FreedomTexts(node).value.civilRights).Ok?
      && ParseInt(FreedomTexts(node).value.economy).Ok? && ParseInt(FreedomTexts(node).value.politicalFreedom).Ok?)
    ensures r.Ok? ==> var t := FreedomTexts(node).value;
      r.value == Freedoms(ParseInt(t.civilRights).value, ParseInt(t.economy).value, ParseInt(t.politicalFreedom).value)
  {
    var data := Parse(node);
    var civilText :- Simple(data, "CIVILRIGHTS");
    var civil :- ParseInt(civilText);
    var economyText :- Simple(data, "ECONOMY");
    var economy :- ParseInt(economyText);
    var politicalText :- Simple(data, "POLITICALFREEDOM");
    var political :- ParseInt(politicalText);
    Ok(Freedoms(civil, economy, political))
  }

  datatype DeathCause = DeathCause(cause: string, percentage: real)

  /** `DeathCause.from_xml`: the `type` attribute and the float of the text. */
  function DeathCauseFromXml(node: Element): (r: Result<DeathCause>)
    ensures r.Ok? <==> "type" in node.attrib && ParseFloat(Content(node)).Ok?
    ensures r.Ok? ==> r.value == DeathCause(node.attrib["type"], ParseFloat(Content(node)).value)
    ensures "type" !in node.attrib ==> r == Err(KeyError("type"))
  {
    var cause :- Attr(node, "type");
    var percentage :- ParseFloat(Content(node));
    Ok(DeathCause(cause, percentage))
  }

  /** The government comprehension: each child's tag to the float of its text. */
  function Government(cs: seq<Element>): Result<map<string, real>> {
    DictOf(cs, (c: Element) => Ok(c.tag), (c: Element) => ParseFloat(Content(c)))
  }

  /** The government map holds exactly the child tags. */
  lemma GovernmentKeys(cs: seq<Element>)
    requires Government(cs).Ok?
    ensures forall k :: k in Government(cs).value <==> exists i :: 0 <= i < |cs| && cs[i].tag == k
  {
    DictOfKeys(cs, (c: Element) => Ok(c.tag), (c: Element) => ParseFloat(Content(c)));
  }

  datatype NationStandard = NationStandard(
    name: string, classification: string, fullName: string, motto: string,
    governmentCategory: string, WAStatus: string, endorsements: seq<string>,
    issuesAnswered: int, freedom: Freedoms<string>, region: string, population: int,
    tax: real, animal: string, currency: string, demonym: string, demonym2: string,
    demonym2Plural: string, flag: string, majorIndustry: string, governmentPriority: string,
    government: map<string, real>, founded: string, firstLogin: int, lastLogin: int,
    influence: string, freedomScores: Freedoms<int>, publicSector: real,
    deaths: seq<DeathCause>, leader: string, capital: string, religion: string,
    factbooks: int, dispatches: int, dbid: int)

  function SimpleInt(p: NodeParse, tag: string): Result<int> {
    var text :- Simple(p, tag);
    ParseInt(text)
  }

  function SimpleFloat(p: NodeParse, tag: string): Result<real> {
    var text :- Simple(p, tag);
    ParseFloat(text)
  }

  /** The first twelve children `NationStandard.from_xml` reads, NAME to TAX, in order. */
  function NationOpening(data: NodeParse): (r: Result<(string, string, string, string, string, string, string, int, Freedoms<string>, string, int, real)>)
    ensures r.Ok? ==> Simple(data, "ENDORSEMENTS") == Ok(r.value.6)
  {
    var name :- Simple(data, "NAME");
    var classification :- Simple(data, "TYPE");
    var fullName :- Simple(data, "FULLNAME");
    var motto :- Simple(data, "MOTTO");
    var category :- Simple(data, "CATEGORY");
    var waStatus :- Simple(data, "UNSTATUS");
    var endorsementText :- Simple(data, "ENDORSEMENTS");
    var issuesAnswered :- SimpleInt(data, "ISSUES_ANSWERED");
    var freedomNode :- First(data, "FREEDOM");
    var freedom :- FreedomTexts(freedomNode);
    var region :- Simple(data, "REGION");
    var population :- SimpleInt(data, "POPULATION");
    var tax :- SimpleFloat(data, "TAX");
    Ok((name, classification, fullName, motto, category, waStatus, endorsementText,
      issuesAnswered, freedom, region, population, tax))
  }

  /** The next twelve, ANIMAL to LASTLOGIN. */
  function NationMiddle(data: NodeParse): (r: Result<(string, string, string, string, string, string, string, string, map<string, real>, string, int, int)>)
    ensures r.Ok? ==> First(data, "GOVT").Ok? && Government(First(data, "GOVT").value.children) == Ok(r.value.8)
  {
    var animal :- Simple(data, "ANIMAL");
    var currency :- Simple(data, "CURRENCY");
    var demonym :- Simple(data, "DEMONYM");
    var demonym2 :- Simple(data, "DEMONYM2");
    var demonym2Plural :- Simple(data, "DEMONYM2PLURAL");
    var flag :- Simple(data, "FLAG");
    var majorIndustry :- Simple(data, "MAJORINDUSTRY");
    var priority :- Simple(data, "GOVTPRIORITY");
    var govtNode :- First(data, "GOVT");
    var government :- Government(govtNode.children);
    var founded :- Simple(data, "FOUNDED");
    var firstLogin :- SimpleInt(data, "FIRSTLOGIN");
    var lastLogin :- SimpleInt(data, "LASTLOGIN");
    Ok((animal, currency, demonym, demonym2, demonym2Plural, flag, majorIndustry, priority,
      government, founded, firstLogin, lastLogin))
  }

  /** The last ten, INFLUENCE to DBID. */
  function NationClosing(data: NodeParse): (r: Result<(string, Freedoms<int>, real, seq<DeathCause>, string, string, string, int, int, int)>)
    ensures r.Ok? ==> First(data, "DEATHS").Ok? && Sequence(First(data, "DEATHS").value.children, DeathCauseFromXml) == Ok(r.value.3)
  {
    var influence :- Simple(data, "INFLUENCE");
    var scoresNode :- First(data, "FREEDOMSCORES");
    var scores :- FreedomScores(scoresNode);
    var publicSector :- SimpleFloat(data, "PUBLICSECTOR");
    var deathsNode :- First(data, "DEATHS");
    var deaths :- Sequence(deathsNode.children, DeathCauseFromXml);
    var leader :- Simple(data, "LEADER");
    var capital :- Simple(data, "CAPITAL");
    var religion :- Simple(data, "RELIGION");
    var factbooks :- SimpleInt(data, "FACTBOOKS");
    var dispatches :- SimpleInt(data, "DISPATCHES");
    var dbid :- SimpleInt(data, "DBID");
    Ok((influence, scores, publicSector, deaths, leader, capital, religion, factbooks, dispatches, dbid))
  }

  /** `NationStandard.from_xml` on a NATION element: the children are read
      in the order of the constructor's arguments, so the first one missing
      or malformed is the error. */
  function NationStandardFromXml(node: Element): (r: Result<NationStandard>)
    ensures r.Ok? ==> (Simple(Parse(node), "ENDORSEMENTS").Ok? &&
      r.value.endorsements == SplitNonEmpty(Simple(Parse(node), "ENDORSEMENTS").value, ","))
    ensures r.Ok? ==> (First(Parse(node), "DEATHS").Ok? &&
      Sequence(First(Parse(node), "DEATHS").value.children, DeathCauseFromXml) == Ok(r.value.deaths))
    ensures r.Ok? ==> (First(Parse(node), "GOVT").Ok? &&
      Government(First(Parse(node), "GOVT").value.children) == Ok(r.value.government))
  {
    var data := Parse(node);
    var a :- NationOpening(data);
    var b :- NationMiddle(data);
    var c :- NationClosing(data);
    Ok(NationStandard(a.0, a.1, a.2, a.3, a.4, a.5, SplitNonEmpty(a.6, ","), a.7, a.8, a.9, a.10, a.11,
      b.0, b.1, b.2, b.3, b.4, b.5, b.6, b.7, b.8, b.9, b.10, b.11,
      c.0, c.1, c.2, c.3, c.4, c.5, c.6, c.7, c.8, c.9))
  }

  /** A NATION element without a NAME child raises KeyError for NAME first. */
  lemma NationStandardWithoutName(node: Element)
    requires !HasName(Parse(node), "NAME")
    ensures NationStandardFromXml(node) == Err(KeyError("NAME"))
  {
    FirstSpec(node, "NAME");
  }

  // ---- Regions ----

  datatype Officer = Officer(nation: string, office: string, authority: string, time: int, appointedBy: string, order: string)

  /** `shards[tag]` on a `label_children` map: KeyError when no child has the tag. */
  function Label(m: map<string, Element>, tag: string): (r: Result<Element>)
    ensures r.Ok? <==> tag in m
    ensures r.Ok? ==> r.value == m[tag]
    ensures r.Err? ==> r.error == KeyError(tag)
  {
    if tag in m then Ok(m[tag]) else Err(KeyError(tag))
  }

  function LabelText(m: map<string, Element>, tag: string): Result<string> {
    var e :- Label(m, tag);
    Ok(Content(e))
  }

  /** The text of the LAST child of `cs` with the tag. */
  function LastText(cs: seq<Element>, tag: string): string
    requires WithTag(cs, tag) != []
  {
    Content(WithTag(cs, tag)[|WithTag(cs, tag)| - 1])
  }

  /** `Officer.from_xml` on an OFFICER element: each field is the text of the
      LAST child with its tag (TIME read as an integer); a missing NATION child
      raises KeyError("NATION"). */
  function OfficerFromXml(node: Element): (r: Result<Officer>)
    ensures r.Ok? ==>
      var cs := node.children;
      WithTag(cs, "NATION") != [] && r.value.nation == LastText(cs, "NATION") &&
      WithTag(cs, "OFFICE") != [] && r.value.office == LastText(cs, "OFFICE") &&
      WithTag(cs, "AUTHORITY") != [] && r.value.authority == LastText(cs, "AUTHORITY") &&
      WithTag(cs, "TIME") != [] && ParseInt(LastText(cs, "TIME")) == Ok(r.value.time) &&
      WithTag(cs, "BY") != [] && r.value.appointedBy == LastText(cs, "BY") &&
      WithTag(cs, "ORDER") != [] && r.value.order == LastText(cs, "ORDER")
    ensures WithTag(node.children, "NATION") == [] ==> r == Err(KeyError("NATION"))
  {
    var cs := node.children;
    LabelTextLast(cs, "NATION");
    LabelTextLast(cs, "OFFICE");
    LabelTextLast(cs, "AUTHORITY");
    LabelTextLast(cs, "TIME");
    LabelTextLast(cs, "BY");
    LabelTextLast(cs, "ORDER");
    var data := LabelChildren(cs);
    var nation :- LabelText(data, "NATION");
    var office :- LabelText(data, "OFFICE");
    var authority :- LabelText(data, "AUTHORITY");
    var timeText :- LabelText(data, "TIME");
    var time :- ParseInt(timeText);
    var appointedBy :- LabelText(data, "BY");
    var order :- LabelText(data, "ORDER");
    Ok(Officer(nation, office, authority, time, appointedBy, order))
  }

  /** Reading a tag from `label_children` gives the text of the last child with it. */
  lemma LabelTextLast(cs: seq<Element>, tag: string)
    ensures LabelText(LabelChildren(cs), tag).Ok? <==> WithTag(cs, tag) != []
    ensures LabelText(LabelChildren(cs), tag).Ok? ==> LabelText(LabelChildren(cs), tag).value == LastText(cs, tag)
    ensures LabelText(LabelChildren(cs), tag).Err? ==> LabelText(LabelChildren(cs), tag).error == KeyError(tag)
  {
    LabelChildrenLast(cs);
    GroupByTagIsWithTag(cs);
    NoEmptyGroup(cs);
    if WithTag(cs, tag) != [] {
      DistinctTagsMembers(cs);
      WithTagFirst(cs, tag);
    }
  }

  datatype Embassy = Embassy(region: string, status: string)

  /** `Embassy.from_xml`: the text, and the `type` attribute or "open". */
  function EmbassyFromXml(node: Element): (r: Embassy)
    ensures r.region == Content(node)
    ensures "type" in node.attrib ==> r.status == node.attrib["type"]
    ensures "type" !in node.attrib ==> r.status == "open"
  {
    (Embassy(Content(node), if "type" in node.attrib then node.attrib["type"] else "open"))
  }

  /** `sequence(node, Embassy.from_xml)`; an embassy always decodes. */
  function Embassies(cs: seq<Element>): (r: seq<Embassy>)
    ensures |r| == |cs| && forall i :: 0 <= i < |cs| ==> r[i] == EmbassyFromXml(cs[i])
  {
    seq(|cs|, i requires 0 <= i < |cs| => EmbassyFromXml(cs[i]))
  }

  datatype RegionStandard = RegionStandard(
    name: string, factbook: string, numnations: int, nations: seq<string>,
    delegate: string, delegateVotes: int, delegateAuth: string,
    founder: string, founderAuth: string, officers: seq<Officer>,
    power: string, flag: string, embassies: seq<Embassy>, lastUpdate: int)

  /** `RegionStandard.from_xml` on a REGION element. */
  function RegionStandardFromXml(node: Element): (r: Result<RegionStandard>)
    ensures r.Ok? ==> ("NATIONS" in LabelChildren(node.children) &&
      r.value.nations == Split(Content(LabelChildren(node.children)["NATIONS"]), ":"))
    ensures r.Ok? ==> |r.value.nations| >= 1
    ensures r.Ok? ==> ("OFFICERS" in LabelChildren(node.children) &&
      Sequence(LabelChildren(node.children)["OFFICERS"].children, OfficerFromXml) == Ok(r.value.officers))
    ensures r.Ok? ==> ("EMBASSIES" in LabelChildren(node.children) &&
      r.value.embassies == Embassies(LabelChildren(node.children)["EMBASSIES"].children))
  {
    var shards := LabelChildren(node.children);
    var name :- LabelText(shards, "NAME");
    var factbook :- LabelText(shards, "FACTBOOK");
    var numText :- LabelText(shards, "NUMNATIONS");
    var numnations :- ParseInt(numText);
    var nationText :- LabelText(shards, "NATIONS");
    var delegate :- LabelText(shards, "DELEGATE");
    var votesText :- LabelText(shards, "DELEGATEVOTES");
    var votes :- ParseInt(votesText);
    var delegateAuth :- LabelText(shards, "DELEGATEAUTH");
    var founder :- LabelText(shards, "FOUNDER");
    var founderAuth :- LabelText(shards, "FOUNDERAUTH");
    var officerNode :- Label(shards, "OFFICERS");
    var officers :- Sequence(officerNode.children, OfficerFromXml);
    var power :- LabelText(shards, "POWER");
    var flag :- LabelText(shards, "FLAG");
    var embassyNode :- Label(shards, "EMBASSIES");
    var embassies := Embassies(embassyNode.children);
    var updateText :- LabelText(shards, "LASTUPDATE");
    var lastUpdate :- ParseInt(updateText);
    Ok(RegionStandard(name, factbook, numnations, Split(nationText, ":"), delegate, votes,
      delegateAuth, founder, founderAuth, officers, power, flag, embassies, lastUpdate))
  }

  /** Endorsements are guarded against empty text, nations are not: an empty
      NATIONS text gives [""] where an empty ENDORSEMENTS text gives []. */
  lemma EmptyListTexts()
    ensures SplitNonEmpty("", ",") == []
    ensures Split("", ":") == [""]
  {
  }
}
