/**
  The data-model table cell node (`ve.dm.TableCellNode`): its static rules and
  the two converters between DOM `td`/`th` elements and linear-model elements
  carrying a `style` attribute of "data" or "header".
 */
module TableCell {
  import opened Wrappers
  import opened Text
  import opened DataModel

  /** The node type name the cell registers under. */
  const Name: string := "tableCell"

  /** The DOM tag names the node claims. */
  const MatchTagNames: seq<string> := ["td", "th"]

  /** Attributes a new cell gets when none are given. */
  const DefaultAttributes: Attributes := map["style" := "data"]

  /** The structural rules a node type declares to the node factory. */
  datatype NodeRules = NodeRules(
    isWrapped: bool,
    isContent: bool,
    canContainContent: bool,
    hasSignificantWhitespace: bool,
    childNodeTypes: Option<seq<string>>,   // None: any child type
    parentNodeTypes: Option<seq<string>>)  // None: any parent type

  const Rules: NodeRules := NodeRules(
    isWrapped := true,
    isContent := false,
    canContainContent := false,
    hasSignificantWhitespace := false,
    childNodeTypes := None,
    parentNodeTypes := Some(["tableRow"]))

  /** Whether the rules admit a node of this type under a parent of type `parentType`. */
  function AllowsParent(parentType: string): (ok: bool)
    ensures ok <==> parentType == "tableRow"
  {
    match Rules.parentNodeTypes
    case None => true
    case Some(types) => parentType in types
  }

  /** Whether the rules admit a child of type `childType`. */
  function AllowsChild(childType: string): (ok: bool)
    ensures ok
  {
    match Rules.childNodeTypes
    case None => true
    case Some(types) => childType in types
  }

  /** A table cell is a wrapped branch node: never content itself, never holding content directly. */
  lemma CellIsStructural()
    ensures Rules.isWrapped && !Rules.isContent && !Rules.canContainContent
    ensures !Rules.hasSignificantWhitespace
  {
  }

  /** A DOM element, as far as the converters look at it. */
  datatype DomElement = DomElement(nodeName: string)

  /** `document.createElement( tag )` in an HTML document: the element's nodeName is the tag in upper case. */
  function CreateElement(tag: string): DomElement {
    DomElement(UpperAscii(tag))
  }

  /** `dataElement.attributes && dataElement.attributes.style`: the style, when there is one. */
  function StyleOf(e: DataElement): Option<string> {
    if e.attributes.Some? && "style" in e.attributes.value then Some(e.attributes.value["style"]) else None
  }

  /** `toDataElement`: a `th` element (in any letter case) becomes a header cell, any other a data cell. */
  function ToDataElement(dom: DomElement): (e: DataElement)
    ensures e.elementType == Name
    ensures e.attributes.Some? && e.attributes.value.Keys == {"style"}
    ensures StyleOf(e) == Some("header") <==> LowerAscii(dom.nodeName) == "th"
    ensures StyleOf(e) == Some("data") <==> LowerAscii(dom.nodeName) != "th"
  {
    var style := if LowerAscii(dom.nodeName) == "th" then "header" else "data";
    DataElement(Name, Some(map["style" := style]))
  }

  /** `toDomElement`: a header cell becomes `th`; everything else, attributes missing included, becomes `td`. */
  function ToDomElement(e: DataElement): (dom: DomElement)
    ensures dom == CreateElement("th") || dom == CreateElement("td")
    ensures dom == CreateElement("th") <==> StyleOf(e) == Some("header")
  {
    var tag := if StyleOf(e) == Some("header") then "th" else "td";
    assert CreateElement("th").nodeName[1] != CreateElement("td").nodeName[1];
    CreateElement(tag)
  }

  /** The tag-name test of `toDataElement` accepts exactly the four spellings of "th". */
  lemma {:induction false} ThInAnyCase(name: string)
    ensures LowerAscii(name) == "th" <==> name in {"th", "tH", "Th", "TH"}
  {
    if LowerAscii(name) == "th" {
      assert |name| == 2;
      assert LowerAsciiChar(name[0]) == 't' && LowerAsciiChar(name[1]) == 'h';
      assert name[0] == 't' || name[0] == 'T';
      assert name[1] == 'h' || name[1] == 'H';
      assert name == [name[0], name[1]];
    }
  }

  /** Data to DOM and back keeps the style of a header or data cell. */
  lemma StyleRoundTrip(e: DataElement)
    requires StyleOf(e) == Some("header") || StyleOf(e) == Some("data")
    ensures StyleOf(ToDataElement(ToDomElement(e))) == StyleOf(e)
    ensures ToDataElement(ToDomElement(e)).elementType == Name
  {
    LowerUpperAscii("th");
    LowerUpperAscii("td");
  }

  /** DOM to data and back keeps the tag (compared without regard to case, as the DOM does) of a `td` or `th` element. */
  lemma TagRoundTrip(dom: DomElement)
    requires LowerAscii(dom.nodeName) in MatchTagNames
    ensures LowerAscii(ToDomElement(ToDataElement(dom)).nodeName) == LowerAscii(dom.nodeName)
  {
    LowerUpperAscii("th");
    LowerUpperAscii("td");
  }

  /** A cell with the default attributes, or with no attributes at all, is rendered as `td`. */
  lemma DefaultIsDataCell()
    ensures ToDomElement(DataElement(Name, Some(DefaultAttributes))) == CreateElement("td")
    ensures ToDomElement(DataElement(Name, None)) == CreateElement("td")
  {
  }
}
