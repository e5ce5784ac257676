/**
  One element of the editor's linear document model: an opening element
  `{ type, attributes? }` (`type` is `elementType` here) or a closing element whose type is the opening
  type prefixed with "/".
 */
module DataModel {
  import opened Wrappers

  type Attributes = map<string, string>

  datatype DataElement = DataElement(elementType: string, attributes: Option<Attributes>)

  /** The closing element that ends an element of type `elementType`. */
  function CloseElement(elementType: string): DataElement {
    DataElement("/" + elementType, None)
  }

  /** An opening element (its type does not start with "/"). */
  predicate IsOpen(e: DataElement) {
    |e.elementType| > 0 && e.elementType[0] != '/'
  }

  /** An opening element immediately followed by the closing element of the same type. */
  predicate IsBalancedPair(els: seq<DataElement>) {
    |els| == 2 && IsOpen(els[0]) && els[1] == CloseElement(els[0].elementType)
  }
}
