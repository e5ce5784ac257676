/**
  The decisions of the reference-list dialog (`ve.ui.MWReferenceListDialog`):
  on setup, whether it edits the focused reference list or inserts a new one,
  and on teardown, which request it sends to the document: none, an attribute
  change on the focused node, or the insertion of a new, empty reference list.
 */
module ReferenceList {
  import opened Wrappers
  import opened DataModel

  /** The node type of a reference list. */
  const ListType: string := "mwReferenceList"

  /** Every list group is the reference group behind this prefix. */
  const ListGroupPrefix: string := "mwReference/"

  /** Message keys of the apply button's two labels. */
  const ApplyLabel: string := "visualeditor-dialog-action-apply"
  const InsertLabel: string := "visualeditor-dialog-referencelist-insert-button"

  /** The action the apply button closes the dialog with. */
  const ApplyAction: string := "apply"

  /** The focused node of the surface: its type, its attributes and the offset where it starts. */
  datatype Node = Node(nodeType: string, attributes: Attributes, outerStart: nat)

  /** `node instanceof ve.ce.MWReferenceListNode`. */
  predicate IsReferenceList(n: Node) {
    n.nodeType == ListType
  }

  /** `getAttribute( key )`. */
  function Attribute(n: Node, key: string): Option<string> {
    if key in n.attributes then Some(n.attributes[key]) else None
  }

  /** What `setup` leaves behind. */
  datatype DialogState = DialogState(
    inserting: bool,
    groupInput: string,     // the value put into the group text box
    applyLabel: string,     // message key of the apply button
    node: Option<Node>)     // the remembered focused node

  /** `setup`: decides between editing the focused reference list and inserting a new one. */
  function Setup(focused: Option<Node>): (st: DialogState)
    ensures st.inserting <==> !(focused.Some? && IsReferenceList(focused.value))
    ensures st.inserting ==> st.groupInput == ""
    ensures !st.inserting ==> st.groupInput == Attribute(focused.value, "refGroup").GetOr("")
    ensures st.applyLabel == (if st.inserting then InsertLabel else ApplyLabel)
    ensures st.node == focused
  {
    var editing := focused.Some? && IsReferenceList(focused.value);
    var refGroup := if editing then Attribute(focused.value, "refGroup").GetOr("") else "";
    var inserting := !editing;
    DialogState(inserting, refGroup, if !inserting then ApplyLabel else InsertLabel, focused)
  }

  /** The argument of `teardown`: possibly absent, possibly without an action. */
  datatype CloseData = CloseData(action: Option<string>)

  /**
    A request to the document's transaction machinery. An insertion names
    where the selection goes afterwards, on the assumption that the content
    lands verbatim at `offset`.
   */
  datatype Change =
    | NoChange
    | ChangeAttributes(offset: nat, changes: Attributes)
    | InsertContent(offset: nat, content: seq<DataElement>, selectAt: nat)

  /** The list group that belongs to a reference group. */
  function ListGroupOf(refGroup: string): (listGroup: string)
    ensures |listGroup| == |ListGroupPrefix| + |refGroup|
    ensures listGroup[..|ListGroupPrefix|] == ListGroupPrefix
    ensures listGroup[|ListGroupPrefix|..] == refGroup
  {
    ListGroupPrefix + refGroup
  }

  /** The two attributes a reference list carries. */
  function GroupAttributes(refGroup: string): Attributes {
    map["listGroup" := ListGroupOf(refGroup), "refGroup" := refGroup]
  }

  /** The content inserted for a new reference list: its opening and its closing element. */
  function NewList(refGroup: string): seq<DataElement> {
    [DataElement(ListType, Some(GroupAttributes(refGroup))), CloseElement(ListType)]
  }

  /** Whether `teardown` was asked to save. */
  predicate Applies(data: Option<CloseData>) {
    data.Some? && data.value.action == Some(ApplyAction)
  }

  /**
    `teardown` as written: `refGroup` is the group text box's current value and
    `selectionEnd` the end of the surface's selection. It edits whenever a node
    was focused at setup, whatever its type.
   */
  function Teardown(st: DialogState, data: Option<CloseData>, refGroup: string, selectionEnd: nat): (c: Change)
    ensures !Applies(data) ==> c == NoChange
    ensures Applies(data) && st.node.Some? ==>
      (c != NoChange <==> Attribute(st.node.value, "listGroup") != Some(ListGroupOf(refGroup)))
    ensures c.ChangeAttributes? ==>
      st.node.Some? && c.offset == st.node.value.outerStart && c.changes == GroupAttributes(refGroup)
    ensures Applies(data) && st.node.None? ==>
      c.InsertContent? && c.offset == selectionEnd && c.selectAt == selectionEnd + 2
    ensures c.InsertContent? ==> st.node.None? && c.content == NewList(refGroup)
    ensures c.InsertContent? ==> c.selectAt == c.offset + |c.content|
  {
    if !Applies(data) then NoChange
    else
      var listGroup := ListGroupOf(refGroup);
      match st.node
      case Some(n) =>
        if Attribute(n, "listGroup") != Some(listGroup) then ChangeAttributes(n.outerStart, GroupAttributes(refGroup))
        else NoChange
      case None =>
        var content := NewList(refGroup);
        InsertContent(selectionEnd, content, selectionEnd + |content|)
  }

  /** Every request that sets groups sets the list group to "mwReference/" followed by the reference group. */
  lemma ListGroupDerivation(st: DialogState, data: Option<CloseData>, refGroup: string, selectionEnd: nat)
    ensures var c := Teardown(st, data, refGroup, selectionEnd);
      && (c.ChangeAttributes? ==> c.changes["listGroup"] == ListGroupPrefix + refGroup && c.changes["refGroup"] == refGroup)
      && (c.InsertContent? ==> c.content[0].attributes == Some(map["listGroup" := ListGroupPrefix + refGroup, "refGroup" := refGroup]))
  {
  }

  /** A new reference list is inserted as exactly one balanced pair: its opening element with both groups, then its closing element. */
  lemma InsertIsBalancedPair(st: DialogState, data: Option<CloseData>, refGroup: string, selectionEnd: nat)
    requires Applies(data) && st.node.None?
    ensures var c := Teardown(st, data, refGroup, selectionEnd);
      && c.InsertContent?
      && IsBalancedPair(c.content)
      && c.content[0].elementType == ListType
      && c.content[0].attributes.Some?
      && c.content[0].attributes.value.Keys == {"listGroup", "refGroup"}
  {
  }

  /** Editing an existing list whose group did not change sends nothing to the document. */
  lemma UnchangedGroupIsNoChange(focused: Node, data: Option<CloseData>, selectionEnd: nat)
    requires IsReferenceList(focused)
    requires Attribute(focused, "listGroup") == Some(ListGroupOf(Attribute(focused, "refGroup").GetOr("")))
    ensures var st := Setup(Some(focused));
      Teardown(st, data, st.groupInput, selectionEnd) == NoChange
  {
  }

  /**
    The teardown above reads the remembered node, which `Setup` stores for ANY
    focused node. With a focused node that is not a reference list, the dialog
    says it inserts, yet applying it changes the attributes of that other node.
   */
  lemma FocusedOtherNodeIsEdited()
    ensures var other := Node("mwImage", map[], 5);
      var st := Setup(Some(other));
      && st.inserting
      && st.applyLabel == InsertLabel
      && Teardown(st, Some(CloseData(Some(ApplyAction))), "", 0) == ChangeAttributes(5, GroupAttributes(""))
  {
  }

  /** `teardown` as evidently intended: edit only when editing a reference list, insert whenever the dialog said it inserts. */
  function TeardownIntended(st: DialogState, data: Option<CloseData>, refGroup: string, selectionEnd: nat): (c: Change)
    ensures !Applies(data) ==> c == NoChange
    ensures c.ChangeAttributes? ==>
      !st.inserting && st.node.Some? && c.offset == st.node.value.outerStart && c.changes == GroupAttributes(refGroup)
    ensures c.InsertContent? ==> c.content == NewList(refGroup) && c.offset == selectionEnd
    ensures c.InsertContent? ==> c.selectAt == c.offset + |c.content|
  {
    if !Applies(data) then NoChange
    else if !st.inserting && st.node.Some? then
      if Attribute(st.node.value, "listGroup") != Some(ListGroupOf(refGroup)) then
        ChangeAttributes(st.node.value.outerStart, GroupAttributes(refGroup))
      else NoChange
    else
      var content := NewList(refGroup);
      InsertContent(selectionEnd, content, selectionEnd + |content|)
  }

  /** With the intended teardown, a dialog set up for inserting always inserts, and one set up for editing never does. */
  lemma IntendedTeardownFollowsSetup(focused: Option<Node>, data: Option<CloseData>, refGroup: string, selectionEnd: nat)
    requires Applies(data)
    ensures var st := Setup(focused);
      var c := TeardownIntended(st, data, refGroup, selectionEnd);
      && (st.inserting ==> c.InsertContent? && IsBalancedPair(c.content))
      && (!st.inserting ==> !c.InsertContent? && (c.ChangeAttributes? ==> IsReferenceList(focused.value)))
  {
  }
}
