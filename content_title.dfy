/**
 * `ContentTitleNodeCreationHandler`: a command enricher that copies the
 * title entered in the creation dialog into the initial property values of
 * a new content node.
 */
module ContentTitle {
  import opened Wrappers
  import opened OrderedMaps
  import opened ContentModel

  const ContentNodeTypeName: NodeTypeName := "Neos.Neos:Content"
  const TitleKey := "title"

  /** A value the creation dialog sends; `Null` is a present key holding null. */
  datatype DialogValue = Null | Text(s: string) | Other(value: string)

  /** The part of `CreateNodeAggregateWithNode` the handler reads and writes. */
  datatype CreateNodeAggregateWithNode = CreateNodeAggregateWithNode(
    nodeAggregateId: NodeAggregateId,
    nodeTypeName: NodeTypeName,
    initialPropertyValues: OrderedMap<PropertyName, DialogValue>)

  /** `isset($data['title'])`: the key is present and not null. */
  predicate HasTitle(data: OrderedMap<string, DialogValue>)
  {
    Get(data, TitleKey).Some? && !Get(data, TitleKey).value.Null?
  }

  /**
   * `handle`. The node type is looked up first; a missing one is the
   * `NodeTypeNotFoundException`. A node type that is not a content type
   * leaves the command as it is; otherwise the dialog's title, when set,
   * becomes the `title` initial property value and every other value stays.
   */
  function Handle(nodeTypes: map<NodeTypeName, NodeType>, command: CreateNodeAggregateWithNode,
                  data: OrderedMap<string, DialogValue>): (r: Result<CreateNodeAggregateWithNode, NodeTypeName>)
    ensures command.nodeTypeName !in nodeTypes <==> r == Failure(command.nodeTypeName)
    ensures r.Success? && !IsOfType(nodeTypes[command.nodeTypeName], ContentNodeTypeName) ==> r.value == command
    ensures r.Success? ==>
      r.value.nodeAggregateId == command.nodeAggregateId && r.value.nodeTypeName == command.nodeTypeName
    ensures r.Success? && IsOfType(nodeTypes[command.nodeTypeName], ContentNodeTypeName) && HasTitle(data) ==>
      Get(r.value.initialPropertyValues, TitleKey) == Get(data, TitleKey)
    ensures r.Success? ==> forall k :: k != TitleKey ==>
      Get(r.value.initialPropertyValues, k) == Get(command.initialPropertyValues, k)
    ensures r.Success? && !HasTitle(data) ==> r.value.initialPropertyValues == command.initialPropertyValues
  {
    if command.nodeTypeName !in nodeTypes then Failure(command.nodeTypeName)
    else if !IsOfType(nodeTypes[command.nodeTypeName], ContentNodeTypeName) then Success(command)
    else
      var values := command.initialPropertyValues;
      var values' := if HasTitle(data) then Assign(values, TitleKey, Get(data, TitleKey).value) else values;
      Success(command.(initialPropertyValues := values'))
  }
}
