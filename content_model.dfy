/**
 * The parts of the content repository's data model the modelled services
 * read: node types with their declared properties and super types, property
 * values as they come out of deserialisation, and nodes.
 */
module ContentModel {
  import opened Wrappers
  import opened OrderedMaps

  type NodeTypeName = string
  type PropertyName = string
  type NodeAggregateId = string
  type ContentRepositoryId = string
  type AssetId = string

  /** A dimension space point: coordinates per dimension axis. */
  type DimensionSpacePoint = map<string, string>

  /**
   * The declared type of a property, reduced to what the index service asks
   * of it: whether the class implements `ResourceBasedInterface` or
   * `Stringable`, and the element type of a collection type such as
   * `array<Neos\Media\Domain\Model\Asset>` (absent for a non-collection type).
   */
  datatype PropertyType = PropertyType(
    resourceBased: bool,
    stringable: bool,
    elementType: Option<PropertyType>)

  /**
   * A deserialised property value. An object known to the persistence layer
   * carries the identifier the persistence manager reports for it.
   */
  datatype PropertyValue =
    | NullValue
    | StringValue(s: string)
    | ScalarValue
    | ObjectValue(identifier: AssetId)
    | ListValue(elements: seq<PropertyValue>)

  /**
   * A serialised property as stored on a node. `value` is the result of
   * deserialising it; `None` means that `PropertyCollection::offsetGet`
   * throws for this property.
   */
  datatype SerializedProperty = SerializedProperty(value: Option<PropertyValue>)

  /** A node type: its name, all (transitive) super types, and its declared property types. */
  datatype NodeType = NodeType(
    name: NodeTypeName,
    superTypes: set<NodeTypeName>,
    properties: map<PropertyName, PropertyType>)

  /** `NodeType::isOfType`: the type itself or one of its super types has the given name. */
  predicate IsOfType(t: NodeType, n: NodeTypeName)
  {
    t.name == n || n in t.superTypes
  }

  type WorkspaceName = string

  /** A node as read from a content graph. */
  datatype Node = Node(
    workspaceName: WorkspaceName,
    aggregateId: NodeAggregateId,
    dimensionSpacePoint: DimensionSpacePoint,
    nodeTypeName: NodeTypeName,
    properties: OrderedMap<PropertyName, SerializedProperty>)
}
