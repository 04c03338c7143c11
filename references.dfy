/**
 * `References`: the immutable, 0-indexed collection of reference edges a
 * content subgraph returns. Several references may carry the same name when
 * a property of type `references` holds more than one target.
 */
module ContentGraphReferences {
  import opened Wrappers
  import opened ContentModel

  type ReferenceName = string

  /** A reference edge: its name, the node at its other end, and the properties set on the edge. */
  datatype Reference = Reference(name: ReferenceName, node: Node, properties: map<PropertyName, string>)

  datatype References = References(references: seq<Reference>)

  /** The `BadMethodCallException` every attempt to modify the collection raises. */
  datatype ImmutableObject = ImmutableObject(code: int)

  const ImmutableObjectCode := 1658408830

  /** `fromArray`: the references of the list, in its order, duplicate names kept. */
  function FromArray(xs: seq<Reference>): (r: References)
    ensures Count(r) == |xs|
    ensures forall i :: 0 <= i < |xs| ==> OffsetGet(r, i) == Some(xs[i])
  {
    References(xs)
  }

  /** `count`. */
  function Count(r: References): nat
  {
    |r.references|
  }

  /** `getIterator`: the references, in index order. */
  function Iterate(r: References): (s: seq<Reference>)
    ensures |s| == Count(r)
    ensures forall i :: 0 <= i < |s| ==> OffsetGet(r, i) == Some(s[i])
  {
    r.references
  }

  /** `offsetExists`: holds exactly for the indexes `0 .. count - 1`. */
  function OffsetExists(r: References, offset: int): (b: bool)
    ensures b <==> 0 <= offset < Count(r)
  {
    0 <= offset < |r.references|
  }

  /** `offsetGet`: the reference at the index, or null off the end. */
  function OffsetGet(r: References, offset: int): (x: Option<Reference>)
    ensures x.Some? <==> OffsetExists(r, offset)
  {
    if 0 <= offset < |r.references| then Some(r.references[offset]) else None
  }

  /** `offsetSet`: always rejected; the collection stays as it is. */
  function OffsetSet(r: References, offset: int, value: Reference): (res: Result<References, ImmutableObject>)
    ensures res.Failure? && res.error.code == ImmutableObjectCode
  {
    Failure(ImmutableObject(ImmutableObjectCode))
  }

  /** `offsetUnset`: always rejected; the collection stays as it is. */
  function OffsetUnset(r: References, offset: int): (res: Result<References, ImmutableObject>)
    ensures res.Failure? && res.error.code == ImmutableObjectCode
  {
    Failure(ImmutableObject(ImmutableObjectCode))
  }

  /** `count` is the number of offsets that exist: every offset below it exists, and it is the first one that does not. */
  lemma CountIsFirstMissingOffset(r: References)
    ensures !OffsetExists(r, Count(r)) && OffsetGet(r, Count(r)) == None
    ensures forall i :: 0 <= i < Count(r) ==> OffsetExists(r, i)
    ensures Count(r) == |Iterate(r)| == |GetNodes(r)|
  {
  }

  /** `getNodes`: as many nodes as references, the i-th being the i-th reference's node. */
  function GetNodes(r: References): (nodes: seq<Node>)
    ensures |nodes| == Count(r)
    ensures forall i :: 0 <= i < |nodes| ==> OffsetGet(r, i).Some? && OffsetGet(r, i).value.node == nodes[i]
  {
    seq(|r.references|, i requires 0 <= i < |r.references| => r.references[i].node)
  }
}
