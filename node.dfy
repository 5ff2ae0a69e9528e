/**
 * com.anode.tool.graph.Node: a tree node holding a content value, a parent
 * reference, an ordered list of children and a map of named attributes.
 * The children list and the attribute map are changed in place, the parent
 * reference is reassigned, and clone() links the copy into the parent.
 * Java's Object attribute values are a type parameter V; a stored null is
 * None, so a name can be present with no value. The LinkedList of children
 * accepts null children, and the HashMap of attributes accepts the null
 * name, which is None here.
 */
module Graph {
  import opened Wrappers
  import opened JavaLang

  class Node<T, V> {
    var parent: Node?<T, V>
    var children: seq<Node?<T, V>>
    const content: T
    var attributes: map<Option<string>, Option<V>>

    /** Node(content): no parent, no children, no attributes. */
    constructor (content: T)
      ensures this.content == content
      ensures parent == null && children == [] && attributes == map[]
    {
      this.content := content;
      parent := null;
      children := [];
      attributes := map[];
    }

    /**
     * Node(content, parent): the new node records parent and, when parent is
     * not null, is appended to the end of its children. Nothing else of
     * parent changes.
     */
    constructor WithParent(content: T, parent: Node?<T, V>)
      modifies parent
      ensures this.content == content && this.parent == parent
      ensures children == [] && attributes == map[]
      ensures parent != null ==> parent.children == old(parent.children) + [this]
      ensures parent != null ==> parent.parent == old(parent.parent) && parent.attributes == old(parent.attributes)
    {
      this.content := content;
      this.parent := parent;
      children := [];
      attributes := map[];
      new;
      if parent != null {
        parent.AddChild(this);
      }
    }

    /** addChild: appends, null included, so earlier children keep their positions and the count grows by one. */
    method AddChild(child: Node?<T, V>)
      modifies this`children
      ensures children == old(children) + [child]
      ensures |children| == |old(children)| + 1 && children[..|old(children)|] == old(children)
      ensures GetChildPosition(child) == if child in old(children) then old(GetChildPosition(child)) else |old(children)|
    {
      FirstIndexAppend(children, child);
      children := children + [child];
    }

    /** getChild(i), None where Java throws IndexOutOfBoundsException; a null child is Some(null). */
    function GetChild(i: int): (r: Option<Node?<T, V>>)
      reads this
      ensures r.Some? <==> 0 <= i < |children|
      ensures r.Some? ==> r.value == children[i]
    {
      if 0 <= i < |children| then Some(children[i]) else None
    }

    /** getChildPosition: the first index holding that very node (or null), or -1. */
    function GetChildPosition(child: Node?<T, V>): (r: int)
      reads this
      ensures r == -1 <==> child !in children
      ensures r != -1 ==> 0 <= r < |children| && children[r] == child && child !in children[..r]
    {
      FirstIndex(children, child)
    }

    /**
     * removeChild(i): returns the old i-th child and shifts the later ones
     * down; None, with nothing changed, where Java throws.
     */
    method RemoveChild(i: int) returns (r: Option<Node?<T, V>>)
      modifies this`children
      ensures r.Some? <==> 0 <= i < |old(children)|
      ensures r.Some? ==> r.value == old(children)[i] && children == old(children)[..i] + old(children)[i + 1..]
      ensures r.Some? ==> |children| == |old(children)| - 1
      ensures r.None? ==> children == old(children)
    {
      if 0 <= i < |children| {
        r := Some(children[i]);
        children := children[..i] + children[i + 1..];
      } else {
        r := None;
      }
    }

    /** removeChildren: afterwards the node has no children and is a leaf. */
    method RemoveChildren()
      modifies this`children
      ensures children == []
      ensures GetChildrenCount() == 0 && IsLeaf()
    {
      children := [];
    }

    function GetChildrenCount(): (n: nat)
      reads this
      ensures n == |children|
    {
      |children|
    }

    function GetParent(): (p: Node?<T, V>)
      reads this
      ensures p == parent
    {
      parent
    }

    /** setParent: changes this node's parent field only; no children list is touched. */
    method SetParent(parent: Node?<T, V>)
      modifies this`parent
      ensures this.parent == parent
      ensures IsRoot() <==> parent == null
    {
      this.parent := parent;
    }

    /** getAttribute: the stored value, or None when the name is absent or holds null; the name may be null. */
    function GetAttribute(name: Option<string>): (v: Option<V>)
      reads this
      ensures name !in attributes ==> v == None
      ensures name in attributes ==> v == attributes[name]
    {
      if name in attributes then attributes[name] else None
    }

    /**
     * setAttribute: returns the previous value (None when there was none);
     * afterwards the name exists and getAttribute returns the new value,
     * and every other attribute is unchanged.
     */
    method SetAttribute(name: Option<string>, value: Option<V>) returns (previous: Option<V>)
      modifies this`attributes
      ensures previous == old(GetAttribute(name))
      ensures AttributeExists(name) && GetAttribute(name) == value
      ensures forall other :: other != name ==> (other in attributes <==> other in old(attributes))
      ensures forall other :: other != name && other in attributes ==> attributes[other] == old(attributes)[other]
    {
      previous := GetAttribute(name);
      attributes := attributes[name := value];
    }

    /**
     * attributeExists: the name is a key of the map. A name holding a value
     * exists, an absent name reads as None, and a name holding null exists
     * although getAttribute gives None for it.
     */
    predicate AttributeExists(name: Option<string>): (r: bool)
      reads this
      ensures GetAttribute(name).Some? ==> r
      ensures !r ==> GetAttribute(name) == None
    {
      name in attributes
    }

    /** isRoot: getParent() is null. */
    predicate IsRoot(): (r: bool)
      reads this
      ensures r <==> GetParent() == null
    {
      parent == null
    }

    /** isLeaf: the count is zero, so no index reaches a child. */
    predicate IsLeaf(): (r: bool)
      reads this
      ensures r <==> GetChildrenCount() == 0
      ensures r <==> forall i :: GetChild(i).None?
    {
      assert GetChild(0).Some? <==> |children| > 0;
      |children| == 0
    }

    function GetContent(): (c: T)
      reads this
      ensures c == content
    {
      content
    }

    /**
     * clone(): a fresh node with the same content and parent, a new list
     * holding the same child references and a copy of the attribute map.
     * Because it goes through Node(content, parent), the copy is also
     * appended to the parent's children; when the node is its own parent,
     * that append happens before the children are copied, so the copy lists
     * itself among its children.
     */
    method Clone() returns (c: Node<T, V>)
      modifies parent
      ensures fresh(c)
      ensures c.content == content && c.parent == parent
      ensures c.children == children && c.attributes == attributes
      ensures parent != null ==> parent.children == old(parent.children) + [c]
      ensures parent != null ==> parent.parent == old(parent.parent) && parent.attributes == old(parent.attributes)
      ensures parent != this ==> children == old(children)
      ensures parent == old(parent) && attributes == old(attributes)
    {
      c := new Node.WithParent(content, parent);
      c.children := children;
      c.attributes := attributes;
    }
  }
}
