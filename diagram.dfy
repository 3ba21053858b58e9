/** src/domain/diagram.py: the parsed graph. Nodes live in a dict keyed by node key,
    which iterates in first-insertion order; relations live in a list. */
module DomainDiagram {
  import opened Optional
  import opened DomainNode
  import opened DomainRelation

  /** No key listed twice. */
  predicate Distinct<T(==)>(s: seq<T>) {
    forall i, j :: 0 <= i < j < |s| ==> s[i] != s[j]
  }

  /** The fields of each node, in the order given. */
  function Infos(ns: seq<Node>): (r: seq<NodeInfo>)
    reads set n | n in ns
    ensures |r| == |ns| && forall i :: 0 <= i < |ns| ==> r[i] == ns[i].Value()
  {
    if ns == [] then [] else Infos(ns[..|ns| - 1]) + [ns[|ns| - 1].Value()]
  }

  class Diagram {
    /** The dict `nodes`: `nodes` holds the entries, `order` the keys in the order the
        dict iterates them (the order in which each key was first inserted). */
    var nodes: map<string, Node>
    var order: seq<string>
    var relations: seq<Relation>
    var stylesheet: Option<string>
    var inlineStylesheet: Option<string>

    /** `order` lists exactly the keys of `nodes`, once each, and every node is stored
        under its own key. */
    ghost predicate Valid()
      reads this`nodes, this`order
    {
      && (forall k :: k in nodes <==> k in order)
      && Distinct(order)
      && (forall k :: k in nodes ==> nodes[k].key == k)
    }

    /** `nodes.values()`, in iteration order. */
    function Values(): (r: seq<Node>)
      reads this
      requires Valid()
      ensures |r| == |order|
      ensures forall i :: 0 <= i < |order| ==> r[i] == nodes[order[i]] && r[i].key == order[i]
    {
      NodesAt(order)
    }

    /** The nodes stored under `keys`, in that order. */
    function NodesAt(keys: seq<string>): (r: seq<Node>)
      reads this
      requires forall i :: 0 <= i < |keys| ==> keys[i] in nodes
      ensures |r| == |keys| && forall i :: 0 <= i < |keys| ==> r[i] == nodes[keys[i]]
    {
      if keys == [] then [] else [nodes[keys[0]]] + NodesAt(keys[1..])
    }

    /** `Diagram()`: no nodes, no relations, no stylesheet of either kind. */
    constructor ()
      ensures Valid()
      ensures nodes == map[] && order == [] && relations == []
      ensures stylesheet.None? && inlineStylesheet.None?
    {
      nodes := map[];
      order := [];
      relations := [];
      stylesheet := None;
      inlineStylesheet := None;
    }

    /** `add_node`: the node is stored under its key. Other keys keep their nodes; a key
        already present keeps its place in the iteration order and its node is replaced
        (last write wins); a new key goes last. Relations and stylesheets are untouched. */
    method AddNode(node: Node)
      requires Valid()
      modifies this
      ensures Valid()
      ensures nodes == old(nodes)[node.key := node]
      ensures old(node.key in nodes) ==> order == old(order)
      ensures old(node.key !in nodes) ==> order == old(order) + [node.key]
      ensures relations == old(relations)
      ensures stylesheet == old(stylesheet) && inlineStylesheet == old(inlineStylesheet)
    {
      if node.key !in nodes {
        order := order + [node.key];
      }
      nodes := nodes[node.key := node];
    }

    /** `add_relation`: appended at the end; nodes and stylesheets are untouched. */
    method AddRelation(relation: Relation)
      modifies this
      ensures relations == old(relations) + [relation]
      ensures nodes == old(nodes) && order == old(order)
      ensures stylesheet == old(stylesheet) && inlineStylesheet == old(inlineStylesheet)
    {
      relations := relations + [relation];
    }
  }
}
