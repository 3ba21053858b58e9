/** src/parser/diagram.py: the older Diagram, holding legacy nodes by key, relations as
    `(source_key, target_key, label)` triples and the rendering options. */
module LegacyDiagram {
  import opened Optional
  import opened LegacyNode

  /** A relation as the legacy diagram stores it. */
  datatype Triple = Triple(sourceKey: string, targetKey: string, text: string)

  class Diagram {
    var nodes: map<string, Node>
    var relations: seq<Triple>
    var options: map<string, string>

    /** `Diagram(options=None)`: the options given, or none; no nodes, no relations. */
    constructor (options: Option<map<string, string>>)
      ensures options.None? ==> this.options == map[]
      ensures options.Some? ==> this.options == options.value
      ensures nodes == map[] && relations == []
    {
      this.options := if options.None? then map[] else options.value;
      nodes := map[];
      relations := [];
    }

    /** `add_node`: the node is stored under its key, replacing an earlier node with the
        same key; relations and options are untouched. */
    method AddNode(node: Node)
      modifies this
      ensures nodes == old(nodes)[node.key := node]
      ensures relations == old(relations) && options == old(options)
    {
      nodes := nodes[node.key := node];
    }

    /** `add_relation`: the triple is appended at the end; nodes and options are
        untouched. */
    method AddRelation(sourceKey: string, targetKey: string, text: string)
      modifies this
      ensures relations == old(relations) + [Triple(sourceKey, targetKey, text)]
      ensures nodes == old(nodes) && options == old(options)
    {
      relations := relations + [Triple(sourceKey, targetKey, text)];
    }
  }
}
