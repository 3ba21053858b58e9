/** src/domain/node.py: one diagram entity. The parser creates it, assigns its styling
    and cluster fields and appends its variables and functions; the renderer reads it
    and asks it for its Graphviz record label. */
module DomainNode {
  import opened Optional
  import opened Text

  /** The styling and cluster fields of a Node, the ones option lines set. */
  datatype Style = Style(
    color: Option<string>,
    image: Option<string>,
    shape: Option<string>,
    cssClass: Option<string>,
    description: Option<string>,
    cluster: Option<string>,           // the immediate group
    clusterPath: seq<string>,          // the enclosing groups, outermost first
    clusterClass: Option<string>,
    clusterColor: Option<string>,
    clusterStyle: Option<string>,
    clusterBgcolor: Option<string>)

  /** Every field of a Node, as one value. */
  datatype NodeInfo = NodeInfo(
    name: string,
    key: string,
    variables: seq<string>,
    functions: seq<string>,
    style: Style)

  /** The styling of a new node: the record shape, no enclosing groups, nothing else set. */
  const FreshStyle := Style(None, None, Some("record"), None, None, None, [], None, None, None, None)

  /** The fields of `Node(name, key)` right after construction. */
  function Fresh(name: string, key: string): NodeInfo {
    NodeInfo(name, key, [], [], FreshStyle)
  }

  /** Python's truth value of an optional string: set and not empty. */
  predicate Truthy(s: Option<string>) {
    s.Some? && s.value != ""
  }

  /** The two characters `\n` that Graphviz reads as a line break inside a record label. */
  const LabelBreak := "\\n"

  /** The title cell: `name [key]`, followed by the escaped description on a new
      label line when there is one. */
  function Title(name: string, key: string, description: Option<string>): string {
    var title := name + " [" + key + "]";
    if Truthy(description) then title + LabelBreak + Escape(description.value) else title
  }

  /** The entries of a list cell, one per label line, escaped; `(None)` when empty. */
  function EntryLines(entries: seq<string>): string {
    if entries != [] then Escape(Join(entries, LabelBreak)) else "(None)"
  }

  /** A `{ Heading:` line break `|entries }` cell. */
  function Cell(heading: string, entries: seq<string>): string {
    "{ " + heading + ":\n|" + EntryLines(entries) + " }"
  }

  /** What a reader of the label recovers from a list cell: the entries joined by label
      breaks, or the placeholder when there are none. */
  lemma EntryLinesRoundTrip(entries: seq<string>)
    ensures entries == [] ==> EntryLines(entries) == "(None)"
    ensures entries != [] ==> Unescape(EntryLines(entries)) == Join(entries, LabelBreak)
    ensures BracketsEscaped(EntryLines(entries))
  {
    if entries != [] {
      EscapeRoundTrip(Join(entries, LabelBreak));
      EscapeMarksBrackets(Join(entries, LabelBreak));
    } else {
      assert forall i :: 0 <= i < 6 ==> "(None)"[i] != '<' && "(None)"[i] != '>';
    }
  }

  /** The description is recovered from the title after the name, the key and the
      label break. */
  lemma TitleRoundTrip(name: string, key: string, description: Option<string>)
    ensures var t := Title(name, key, description);
            var head := name + " [" + key + "]";
            && StartsWith(t, head)
            && (Truthy(description) ==> Unescape(t[|head| + 2..]) == description.value
                                        && BracketsEscaped(t[|head| + 2..])
                                        && t[|head|..|head| + 2] == LabelBreak)
            && (!Truthy(description) ==> t == head)
  {
    var head := name + " [" + key + "]";
    var t := Title(name, key, description);
    assert t[..|head|] == head;
    if Truthy(description) {
      assert t[|head| + 2..] == Escape(description.value);
      EscapeRoundTrip(description.value);
      EscapeMarksBrackets(description.value);
    }
  }

  class Node {
    const name: string
    const key: string
    var variables: seq<string>
    var functions: seq<string>
    var color: Option<string>
    var image: Option<string>
    var shape: Option<string>
    var cssClass: Option<string>
    var description: Option<string>
    var cluster: Option<string>
    var clusterPath: seq<string>
    var clusterClass: Option<string>
    var clusterColor: Option<string>
    var clusterStyle: Option<string>
    var clusterBgcolor: Option<string>

    function Value(): NodeInfo
      reads this
    {
      NodeInfo(name, key, variables, functions, StyleValue())
    }

    function StyleValue(): Style
      reads this
    {
      Style(color, image, shape, cssClass, description,
            cluster, clusterPath, clusterClass, clusterColor, clusterStyle, clusterBgcolor)
    }

    /** `Node(name, key)`: no variables or functions, the record shape, no enclosing
        groups, and every other styling or cluster field unset. */
    constructor (name: string, key: string)
      ensures this.name == name && this.key == key
      ensures variables == [] && functions == []
      ensures shape == Some("record") && clusterPath == []
      ensures color.None? && image.None? && cssClass.None? && description.None?
      ensures cluster.None? && clusterClass.None? && clusterColor.None?
      ensures clusterStyle.None? && clusterBgcolor.None?
      ensures Value() == Fresh(name, key)
    {
      this.name := name;
      this.key := key;
      variables := [];
      functions := [];
      color := None;
      image := None;
      shape := Some("record");
      cssClass := None;
      description := None;
      cluster := None;
      clusterPath := [];
      clusterClass := None;
      clusterColor := None;
      clusterStyle := None;
      clusterBgcolor := None;
    }

    /** `add_variable`: one entry more at the end, nothing else changes. */
    method AddVariable(variable: string)
      modifies this
      ensures variables == old(variables) + [variable]
      ensures Value() == old(Value()).(variables := old(variables) + [variable])
    {
      variables := variables + [variable];
    }

    /** `add_function`: one entry more at the end, nothing else changes. */
    method AddFunction(function_: string)
      modifies this
      ensures functions == old(functions) + [function_]
      ensures Value() == old(Value()).(functions := old(functions) + [function_])
    {
      functions := functions + [function_];
    }

    /** `to_graphviz`: the record label. A node with an image is labelled by its name
        alone. Otherwise the label holds the title, then the Variables cell (which reads
        `(None)` when there are no variables), then the Functions cell if and only if
        there are functions. */
    function ToGraphviz(): (r: string)
      reads this
      ensures Truthy(image) ==> r == name
      ensures !Truthy(image) && functions == [] ==>
                r == "{ " + (Title(name, key, description) + " | " + Cell("Variables", variables)) + " }"
      ensures !Truthy(image) && functions != [] ==>
                r == "{ " + (Title(name, key, description) + " | " + Cell("Variables", variables)
                             + " | " + Cell("Functions", functions)) + " }"
    {
      if Truthy(image) then name
      else
        var title, vars := Title(name, key, description), Cell("Variables", variables);
        var parts := if functions != [] then [title, vars, Cell("Functions", functions)] else [title, vars];
        JoinPair(title, vars, " | ");
        JoinTriple(title, vars, Cell("Functions", functions), " | ");
        "{ " + Join(parts, " | ") + " }"
    }
  }
}
