/** src/parser/node.py: the older Node, with a name, a key, its variables and functions
    and a colour. Its record label always carries a Functions cell and writes the
    heading break as the two characters `\n`. */
module LegacyNode {
  import opened Optional
  import opened Text
  import DomainNode

  /** The record label of a legacy node: the unescaped `name [key]`, then the
      Variables cell, then the Functions cell, present even when there are no
      functions. Each cell's heading is followed by the two characters Graphviz reads
      as a label line break. */
  function Label(name: string, key: string, variables: seq<string>, functions: seq<string>): string {
    Head(name, key) + DomainNode.EntryLines(variables) + Middle + DomainNode.EntryLines(functions) + " } }"
  }

  /** What comes before the variable entries. */
  function Head(name: string, key: string): string {
    "{ " + name + " [" + key + "] | { Variables:" + DomainNode.LabelBreak + "|"
  }

  /** What lies between the variable entries and the function entries. */
  const Middle := " } | { Functions:" + DomainNode.LabelBreak + "|"

  lemma FiveLayout(a: string, b: string, c: string, d: string, e: string)
    ensures var s := a + b + c + d + e;
            && s[..|a|] == a
            && s[|a|..|a| + |b|] == b
            && s[|a| + |b|..|a| + |b| + |c|] == c
            && s[|a| + |b| + |c|..|s| - |e|] == d
            && s[|s| - |e|..] == e
  {
    var s := a + b + c + d + e;
    assert s == a + (b + (c + (d + e)));
  }

  /** Reading a legacy label back: after the head come the escaped variable entries
      (or `(None)`), after the middle the escaped function entries (or `(None)`), and
      unescaping either part gives its entries joined by label breaks; neither part
      holds a `<` or `>` without a backslash before it. */
  lemma LabelReadBack(name: string, key: string, variables: seq<string>, functions: seq<string>)
    ensures var r := Label(name, key, variables, functions);
            var a := |Head(name, key)|;
            var b := a + |DomainNode.EntryLines(variables)|;
            var c := b + |Middle|;
            && StartsWith(r, Head(name, key)) && EndsWith(r, " } }")
            && a <= b <= c <= |r| - 4
            && r[b..c] == Middle
            && (variables == [] ==> r[a..b] == "(None)")
            && (variables != [] ==> Unescape(r[a..b]) == Join(variables, DomainNode.LabelBreak))
            && (functions == [] ==> r[c..|r| - 4] == "(None)")
            && (functions != [] ==> Unescape(r[c..|r| - 4]) == Join(functions, DomainNode.LabelBreak))
            && BracketsEscaped(r[a..b]) && BracketsEscaped(r[c..|r| - 4])
  {
    var vs, fs := DomainNode.EntryLines(variables), DomainNode.EntryLines(functions);
    FiveLayout(Head(name, key), vs, Middle, fs, " } }");
    DomainNode.EntryLinesRoundTrip(variables);
    DomainNode.EntryLinesRoundTrip(functions);
  }

  /** Without functions the label ends in the `(None)` placeholder of the Functions
      cell. */
  lemma EmptyFunctionsTail(name: string, key: string, variables: seq<string>)
    ensures EndsWith(Label(name, key, variables, []), "(None) } }")
  {
    var pre := Head(name, key) + DomainNode.EntryLines(variables) + Middle;
    assert Label(name, key, variables, []) == pre + "(None) } }";
  }

  class Node {
    const name: string
    const key: string
    var variables: seq<string>
    var functions: seq<string>
    var color: Option<string>

    /** `Node(name, key)`: no variables, no functions, no colour. */
    constructor (name: string, key: string)
      ensures this.name == name && this.key == key
      ensures variables == [] && functions == [] && color.None?
    {
      this.name := name;
      this.key := key;
      variables := [];
      functions := [];
      color := None;
    }

    /** `add_variable`: one entry more at the end; nothing else changes. */
    method AddVariable(variable: string)
      modifies this
      ensures variables == old(variables) + [variable]
      ensures functions == old(functions) && color == old(color)
    {
      variables := variables + [variable];
    }

    /** `add_function`: one entry more at the end; nothing else changes. */
    method AddFunction(function_: string)
      modifies this
      ensures functions == old(functions) + [function_]
      ensures variables == old(variables) && color == old(color)
    {
      functions := functions + [function_];
    }

    /** `to_graphviz`: the record label of the node's fields, which `LabelReadBack`
        reads back cell by cell; it starts with the unescaped name and key, and the
        Functions cell closes it even when there are no functions. */
    function ToGraphviz(): (r: string)
      reads this
      ensures r == Label(name, key, variables, functions)
      ensures StartsWith(r, Head(name, key))
      ensures functions == [] ==> EndsWith(r, "(None) } }")
    {
      LabelReadBack(name, key, variables, functions);
      if functions == [] then
        EmptyFunctionsTail(name, key, variables);
        Label(name, key, variables, functions)
      else
        Label(name, key, variables, functions)
    }
  }
}
