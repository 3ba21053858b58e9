/** `parse_markdown` of src/parser/markdown_parser.py: from the captures of the block
    notation to a Diagram. The block regular expression itself is not modelled; its
    `re.findall` result arrives as a sequence of `Block`s. */
module MarkdownParser {
  import opened Optional
  import opened Text
  import opened Patterns
  import opened AttributeTokenizer
  import opened DomainNode
  import opened DomainRelation
  import opened DomainDiagram

  /** The six capture groups of one block match: name, key, the `### OPT` lines, and
      the insides of the VAR, FUNC and F_RELA sections; a group that took no part in
      the match is the empty string, as `re.findall` reports it. */
  datatype Block = Block(name: string, key: string, opts: string, vars: string, funcs: string, rela: string)

  /** The parser's input: the group of the first `### STYLESHEET <path>` match and of
      the first inline `### STYLESHEET` ... `### END STYLESHEET` match, if any, and the
      block matches in order. The two stylesheet searches are independent: one text
      can satisfy both. */
  datatype Source = Source(stylesheetLine: Option<string>, inlineStylesheet: Option<string>, blocks: seq<Block>)

  // ---------------------------------------------------------------- option lines

  const ColorPattern := Keyword("COLOR", Hex6)
  const ImagePattern := Keyword("IMAGE", Url)
  const ShapePattern := Keyword("SHAPE", WordRun)
  const ClassPattern := Keyword("CLASS", WordRun)
  const DescPattern := Keyword("DESC", RestOfLine)
  const ClusterPattern := Keyword("CLUSTER", UpToBracket)

  /** `node.color` from a COLOR line: `#` and the six hex digits. */
  function ColorValue(opt: string): Option<string> {
    match Search(ColorPattern, opt)
    case Some(hex) => Some("#" + hex)
    case None => None
  }

  /** `desc[1:-1]` when the text is wrapped in one kind of quote; otherwise the text.
      A lone quote character counts as both ends and leaves nothing. */
  function Unquote(d: string): (r: string)
    ensures |r| <= |d|
  {
    if d != [] && ((d[0] == '"' && d[|d| - 1] == '"') || (d[0] == '\'' && d[|d| - 1] == '\'')) then
      if |d| >= 2 then d[1..|d| - 1] else ""
    else d
  }

  /** `node.description` from a DESC line. */
  function DescValue(opt: string): Option<string> {
    match Search(DescPattern, opt)
    case Some(d) => Some(Unquote(Strip(d)))
    case None => None
  }

  /** `[p.strip() for p in parts]` */
  function StripAll(parts: seq<string>): (r: seq<string>)
    ensures |r| == |parts| && forall i :: 0 <= i < |parts| ==> r[i] == Strip(parts[i])
  {
    if parts == [] then [] else [Strip(parts[0])] + StripAll(parts[1..])
  }

  /** The `>`-separated cluster names of a CLUSTER line, each trimmed. */
  function ClusterParts(opt: string): (r: Option<seq<string>>)
    ensures r.Some? ==> |r.value| >= 1
  {
    match Search(ClusterPattern, opt)
    case Some(full) => Some(StripAll(Split(Strip(full), '>')))
    case None => None
  }

  /** `attrs.get(k)` */
  function Get(attrs: map<string, string>, k: string): (r: Option<string>)
    ensures r.Some? <==> k in attrs
    ensures r.Some? ==> r.value == attrs[k]
  {
    if k in attrs then Some(attrs[k]) else None
  }

  /** Keep `old` unless `k` is a key of `attrs`. */
  function Override(old_: Option<string>, attrs: map<string, string>, k: string): Option<string> {
    if k in attrs then Some(attrs[k]) else old_
  }

  /** Where a CLUSTER line puts the node: with several names, the last is its cluster
      and the others, outermost first, the enclosing path; a single name sets the
      cluster and keeps the path. */
  function Placed(info: Style, parts: Option<seq<string>>): Style
    requires parts.Some? ==> |parts.value| >= 1
  {
    match parts
    case None => info
    case Some(ps) =>
      if |ps| > 1 then info.(clusterPath := ps[..|ps| - 1], cluster := Some(ps[|ps| - 1]))
      else info.(cluster := Some(ps[0]))
  }

  /** The four cluster styling fields a CLUSTER line's attributes override. */
  function ClusterStyled(info: Style, attrs: map<string, string>): Style {
    info.(clusterClass := Override(info.clusterClass, attrs, "class"),
          clusterStyle := Override(info.clusterStyle, attrs, "style"),
          clusterColor := Override(info.clusterColor, attrs, "color"),
          clusterBgcolor := Override(info.clusterBgcolor, attrs, "bgcolor"))
  }

  /** The effect of a CLUSTER line: the placement from its names, then the four cluster
      styling fields from its attributes. */
  function WithCluster(info: Style, parts: Option<seq<string>>, attrs: map<string, string>): Style
    requires parts.Some? ==> |parts.value| >= 1
  {
    ClusterStyled(Placed(info, parts), attrs)
  }

  /** The effect of one option line: the first keyword it contains, in the order COLOR,
      IMAGE, SHAPE, CLASS, DESC, CLUSTER, decides which field it may set. */
  function WithOption(info: Style, opt: string): Style {
    if Contains(opt, "COLOR") then
      match ColorValue(opt) case Some(c) => info.(color := Some(c)) case None => info
    else if Contains(opt, "IMAGE") then
      match Search(ImagePattern, opt) case Some(u) => info.(image := Some(u)) case None => info
    else if Contains(opt, "SHAPE") then
      match Search(ShapePattern, opt) case Some(w) => info.(shape := Some(w)) case None => info
    else if Contains(opt, "CLASS") then
      match Search(ClassPattern, opt) case Some(w) => info.(cssClass := Some(w)) case None => info
    else if Contains(opt, "DESC") then
      match DescValue(opt) case Some(d) => info.(description := Some(d)) case None => info
    else if Contains(opt, "CLUSTER") then
      WithCluster(info, ClusterParts(opt), Attributes(opt))
    else info
  }

  /** `opts_block.strip().split('\n')`, or no lines when the group is empty. */
  function OptionLines(opts: string): seq<string> {
    if opts == "" then [] else Split(Strip(opts), '\n')
  }

  /** The option lines applied one after the other. */
  function WithOptions(info: Style, lines: seq<string>): Style
    decreases |lines|
  {
    if lines == [] then info else WithOption(WithOptions(info, lines[..|lines| - 1]), lines[|lines| - 1])
  }

  // ---------------------------------------------------------------- VAR and FUNC entries

  /** `line.strip("- ").strip()` */
  function Clean(line: string): string {
    Strip(Trim(line, AnyOf({'-', ' '})))
  }

  /** One cleaned entry per line that is not blank, in order. */
  function Cleaned(lines: seq<string>): seq<string>
    decreases |lines|
  {
    if lines == [] then []
    else
      var last := lines[|lines| - 1];
      Cleaned(lines[..|lines| - 1]) + (if IsBlank(last) then [] else [Clean(last)])
  }

  lemma CleanedNext(lines: seq<string>, i: nat)
    requires i < |lines|
    ensures Cleaned(lines[..i + 1]) == Cleaned(lines[..i]) + (if IsBlank(lines[i]) then [] else [Clean(lines[i])])
  {
    assert lines[..i + 1][..i] == lines[..i];
  }

  /** The entries of a VAR or FUNC section; none when the group is empty. */
  function Entries(section: string): seq<string> {
    if section == "" then [] else Cleaned(Split(Strip(section), '\n'))
  }

  /** The fields of the node that one block produces. */
  function NodeFor(b: Block): NodeInfo {
    NodeInfo(b.name, b.key, Entries(b.vars), Entries(b.funcs), WithOptions(FreshStyle, OptionLines(b.opts)))
  }

  // ---------------------------------------------------------------- relation lines

  const LabelPattern := Braced
  const TargetPattern := Bracketed

  /** The first `{...}` of the line, or `""`. */
  function Label(line: string): string {
    match Search(LabelPattern, line) case Some(l) => l case None => ""
  }

  /** The first `[word]` of the line. */
  function Target(line: string): Option<string> {
    Search(TargetPattern, line)
  }

  /** `style`, `color` and `css_class` from the line's attributes. */
  function Styled(r: Relation, attrs: map<string, string>): Relation {
    r.(style := Get(attrs, "style"), color := Get(attrs, "color"), cssClass := Get(attrs, "class"))
  }

  /** The relations one F_RELA line adds. A blank line or one without `[target]` adds
      none; otherwise the line's label, attributes and stripped text decide. */
  function LineRelations(key: string, line: string): seq<Relation> {
    if IsBlank(line) then []
    else
      match Target(line)
      case None => []
      case Some(target) => Edges(key, target, Label(line), Attributes(line), Strip(line))
  }

  /** `- TO` and `- FROM` add one edge, with the endpoints and the two arrow attributes
      exchanged for FROM; `- BI` adds the two directions, without arrows; any other
      line adds none. */
  function Edges(key: string, target: string, text: string, attrs: map<string, string>, head: string): seq<Relation> {
    var ah, at := Get(attrs, "arrowhead"), Get(attrs, "arrowtail");
    if StartsWith(head, "- TO") then
      var r := Styled(NewRelation(key, target, text), attrs);
      var r := if Truthy(ah) then r.(arrowhead := ah) else r;
      [if Truthy(at) then r.(arrowtail := at) else r]
    else if StartsWith(head, "- FROM") then
      var r := Styled(NewRelation(target, key, text), attrs);
      var r := if Truthy(ah) then r.(arrowtail := ah) else r;
      [if Truthy(at) then r.(arrowhead := at) else r]
    else if StartsWith(head, "- BI") then
      [Styled(NewRelation(key, target, text), attrs), Styled(NewRelation(target, key, text), attrs)]
    else []
  }

  /** `rela_block.strip().split("\n")`, or no lines when the group is empty. */
  function RelationLines(rela: string): seq<string> {
    if rela == "" then [] else Split(Strip(rela), '\n')
  }

  function LinesRelations(key: string, lines: seq<string>): seq<Relation>
    decreases |lines|
  {
    if lines == [] then []
    else LinesRelations(key, lines[..|lines| - 1]) + LineRelations(key, lines[|lines| - 1])
  }

  /** The relations of one block, in line order. */
  function BlockRelations(key: string, rela: string): seq<Relation> {
    LinesRelations(key, RelationLines(rela))
  }

  // ---------------------------------------------------------------- the whole diagram

  function Keys(blocks: seq<Block>): (r: seq<string>)
    ensures |r| == |blocks| && forall i :: 0 <= i < |blocks| ==> r[i] == blocks[i].key
  {
    if blocks == [] then [] else Keys(blocks[..|blocks| - 1]) + [blocks[|blocks| - 1].key]
  }

  /** The iteration order of a dict that receives `keys` one after another: first
      insertions count, repeats keep their place. */
  function KeyOrder(keys: seq<string>): seq<string>
    decreases |keys|
  {
    if keys == [] then []
    else
      var prev := KeyOrder(keys[..|keys| - 1]);
      if keys[|keys| - 1] in prev then prev else prev + [keys[|keys| - 1]]
  }

  /** The block under each key: the block that came last wins. */
  function LastBlocks(blocks: seq<Block>): map<string, Block>
    decreases |blocks|
  {
    if blocks == [] then map[]
    else
      var last := blocks[|blocks| - 1];
      LastBlocks(blocks[..|blocks| - 1])[last.key := last]
  }

  /** All relations, block by block. */
  function AllRelations(blocks: seq<Block>): seq<Relation>
    decreases |blocks|
  {
    if blocks == [] then []
    else
      var last := blocks[|blocks| - 1];
      AllRelations(blocks[..|blocks| - 1]) + BlockRelations(last.key, last.rela)
  }

  /** `match.group(1).strip()` when the search found something. */
  function Stripped(capture: Option<string>): Option<string> {
    match capture case Some(c) => Some(Strip(c)) case None => None
  }

  // ---------------------------------------------------------------- the parser's steps

  /** The option dispatch of one line, as the parser runs it on the node. */
  method ApplyOption(node: Node, opt: string)
    modifies node
    ensures node.StyleValue() == WithOption(old(node.StyleValue()), opt)
    ensures node.variables == old(node.variables) && node.functions == old(node.functions)
  {
    if Contains(opt, "COLOR") {
      var m := Search(ColorPattern, opt);
      if m.Some? {
        node.color := Some("#" + m.value);
      }
    } else if Contains(opt, "IMAGE") {
      var m := Search(ImagePattern, opt);
      if m.Some? {
        node.image := Some(m.value);
      }
    } else if Contains(opt, "SHAPE") {
      var m := Search(ShapePattern, opt);
      if m.Some? {
        node.shape := Some(m.value);
      }
    } else if Contains(opt, "CLASS") {
      var m := Search(ClassPattern, opt);
      if m.Some? {
        node.cssClass := Some(m.value);
      }
    } else if Contains(opt, "DESC") {
      var m := Search(DescPattern, opt);
      if m.Some? {
        node.description := Some(Unquote(Strip(m.value)));
      }
    } else if Contains(opt, "CLUSTER") {
      ApplyCluster(node, opt);
    }
  }

  /** A CLUSTER line: the placement from the names before `[`, then the cluster styling
      attributes the line carries. */
  method ApplyCluster(node: Node, opt: string)
    modifies node
    ensures node.StyleValue() == WithCluster(old(node.StyleValue()), ClusterParts(opt), Attributes(opt))
    ensures node.variables == old(node.variables) && node.functions == old(node.functions)
  {
    var parts := ClusterParts(opt);
    PlaceInCluster(node, parts);
    var attrs := ParseAttributes(opt);
    SetClusterStyle(node, attrs);
  }

  /** The placement half of a CLUSTER line. */
  method PlaceInCluster(node: Node, parts: Option<seq<string>>)
    requires parts.Some? ==> |parts.value| >= 1
    modifies node
    ensures node.StyleValue() == Placed(old(node.StyleValue()), parts)
    ensures node.variables == old(node.variables) && node.functions == old(node.functions)
  {
    if parts.Some? {
      var ps := parts.value;
      if |ps| > 1 {
        node.clusterPath := ps[..|ps| - 1];
        node.cluster := Some(ps[|ps| - 1]);
      } else {
        node.cluster := Some(ps[0]);
      }
    }
  }

  /** The styling half of a CLUSTER line: each attribute present overrides its field. */
  method SetClusterStyle(node: Node, attrs: map<string, string>)
    modifies node
    ensures node.StyleValue() == ClusterStyled(old(node.StyleValue()), attrs)
    ensures node.variables == old(node.variables) && node.functions == old(node.functions)
  {
    if "class" in attrs {
      node.clusterClass := Some(attrs["class"]);
    }
    if "style" in attrs {
      node.clusterStyle := Some(attrs["style"]);
    }
    if "color" in attrs {
      node.clusterColor := Some(attrs["color"]);
    }
    if "bgcolor" in attrs {
      node.clusterBgcolor := Some(attrs["bgcolor"]);
    }
  }

  /** The loop over the option lines of a block. */
  method ApplyOptions(node: Node, opts: string)
    modifies node
    ensures node.StyleValue() == WithOptions(old(node.StyleValue()), OptionLines(opts))
    ensures node.variables == old(node.variables) && node.functions == old(node.functions)
  {
    if opts != "" {
      var lines := Split(Strip(opts), '\n');
      var i := 0;
      while i < |lines|
        invariant 0 <= i <= |lines|
        invariant node.StyleValue() == WithOptions(old(node.StyleValue()), lines[..i])
        invariant node.variables == old(node.variables) && node.functions == old(node.functions)
      {
        assert lines[..i + 1][..i] == lines[..i];
        ApplyOption(node, lines[i]);
        i := i + 1;
      }
      assert lines[..i] == lines;
    }
  }

  /** The VAR loop: one `add_variable` per line that is not blank. */
  method AddVariables(node: Node, section: string)
    modifies node
    ensures node.variables == old(node.variables) + Entries(section)
    ensures node.Value() == old(node.Value()).(variables := node.variables)
  {
    if section != "" {
      var lines := Split(Strip(section), '\n');
      var i := 0;
      while i < |lines|
        invariant 0 <= i <= |lines|
        invariant node.variables == old(node.variables) + Cleaned(lines[..i])
        invariant node.Value() == old(node.Value()).(variables := node.variables)
      {
        AddVariableLine(node, lines, i, old(node.variables), old(node.Value()));
        i := i + 1;
      }
      assert lines[..i] == lines;
    }
  }

  /** One turn of that loop. */
  method AddVariableLine(node: Node, lines: seq<string>, i: nat, ghost before: seq<string>, ghost start: NodeInfo)
    requires i < |lines|
    requires node.variables == before + Cleaned(lines[..i])
    requires node.Value() == start.(variables := node.variables)
    modifies node
    ensures node.variables == before + Cleaned(lines[..i + 1])
    ensures node.Value() == start.(variables := node.variables)
  {
    ghost var earlier := Cleaned(lines[..i]);
    CleanedNext(lines, i);
    if !IsBlank(lines[i]) {
      node.AddVariable(Clean(lines[i]));
      AppendAssociates(before, earlier, [Clean(lines[i])]);
    }
  }

  /** The FUNC loop: one `add_function` per line that is not blank. */
  method AddFunctions(node: Node, section: string)
    modifies node
    ensures node.functions == old(node.functions) + Entries(section)
    ensures node.Value() == old(node.Value()).(functions := node.functions)
  {
    if section != "" {
      var lines := Split(Strip(section), '\n');
      var i := 0;
      while i < |lines|
        invariant 0 <= i <= |lines|
        invariant node.functions == old(node.functions) + Cleaned(lines[..i])
        invariant node.Value() == old(node.Value()).(functions := node.functions)
      {
        AddFunctionLine(node, lines, i, old(node.functions), old(node.Value()));
        i := i + 1;
      }
      assert lines[..i] == lines;
    }
  }

  /** One turn of that loop. */
  method AddFunctionLine(node: Node, lines: seq<string>, i: nat, ghost before: seq<string>, ghost start: NodeInfo)
    requires i < |lines|
    requires node.functions == before + Cleaned(lines[..i])
    requires node.Value() == start.(functions := node.functions)
    modifies node
    ensures node.functions == before + Cleaned(lines[..i + 1])
    ensures node.Value() == start.(functions := node.functions)
  {
    ghost var earlier := Cleaned(lines[..i]);
    CleanedNext(lines, i);
    if !IsBlank(lines[i]) {
      node.AddFunction(Clean(lines[i]));
      AppendAssociates(before, earlier, [Clean(lines[i])]);
    }
  }

  /** The relations of one F_RELA line, appended to the diagram. The arrow attributes
      are settled before the edge is appended. */
  method AddLineRelations(d: Diagram, key: string, line: string)
    modifies d
    ensures d.relations == old(d.relations) + LineRelations(key, line)
    ensures d.nodes == old(d.nodes) && d.order == old(d.order)
    ensures d.stylesheet == old(d.stylesheet) && d.inlineStylesheet == old(d.inlineStylesheet)
  {
    if !IsBlank(line) {
      var text := Label(line);
      var target := Target(line);
      if target.Some? {
        var attrs := ParseAttributes(line);
        var head := Strip(line);
        var relation: Option<Relation> := None;
        if StartsWith(head, "- TO") {
          relation := Some(NewRelation(key, target.value, text));
        } else if StartsWith(head, "- FROM") {
          relation := Some(NewRelation(target.value, key, text));
        } else if StartsWith(head, "- BI") {
          var relation1 := Styled(NewRelation(key, target.value, text), attrs);
          var relation2 := Styled(NewRelation(target.value, key, text), attrs);
          d.AddRelation(relation1);
          d.AddRelation(relation2);
        }
        if relation.Some? {
          var r := Styled(relation.value, attrs);
          var ah, at := Get(attrs, "arrowhead"), Get(attrs, "arrowtail");
          if Truthy(ah) {
            if StartsWith(head, "- TO") {
              r := r.(arrowhead := ah);
            } else {
              r := r.(arrowtail := ah);
            }
          }
          if Truthy(at) {
            if StartsWith(head, "- TO") {
              r := r.(arrowtail := at);
            } else {
              r := r.(arrowhead := at);
            }
          }
          d.AddRelation(r);
        }
      }
    }
  }

  /** An F_RELA section: its lines, each in turn. */
  method AddRelations(d: Diagram, key: string, rela: string)
    modifies d
    ensures d.relations == old(d.relations) + BlockRelations(key, rela)
    ensures d.nodes == old(d.nodes) && d.order == old(d.order)
    ensures d.stylesheet == old(d.stylesheet) && d.inlineStylesheet == old(d.inlineStylesheet)
  {
    AddRelationLines(d, key, RelationLines(rela));
  }

  /** The loop over the lines of an F_RELA section. */
  method AddRelationLines(d: Diagram, key: string, lines: seq<string>)
    modifies d
    ensures d.relations == old(d.relations) + LinesRelations(key, lines)
    ensures d.nodes == old(d.nodes) && d.order == old(d.order)
    ensures d.stylesheet == old(d.stylesheet) && d.inlineStylesheet == old(d.inlineStylesheet)
  {
    var i := 0;
    while i < |lines|
      invariant 0 <= i <= |lines|
      invariant d.relations == old(d.relations) + LinesRelations(key, lines[..i])
      invariant d.nodes == old(d.nodes) && d.order == old(d.order)
      invariant d.stylesheet == old(d.stylesheet) && d.inlineStylesheet == old(d.inlineStylesheet)
    {
      AddNextLineRelations(d, key, lines, i, old(d.relations));
      i := i + 1;
    }
    assert lines[..i] == lines;
  }

  /** One turn of that loop: line `i` adds its relations after those of the lines before. */
  method AddNextLineRelations(d: Diagram, key: string, lines: seq<string>, i: nat, ghost before: seq<Relation>)
    requires i < |lines|
    requires d.relations == before + LinesRelations(key, lines[..i])
    modifies d
    ensures d.relations == before + LinesRelations(key, lines[..i + 1])
    ensures d.nodes == old(d.nodes) && d.order == old(d.order)
    ensures d.stylesheet == old(d.stylesheet) && d.inlineStylesheet == old(d.inlineStylesheet)
  {
    ghost var earlier, added := LinesRelations(key, lines[..i]), LineRelations(key, lines[i]);
    LinesRelationsStep(key, lines, i);
    AddLineRelations(d, key, lines[i]);
    AppendAssociates(before, earlier, added);
  }

  lemma TakeOneMore<T>(s: seq<T>, i: nat)
    requires i < |s|
    ensures s[..i + 1] == s[..i] + [s[i]]
  {
  }

  lemma AppendAssociates<T>(a: seq<T>, b: seq<T>, c: seq<T>)
    ensures (a + b) + c == a + (b + c)
  {
  }

  lemma LinesRelationsStep(key: string, lines: seq<string>, i: nat)
    requires i < |lines|
    ensures LinesRelations(key, lines[..i + 1]) == LinesRelations(key, lines[..i]) + LineRelations(key, lines[i])
  {
    assert lines[..i + 1][..i] == lines[..i];
  }

  /** The node of one block: created, then its options, variables and functions. */
  method BuildNode(b: Block) returns (node: Node)
    ensures fresh(node)
    ensures node.Value() == NodeFor(b)
  {
    node := new Node(b.name, b.key);
    ApplyOptions(node, b.opts);
    AddVariables(node, b.vars);
    AddFunctions(node, b.funcs);
  }

  /** `parse_markdown`: the stylesheets from their captures, then for each block a new
      node, its options, variables and functions, `add_node`, and its relations. */
  method ParseMarkdown(source: Source) returns (d: Diagram)
    ensures fresh(d) && d.Valid()
    ensures d.stylesheet == Stripped(source.stylesheetLine)
    ensures d.inlineStylesheet == Stripped(source.inlineStylesheet)
    ensures Built(d, source.blocks)
  {
    d := new Diagram();
    if source.stylesheetLine.Some? {
      d.stylesheet := Some(Strip(source.stylesheetLine.value));
    }
    if source.inlineStylesheet.Some? {
      d.inlineStylesheet := Some(Strip(source.inlineStylesheet.value));
    }
    var blocks := source.blocks;
    var i := 0;
    while i < |blocks|
      invariant 0 <= i <= |blocks|
      invariant d.Valid() && Built(d, blocks[..i])
      invariant d.stylesheet == Stripped(source.stylesheetLine)
      invariant d.inlineStylesheet == Stripped(source.inlineStylesheet)
    {
      TakeOneMore(blocks, i);
      AddBlock(d, blocks[..i], blocks[i]);
      i := i + 1;
    }
    assert blocks[..i] == blocks;
  }

  /** The diagram holds what the blocks `done` produce: their nodes, and the relations
      of all of them in order. */
  ghost predicate Built(d: Diagram, done: seq<Block>)
    reads d`nodes, d`order, d`relations, d.nodes.Values
  {
    NodesBuilt(d, done) && d.relations == AllRelations(done)
  }

  /** The keys of `done` in first-insertion order, and under each key a node with the
      fields of the last block with that key. */
  ghost predicate NodesBuilt(d: Diagram, done: seq<Block>)
    reads d`nodes, d`order, d.nodes.Values
  {
    d.order == KeyOrder(Keys(done)) && Holds(d, NodeTable(done))
  }

  /** Under each key, the fields of the node built from the last block with that key. */
  ghost function NodeTable(blocks: seq<Block>): map<string, NodeInfo> {
    map k | k in LastBlocks(blocks) :: NodeFor(LastBlocks(blocks)[k])
  }

  /** The diagram's nodes are stored under the keys of `table`, with its fields. */
  ghost predicate Holds(d: Diagram, table: map<string, NodeInfo>)
    reads d`nodes, d.nodes.Values
  {
    && (forall k :: k in d.nodes <==> k in table)
    && (forall k :: k in d.nodes ==> d.nodes[k].Value() == table[k])
  }

  /** One turn of the parser's loop: block `b` becomes a node and its relations. */
  method AddBlock(d: Diagram, ghost done: seq<Block>, b: Block)
    requires d.Valid() && Built(d, done)
    modifies d
    ensures d.Valid() && Built(d, done + [b])
    ensures d.stylesheet == old(d.stylesheet) && d.inlineStylesheet == old(d.inlineStylesheet)
  {
    AddBlockNode(d, done, b);
    AddBlockRelations(d, done + [b], b);
    RelationsStep(done, b);
  }

  /** The relation half of a turn: the block's relations are appended and the nodes
      stay as they were built. */
  method AddBlockRelations(d: Diagram, ghost built: seq<Block>, b: Block)
    requires d.Valid() && NodesBuilt(d, built)
    modifies d
    ensures d.Valid() && NodesBuilt(d, built)
    ensures d.relations == old(d.relations) + BlockRelations(b.key, b.rela)
    ensures d.stylesheet == old(d.stylesheet) && d.inlineStylesheet == old(d.inlineStylesheet)
  {
    AddRelations(d, b.key, b.rela);
  }


  /** The node half of a turn: the block's node is built and stored under its key. */
  method AddBlockNode(d: Diagram, ghost done: seq<Block>, b: Block)
    requires d.Valid() && NodesBuilt(d, done)
    modifies d
    ensures d.Valid() && NodesBuilt(d, done + [b])
    ensures d.relations == old(d.relations)
    ensures d.stylesheet == old(d.stylesheet) && d.inlineStylesheet == old(d.inlineStylesheet)
  {
    var node := BuildNode(b);
    StoreNode(d, NodeTable(done), node);
    BlocksStep(done, b);
    TableStep(done, b);
  }

  /** `add_node` seen through the node table: the node's fields go under its key. */
  method StoreNode(d: Diagram, ghost table: map<string, NodeInfo>, node: Node)
    requires d.Valid() && Holds(d, table)
    modifies d
    ensures d.Valid() && Holds(d, table[node.key := node.Value()])
    ensures node.key in old(d.nodes) ==> d.order == old(d.order)
    ensures node.key !in old(d.nodes) ==> d.order == old(d.order) + [node.key]
    ensures d.relations == old(d.relations)
    ensures d.stylesheet == old(d.stylesheet) && d.inlineStylesheet == old(d.inlineStylesheet)
  {
    ghost var stored := table[node.key := node.Value()];
    d.AddNode(node);
    forall k | k in d.nodes
      ensures d.nodes[k].Value() == stored[k]
    {
      if k != node.key {
        ghost var n := old(d.nodes)[k];
        assert d.nodes[k] == n;
        assert n.Value() == old(n.Value());
      }
    }
  }

  /** What one more block does to the keys and the order. */
  lemma BlocksStep(done: seq<Block>, b: Block)
    ensures Keys(done + [b]) == Keys(done) + [b.key]
    ensures KeyOrder(Keys(done + [b])) ==
              if b.key in KeyOrder(Keys(done)) then KeyOrder(Keys(done)) else KeyOrder(Keys(done)) + [b.key]
  {
    assert (done + [b])[..|done|] == done;
    assert (Keys(done) + [b.key])[..|done|] == Keys(done);
  }

  /** One more block puts its node's fields under its key. */
  lemma TableStep(done: seq<Block>, b: Block)
    ensures NodeTable(done + [b]) == NodeTable(done)[b.key := NodeFor(b)]
  {
    assert (done + [b])[..|done|] == done;
    assert LastBlocks(done + [b]) == LastBlocks(done)[b.key := b];
  }

  /** What one more block adds to the relations. */
  lemma RelationsStep(done: seq<Block>, b: Block)
    ensures AllRelations(done + [b]) == AllRelations(done) + BlockRelations(b.key, b.rela)
  {
    assert (done + [b])[..|done|] == done;
  }

  // ---------------------------------------------------------------- what the parser guarantees


}
