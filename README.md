# Grarkdown core in Dafny

Grarkdown reads a markdown-like block notation and turns it into a Graphviz diagram:

```
# {Name} [key]
### OPT COLOR a1b2c3
### OPT CLUSTER Outer > Inner [class=box, bgcolor=eee]
## VAR
- id: int
## END VAR
## FUNC
- run()
## END FUNC
## F_RELA
- TO [other] {uses} [style=dashed, arrowhead=vee]
## END F_RELA
```

Each block becomes a `Node`. The nodes are stored in a `Diagram` keyed by node key, and the relation lines become an ordered list of `Relation`s. The renderer then groups clustered nodes into nested Graphviz subgraphs and splices an inline stylesheet into the SVG text.

This project models that core and proves what it promises:

- `Text` gives Python's `str` operations (`strip`, `split`, `join`, `startswith`, `in`, `find`, `replace`) and the ASCII `\w`/`\s` classes.
- `Patterns` gives the single-line regular expressions of the parser, with `re.search`'s leftmost, greedy-with-backtracking semantics.
- `AttributeTokenizer` models `parse_attributes`: the `re.findall` matches of `name = value` and the dict they build.
- `DomainRelation`, `DomainNode` and `DomainDiagram` model src/domain.
  - `Relation` is a value.
  - `Node` and `Diagram` are classes whose methods update their fields.
  - The diagram's dict is a map plus the key insertion order.
- `MarkdownParser` models `parse_markdown` over the captured groups of each block:
  - option dispatch;
  - VAR/FUNC cleaning;
  - relation expansion;
  - the loop that folds the blocks into a `Diagram`.

  Its methods are proved against the functions `WithOptions`, `Entries`, `LineRelations`, `NodeTable`, `KeyOrder` and `AllRelations`.
- `ParserFacts`, `RelationFacts` and `BuildFacts` prove what those functions mean:
  - the syntax round trips (`- entry` lines, `- DIR [target] {label}` lines, `key=value` lists);
  - the dispatch order;
  - last-write-wins on keys;
  - first-insertion order.
- `GraphvizRenderer` covers the renderer parts that do not call Graphviz:
  - the cluster hierarchy builder, as a class updated in place and proved against a function `Build`;
  - the `c_i` / `p_i` cluster ids, with their injectivity;
  - colour normalisation and fallbacks;
  - the inline `<style>` splice.
- `LegacyNode` and `LegacyDiagram` model the older classes in src/parser.

## Model

| member | source | states |
|---|---|---|
| AttributeTokenizer.MatchAt | src/parser/markdown_parser.py:9 | one anchored match of `(\w+)\s*=\s*([\w\.\/:\-]+)` consumes at least one character and no more than the text |
| AttributeTokenizer.MatchAtShape | src/parser/markdown_parser.py:9 | a match's name is a non-empty word run at its start, its value a non-empty run of value characters ending where the match ends, and the match stops only where no further value character follows (greedy) |
| AttributeTokenizer.Matches | src/parser/markdown_parser.py:9 | every pair `re.findall` reports has a word-character name and a value of word characters, `.`, `/`, `:`, `-` |
| AttributeTokenizer.AttrMap | src/parser/markdown_parser.py:8-11 | a name is in the dict exactly when some match has it, and its value is the one of its last match |
| AttributeTokenizer.Attributes | src/parser/markdown_parser.py:6-12 | every key is a name and every value a non-empty value run |
| AttributeTokenizer.LastValueFrom | src/parser/markdown_parser.py:10-11 | a stored value was written by some match with that name |
| AttributeTokenizer.ParseAttributes | src/parser/markdown_parser.py:6-12 | the loop leaves a name exactly when some match has it, with the value of its last match |
| AttributeTokenizer.NoEqualsNoMatches | src/parser/markdown_parser.py:9 | a line without `=` yields no attributes |
| AttributeTokenizer.MatchesPast | src/parser/markdown_parser.py:9 | words without `=` in front of a name add no match: the attributes are those of what follows |
| AttributeTokenizer.NoMatchInFront | src/parser/markdown_parser.py:9 | no match starts at such words: after their name and blanks comes something other than `=` |
| AttributeTokenizer.MatchAtAssignment | src/parser/markdown_parser.py:9 | `name=value` followed by a non-value character matches exactly that name and value |
| AttributeTokenizer.MatchesTaken | src/parser/markdown_parser.py:9 | `re.findall` resumes right after a match |
| AttributeTokenizer.MatchesPair | src/parser/markdown_parser.py:9 | `k=v` alone matches once |
| AttributeTokenizer.MatchesPairThen | src/parser/markdown_parser.py:9 | `k=v` followed by text that does not continue the value yields the pair, then the matches of that text |
| AttributeTokenizer.MatchesSerialized | src/parser/markdown_parser.py:9 | round trip: a `k=v` list written with a separator such as `,` or `, `, and followed by text without `=` that does not continue the last value (such as `]`), is tokenized back into exactly its pairs, in order |
| AttributeTokenizer.MatchesSerializedStep | src/parser/markdown_parser.py:9 | the first pair is matched, the separator passed over, and the scan goes on with the rest of the list |
| AttributeTokenizer.SerializeStart | src/parser/markdown_parser.py:9 | a written non-empty list starts with a name character |
| AttributeTokenizer.MatchesInLine | src/parser/markdown_parser.py:9 | the same list written inside a line, after words without `=` that end in a non-word character (such as `CLUSTER A>B [`) and before text such as `]`, still yields exactly its pairs |
| AttributeTokenizer.TokenizeSerialized | src/parser/markdown_parser.py:6-12 | round trip: a line holding a written list between such text has that list's dict as its attributes, and a pair not overridden later keeps its value |
| AttributeTokenizer.LastValueOfLast | src/parser/markdown_parser.py:10-11 | the last occurrence of a name decides its value |
| Patterns.SearchFrom | src/parser/markdown_parser.py:47-72 | the leftmost start found is at or after the starting position |
| Patterns.SearchFromFacts | src/parser/markdown_parser.py:47-72 | the match found is the pattern's match at that start, and no earlier start matches |
| Patterns.SearchFacts | src/parser/markdown_parser.py:47-72 | `re.search` fails exactly when no start matches; otherwise it returns the match at the leftmost matching start |
| Patterns.SearchAtStart | src/parser/markdown_parser.py:116-119 | a match at position 0 is the search result |
| Patterns.SearchAfter | src/parser/markdown_parser.py:116-119 | the first matching start decides the search result |
| Patterns.BacktrackIsTail | src/parser/markdown_parser.py:47-72 | `\s+` backtracking only ever hands the argument a suffix after at least one blank |
| Patterns.ArgAtIsTail | src/parser/markdown_parser.py:47-72 | the capture of `KEYWORD\s+(arg)` starts after at least one blank |
| Patterns.ArgAtGreedy | src/parser/markdown_parser.py:47-72 | when the argument matches after all the blanks, `\s+` keeps all of them |
| Patterns.TailShape | src/parser/markdown_parser.py:47-72 | each capture has the shape its group allows: six hex digits, an `http(s)://` URL without blanks, a word run, a line rest without line feed, text without `[` |
| Patterns.RestOfLineOnALine | src/parser/markdown_parser.py:64 | `DESC\s+(.+)$` on one line captures the text after the blanks, or the last blank when only blanks follow |
| Patterns.UpToBracketGreedy | src/parser/markdown_parser.py:72 | `CLUSTER\s+([^\[]+)` captures the text after the blanks up to the first `[` |
| Patterns.LastBlankBeforeBracket | src/parser/markdown_parser.py:72 | with only blanks before `[` or the end, the capture is the last blank |
| Patterns.KeywordSearchPast | src/parser/markdown_parser.py:47-72 | text in front that lacks the keyword's first letter does not change what `re.search` finds for `KEYWORD\s+(arg)` |
| MarkdownParser.Unquote | src/parser/markdown_parser.py:66-68 | stripping quotes never lengthens the description |
| ParserFacts.UnquoteFacts | src/parser/markdown_parser.py:67-68 | one pair of matching `"` or `'` is removed; a lone `"` or `'` becomes empty; text that does not start and end with the same quote is kept |
| ParserFacts.UnquoteQuoted | src/parser/markdown_parser.py:67-68 | a quoted description gives back the text between the quotes |
| ParserFacts.ColorLine | src/parser/markdown_parser.py:45-49 | `COLOR` and six hex digits give `#` and those digits, and the `### OPT COLOR ...` line sets the colour to them |
| ParserFacts.ColorValueShape | src/parser/markdown_parser.py:47-49 | a colour value is `#` and six hex digits |
| ParserFacts.CaptureShape | src/parser/markdown_parser.py:47-72 | each option value has the shape its pattern allows |
| ParserFacts.DescLine | src/parser/markdown_parser.py:45-69 | `DESC text` gives the stripped text without its quotes; its `### OPT` line sets that description when no keyword tested before DESC occurs in it |
| MarkdownParser.StripAll | src/parser/markdown_parser.py:75 | one stripped part per part, in order |
| MarkdownParser.ClusterParts | src/parser/markdown_parser.py:72-75 | a found cluster name yields at least one part |
| ParserFacts.ClusterLine | src/parser/markdown_parser.py:72-80 | round trip: `CLUSTER A>B>C`, then blanks or none, then nothing or `[`, is read back as the names written, from the option and from its `### OPT` line |
| ParserFacts.NamesThenGap | src/parser/markdown_parser.py:72-74 | the blanks before `[` are captured with the names and stripped off again |
| ParserFacts.StrippedNames | src/parser/markdown_parser.py:75 | names without surrounding blanks survive the per-part strip |
| ParserFacts.JoinedClusterNames | src/parser/markdown_parser.py:74-75 | names joined by `>` strip to themselves and split back into the names |
| ParserFacts.ClusterCapture | src/parser/markdown_parser.py:72 | the cluster pattern captures exactly the joined names |
| ParserFacts.ClusterLineStyled | src/parser/markdown_parser.py:45-91 | `CLUSTER A>B>C [k1=v1, k2=v2]` and its `### OPT` line read back the names and have the list's dict as attributes; when no earlier keyword occurs in it, the option line acts as the option: the last name is the cluster, the names before it the path, and each cluster styling field takes the list's last value for its key or keeps its old value |
| ParserFacts.BracketedListNames | src/parser/markdown_parser.py:72-80 | the bracketed list does not change the names read |
| ParserFacts.BracketedListAttributes | src/parser/markdown_parser.py:83 | the keyword and names in front of the list add no attribute |
| ParserFacts.ListStylesCluster | src/parser/markdown_parser.py:73-91 | placement by the names and the four styling fields from the list's last values |
| ParserFacts.ClusterDispatch | src/parser/markdown_parser.py:45-83 | a line that contains CLUSTER and none of COLOR, IMAGE, SHAPE, CLASS, DESC is handled as a CLUSTER line |
| ParserFacts.NestedClusterLine | src/parser/markdown_parser.py:45-91 | an example of nested clusters: `### OPT CLUSTER Infra>Network>DB [color=blue,style=rounded]` acts as its option, which puts the node in cluster DB under the path Infra, Network, with cluster colour blue and style rounded |
| MarkdownParser.Get | src/parser/markdown_parser.py:84-91 | `dict.get`: present exactly for a key in the dict, with its value |
| ParserFacts.OptionDispatch | src/parser/markdown_parser.py:45-91 | the first keyword contained in the line, in the order COLOR, IMAGE, SHAPE, CLASS, DESC, CLUSTER, decides which fields may change; every other field is kept; a line with no keyword changes nothing |
| ParserFacts.ColorOption | src/parser/markdown_parser.py:46-49 | a COLOR line sets the colour when six hex digits follow and otherwise changes nothing, even if a later keyword is present |
| ParserFacts.ClusterAttributesFromWholeLine | src/parser/markdown_parser.py:72-86 | `CLUSTER style=dashed` and its `### OPT` line, with no brackets, name the cluster `style=dashed` and set its style to `dashed` |
| ParserFacts.StyledCluster | src/parser/markdown_parser.py:45-91 | a CLUSTER option that reads as some names and a list's dict: its `### OPT` line reads the same, and with no earlier keyword acts as the option, placing and styling the cluster as names and list say |
| ParserFacts.ClusterOptionLine | src/parser/markdown_parser.py:45-83 | a `### OPT` line of an option starting with CLUSTER reads the same names and attributes and has the same effect as the option |
| ParserFacts.OptionLineReads | src/parser/markdown_parser.py:45-72 | `### OPT ` in front of an option changes neither which of the six keywords the line contains nor what any keyword pattern captures |
| ParserFacts.OptionLineAttributes | src/parser/markdown_parser.py:83 | `### OPT ` in front of an option that starts with a word character adds no attribute |
| ParserFacts.OptionLineEffect | src/parser/markdown_parser.py:45-91 | a `### OPT` line has the effect of its option, for every option starting with a word character |
| ParserFacts.OptionBlockLines | src/parser/markdown_parser.py:30-44 | round trip: a `### OPT` group of option lines, each ending in a line feed, stripped and split at line feeds gives back its lines, one per option, in order |
| ParserFacts.OptionLinesEffect | src/parser/markdown_parser.py:45-91 | option lines applied in order style a node as their options do |
| ParserFacts.OptionBlockEffect | src/parser/markdown_parser.py:43-91 | the lines read from a `### OPT` group style a new node as the options written in it |
| ParserFacts.BlockOptions | src/parser/markdown_parser.py:39-91 | a block whose `### OPT` group holds options gives a node styled by those options, applied in order |
| ParserFacts.UnquotePair | src/parser/markdown_parser.py:66-68 | the documented quote rule: a description loses two characters (one pair of matching quotes) or none |
| ParserFacts.UnquoteAgrees | src/parser/markdown_parser.py:66-68 | the code's `desc[1:-1]` and the documented rule agree on every description except a lone quote character, which the code empties and the documented rule keeps |
| ParserFacts.UnquotePairQuoted | src/parser/markdown_parser.py:67-68 | under the documented rule, quoted text comes back as it was |
| ParserFacts.ClusterListAttributes | src/parser/markdown_parser.py:82-83 | the documented cluster attributes: only those after the first `[`, none when the line has no `[` |
| ParserFacts.ClusterListAgrees | src/parser/markdown_parser.py:82-83 | on a bracketed CLUSTER option and its `### OPT` line, the code and the documented rule read the same attributes, those of the list |
| ParserFacts.ClusterListUnbracketed | src/parser/markdown_parser.py:82-83 | where they differ: `CLUSTER style=dashed` and its option line have no attributes under the documented rule, while the code finds `style=dashed` |
| ParserFacts.ClusterEffect | src/parser/markdown_parser.py:73-91 | several parts give the path and the last name; one part sets only the cluster; no capture keeps both; each cluster style field changes exactly when its attribute is present |
| MarkdownParser.ApplyOption | src/parser/markdown_parser.py:45-91 | the node's styling fields become `WithOption` of their old values; variables and functions are kept |
| MarkdownParser.ApplyCluster | src/parser/markdown_parser.py:70-91 | a CLUSTER line sets the placement and then the cluster styling fields |
| MarkdownParser.PlaceInCluster | src/parser/markdown_parser.py:73-80 | the placement fields follow the `>` split |
| MarkdownParser.SetClusterStyle | src/parser/markdown_parser.py:83-91 | each cluster styling field is overwritten only when its attribute is present |
| MarkdownParser.ApplyOptions | src/parser/markdown_parser.py:43-45 | the option lines, stripped and split on line feeds, are applied in order |
| MarkdownParser.CleanedNext | src/parser/markdown_parser.py:94-96 | one more line adds its cleaned entry when it is not blank, and nothing otherwise |
| MarkdownParser.AddVariables | src/parser/markdown_parser.py:93-96 | the variables grow by the section's entries, in order, and no other field changes |
| MarkdownParser.AddFunctions | src/parser/markdown_parser.py:98-101 | the functions grow by the section's entries, in order, and no other field changes |
| ParserFacts.CleanBullet | src/parser/markdown_parser.py:95-96 | `- entry` is not blank and cleans to the entry |
| ParserFacts.CleanedBullets | src/parser/markdown_parser.py:94-96 | cleaning `- entry` lines gives back the entries, in order |
| ParserFacts.EntriesRoundTrip | src/parser/markdown_parser.py:93-101 | round trip: a VAR or FUNC section of `- entry` lines yields exactly its entries, one per line, in order |
| ParserFacts.BulletSection | src/parser/markdown_parser.py:94 | such a section strips to itself and splits back into its lines |
| MarkdownParser.BuildNode | src/parser/markdown_parser.py:41-101 | a fresh node whose fields are those `NodeFor` gives the block |
| MarkdownParser.AddLineRelations | src/parser/markdown_parser.py:112-160 | a relation line appends `LineRelations` for it; nodes and stylesheets are untouched |
| MarkdownParser.AddRelations | src/parser/markdown_parser.py:105-112 | the relation section appends the relations of its lines, in order |
| MarkdownParser.LinesRelationsStep | src/parser/markdown_parser.py:112 | one more line appends its own relations |
| RelationFacts.Edge | src/parser/markdown_parser.py:127-160 | an edge has the given ends, label and arrows and no `dir` |
| RelationFacts.TruthyGet | src/parser/markdown_parser.py:151-160 | a tokenized attribute is truthy exactly when present, so the arrow tests never skip a present attribute |
| RelationFacts.EdgesCases | src/parser/markdown_parser.py:128-160 | TO adds key to target with arrowhead and arrowtail; FROM adds target to key with the two swapped; BI adds both directions without arrows; anything else adds nothing |
| RelationFacts.LineRelationsEnds | src/parser/markdown_parser.py:113-148 | a line adds relations only if it is not blank and has a target; each joins the block's key and the target with the line's label and style, colour and class |
| RelationFacts.SearchPast | src/parser/markdown_parser.py:116-119 | a braced or bracketed pattern is found at the first opening character |
| RelationFacts.LineTarget | src/parser/markdown_parser.py:119-123 | the target of `- DIR [target] {label}` is the target written, whatever follows the label |
| RelationFacts.LineLabel | src/parser/markdown_parser.py:116-117 | its label is the label written, whatever follows it |
| RelationFacts.LineAttributes | src/parser/markdown_parser.py:125 | with nothing after the label it has no attributes |
| RelationFacts.LineHasNoEquals | src/parser/markdown_parser.py:125 | the plain line holds no `=` |
| RelationFacts.ListedAttributes | src/parser/markdown_parser.py:125 | with `[k1=v1, k2=v2]` after the label its attributes are exactly that list's dict |
| RelationFacts.LineStripped | src/parser/markdown_parser.py:128-132 | followed by nothing or by text ending in a non-blank, it is not blank, strips to itself and starts with `- DIR` |
| RelationFacts.HeadDirection | src/parser/markdown_parser.py:128-132 | a line starting with `- DIR` starts with no other direction |
| RelationFacts.RelationLineRoundTrip | src/parser/markdown_parser.py:110-149 | round trip: `- DIR [target] {label}` is read back as the relations written: the edge for TO, the reversed edge for FROM, both for BI |
| RelationFacts.WrittenEdges | src/parser/markdown_parser.py:128-143 | without attributes the expansion is the plain relations written |
| RelationFacts.LineEdges | src/parser/markdown_parser.py:113-125 | the line's relations are the expansion of its target, label and attributes, whatever follows the label |
| RelationFacts.BareEdge | src/parser/markdown_parser.py:127-149 | an edge without attributes is a new relation |
| RelationFacts.AttributedLineRoundTrip | src/parser/markdown_parser.py:110-160 | round trip: `- DIR [target] {label} [k1=v1, k2=v2]` has the list's dict as attributes and is read back as the relations written, each with the list's last `style`, `color` and `class`; the TO edge takes the last `arrowhead` and `arrowtail`, the FROM edge the two swapped, the BI edges no arrows |
| RelationFacts.ListedEdges | src/parser/markdown_parser.py:127-160 | the expansion with a list's dict is those styled relations |
| RelationFacts.AttrMapValues | src/parser/markdown_parser.py:8-11 | every value in a well-formed list's dict is a non-empty value run |
| RelationFacts.DashedVeeLine | src/parser/markdown_parser.py:110-160 | `- TO [target] {label} [style=dashed, arrowhead=vee]` adds one relation from the block's node to the target, dashed, with a `vee` arrowhead and nothing else styled |
| MarkdownParser.Keys | src/parser/markdown_parser.py:39-40 | one key per block, in order |
| MarkdownParser.ParseMarkdown | src/parser/markdown_parser.py:14-163 | a fresh valid diagram: the stylesheet captures stripped, the nodes those of the blocks, and the relations of all blocks in order |
| MarkdownParser.AddBlock | src/parser/markdown_parser.py:39-160 | one loop turn keeps the diagram built from the blocks so far, one block longer |
| MarkdownParser.AddBlockNode | src/parser/markdown_parser.py:41-103 | the block's node is built and stored, and the node table now covers the block |
| MarkdownParser.AddBlockRelations | src/parser/markdown_parser.py:105-160 | the block's relations are appended and the nodes are kept |
| MarkdownParser.StoreNode | src/parser/markdown_parser.py:103 | `add_node` seen through the node table: the node's fields go under its key, a known key keeps its position, and a new key goes last |
| MarkdownParser.BlocksStep | src/parser/markdown_parser.py:39-103 | one more block adds its key, and the order gains it only if it is new |
| MarkdownParser.TableStep | src/parser/markdown_parser.py:103 | one more block puts its node's fields under its key |
| MarkdownParser.RelationsStep | src/parser/markdown_parser.py:105-160 | one more block appends its relations |
| BuildFacts.KeyOrderFacts | src/domain/diagram.py:12-13 | the key order holds every key once, only the keys given, ordered by first insertion |
| BuildFacts.LastBlocksKeys | src/parser/markdown_parser.py:39-103 | a key has a node exactly when some block has it |
| BuildFacts.LastBlockWins | src/parser/markdown_parser.py:103 | the node under a key comes from the last block with that key |
| BuildFacts.AllRelationsAppend | src/parser/markdown_parser.py:39-160 | the relations of two runs of blocks are the first run's, then the second's |
| DomainRelation.NewRelation | src/domain/relation.py:5-15 | endpoints and label kept as given (an empty label stays empty); style, colour, class, arrows and `dir` unset |
| DomainNode.Node.constructor | src/domain/node.py:4-20 | no entries, shape `record`, no enclosing groups, every other field unset |
| DomainNode.Node.AddVariable | src/domain/node.py:22-23 | one variable more at the end, nothing else changes |
| DomainNode.Node.AddFunction | src/domain/node.py:25-26 | one function more at the end, nothing else changes |
| DomainNode.Node.ToGraphviz | src/domain/node.py:28-47 | with an image the label is the name; otherwise title and Variables cell, with the Functions cell exactly when there are functions |
| DomainNode.EntryLinesRoundTrip | src/domain/node.py:39-45 | an empty list shows `(None)`; otherwise unescaping gives the entries joined by label breaks; every `<`/`>` in the cell has a backslash before it |
| DomainNode.TitleRoundTrip | src/domain/node.py:34-37 | the title starts with `name [key]`, and the description follows a label break, unescapes back and has a backslash before every `<`/`>` |
| Text.EscapeRoundTrip | src/domain/node.py:36 | the `<`/`>` escaping loses nothing |
| Text.EscapeMarksBrackets | src/domain/node.py:36 | after escaping, every `<` and `>` has a backslash right before it |
| DomainDiagram.Diagram.constructor | src/domain/diagram.py:6-10 | no nodes, no relations, no stylesheets |
| DomainDiagram.Diagram.AddNode | src/domain/diagram.py:12-13 | the node goes under its key, other keys keep theirs; an existing key keeps its place in the order, a new one goes last; relations and stylesheets untouched |
| DomainDiagram.Diagram.AddRelation | src/domain/diagram.py:15-16 | the relation is appended; nodes and order untouched |
| DomainDiagram.Diagram.Values | src/domain/diagram.py:7 | `nodes.values()` in insertion order, each under its own key |
| GraphvizRenderer.EnterGroup | src/renderer/graphviz_renderer.py:42-43 | creating a missing group never changes an existing one |
| GraphvizRenderer.WalkGroup | src/renderer/graphviz_renderer.py:38-45 | `find_or_create_cluster_path` changes no group's members or metadata |
| GraphvizRenderer.PlaceGroup | src/renderer/graphviz_renderer.py:48-67 | placing a node appends it to its own group only, which takes it as metadata node only when it has none |
| GraphvizRenderer.BuildGroups | src/renderer/graphviz_renderer.py:48-67 | a group's members are the nodes placed directly in it, in node order, and its metadata node is the first of them |
| GraphvizRenderer.EnterPaths | src/renderer/graphviz_renderer.py:42-43 | entering adds exactly the entered group |
| GraphvizRenderer.WalkPaths | src/renderer/graphviz_renderer.py:38-45 | walking a path adds exactly its prefixes |
| GraphvizRenderer.PlacePaths | src/renderer/graphviz_renderer.py:49-60 | placing a clustered node adds exactly the prefixes of its full path |
| GraphvizRenderer.BuildPaths | src/renderer/graphviz_renderer.py:48-67 | the groups are exactly the prefixes of the clustered nodes' full paths |
| GraphvizRenderer.PlaceKeeps | src/renderer/graphviz_renderer.py:42-67 | building only adds: groups, members, metadata nodes and level orders are never replaced |
| GraphvizRenderer.EnterLevels | src/renderer/graphviz_renderer.py:42-43 | entering only extends level orders |
| GraphvizRenderer.WalkLevels | src/renderer/graphviz_renderer.py:38-45 | walking only extends level orders |
| GraphvizRenderer.EnterMatch | src/renderer/graphviz_renderer.py:42-43 | entering keeps each level listing exactly its child groups, without repetition |
| GraphvizRenderer.WalkMatch | src/renderer/graphviz_renderer.py:38-45 | walking keeps the levels matching the groups |
| GraphvizRenderer.PlaceMatch | src/renderer/graphviz_renderer.py:48-67 | placing keeps the levels matching the groups |
| GraphvizRenderer.BuildMatch | src/renderer/graphviz_renderer.py:36-67 | every level of the built hierarchy lists exactly its child groups, each once |
| GraphvizRenderer.BuildRooted | src/renderer/graphviz_renderer.py:36-67 | every group hangs from the top level through its enclosing groups |
| GraphvizRenderer.ClusterHierarchy.constructor | src/renderer/graphviz_renderer.py:36 | the hierarchy starts empty |
| GraphvizRenderer.ClusterHierarchy.FindOrCreatePath | src/renderer/graphviz_renderer.py:38-45 | the loop leaves the hierarchy `Walk` gives |
| GraphvizRenderer.ClusterHierarchy.AddNode | src/renderer/graphviz_renderer.py:49-67 | one populate turn leaves the hierarchy `Place` gives |
| GraphvizRenderer.BuildHierarchy | src/renderer/graphviz_renderer.py:36-67 | the populate loop over a valid diagram's nodes, in insertion order, leaves the hierarchy `Build` gives for their fields |
| GraphvizRenderer.PlaceAll | src/renderer/graphviz_renderer.py:48-67 | placing a sequence of nodes one after the other leaves the hierarchy `Build` gives for their fields |
| Text.IndexOf | src/renderer/graphviz_renderer.py:72 | the `enumerate` index of a group name at its level: its first position, holding that name |
| GraphvizRenderer.IdOf | src/renderer/graphviz_renderer.py:73 | an id is never empty |
| GraphvizRenderer.IndexPath | src/renderer/graphviz_renderer.py:70-100 | one index per enclosing level |
| GraphvizRenderer.TopLevelId | src/renderer/graphviz_renderer.py:70-73 | the i-th top-level group has id `c_i` |
| GraphvizRenderer.ChildId | src/renderer/graphviz_renderer.py:70-100 | the i-th child of a group has the group's id, `_` and i |
| GraphvizRenderer.IndexOfDistinct | src/renderer/graphviz_renderer.py:72 | in a level without repeats the i-th name has index i |
| GraphvizRenderer.SplitId | src/renderer/graphviz_renderer.py:73 | an id ending in `_` and digits splits back uniquely |
| GraphvizRenderer.IdOfInjective | src/renderer/graphviz_renderer.py:73-100 | different index paths give different ids |
| GraphvizRenderer.IndexPathInjective | src/renderer/graphviz_renderer.py:70-100 | different groups have different index paths |
| GraphvizRenderer.GroupIdsDistinct | src/renderer/graphviz_renderer.py:70-100 | no two groups share a cluster id |
| GraphvizRenderer.NormalizeColorFacts | src/renderer/graphviz_renderer.py:84-87 | the colour starts with `#`, added only when missing; normalising is idempotent |
| GraphvizRenderer.ColorFallbacks | src/renderer/graphviz_renderer.py:84-110 | a group gets a colour exactly when one is set, always `#`-prefixed; a node's fill colour is its own when set, never empty |
| GraphvizRenderer.InjectPlacement | src/renderer/graphviz_renderer.py:142-150 | the style tag goes right after the first `>` after the first `<svg`, and removing it gives back the SVG |
| GraphvizRenderer.InjectUnchanged | src/renderer/graphviz_renderer.py:142-150 | without a stylesheet, without `<svg`, or without `>` after it, the SVG is unchanged |
| Text.Find | src/renderer/graphviz_renderer.py:146-148 | `str.find`: the first occurrence at or after the start, or none |
| Text.SplitJoin | src/parser/markdown_parser.py:44 | splitting a join on a separator the parts lack gives back the parts |
| Text.TrimFacts | src/parser/markdown_parser.py:66 | `strip` removes exactly the leading and trailing run of the given characters |
| Text.MissingCharNotContained | src/parser/markdown_parser.py:46-70 | `keyword in opt` is false when `opt` lacks one of the keyword's letters |
| Text.MissingPairNotContained | src/parser/markdown_parser.py:62 | `keyword in opt` is false when two neighbouring letters of the keyword never stand side by side in `opt` |
| Text.ContainsPast | src/parser/markdown_parser.py:46-70 | `keyword in` a line is unchanged by text in front that lacks the keyword's first letter |
| Text.NatToStringRoundTrip | src/renderer/graphviz_renderer.py:73 | the decimal digits of an index read back as the index |
| LegacyNode.LabelReadBack | src/parser/node.py:15-18 | the label starts with the unescaped `name [key]` and Variables heading; between the headings the cells read back as their entries joined by label breaks, or `(None)` when empty; neither cell holds a `<`/`>` without a backslash before it |
| LegacyNode.EmptyFunctionsTail | src/parser/node.py:17-18 | without functions the label still ends with the Functions cell showing `(None)` |
| LegacyNode.Node.constructor | src/parser/node.py:2-7 | no variables, no functions, no colour |
| LegacyNode.Node.AddVariable | src/parser/node.py:9-10 | one variable more at the end, nothing else changes |
| LegacyNode.Node.AddFunction | src/parser/node.py:12-13 | one function more at the end, nothing else changes |
| LegacyNode.Node.ToGraphviz | src/parser/node.py:15-18 | the label is `Label` of the node's name, key and entries, so `LabelReadBack` reads each cell of it back; it starts with the name and key and ends with the Functions cell, `(None)` when there are no functions |
| LegacyDiagram.Diagram.constructor | src/parser/diagram.py:7-12 | the options given, or none; no nodes, no relations |
| LegacyDiagram.Diagram.AddNode | src/parser/diagram.py:14-15 | the node goes under its key, replacing an earlier one; relations and options untouched |
| LegacyDiagram.Diagram.AddRelation | src/parser/diagram.py:18-19 | the triple is appended; nodes and options untouched |

## Left out

- The block regular expression (src/parser/markdown_parser.py:29-37) is not modelled. Its `re.findall` result is the input `Source.blocks`: six captured strings per block, `""` for a group that did not take part.
- The two stylesheet searches (src/parser/markdown_parser.py:18, 23) are likewise inputs: the first capture of each, if any. The model never assumes they exclude each other. A multi-line stylesheet block can also feed the single-line form, because `\s+` crosses a line feed.
- `\w`, `\s`, `str.strip()` and `str.isspace()` are ASCII here. Python's are Unicode-aware: `strip()` also removes Unicode whitespace such as U+00A0, which `Text.Strip` keeps.
- All Graphviz library calls are foreign code and are left out. That covers `Digraph`, `attr`, `subgraph`, `node`, `edge`, `pipe` and `render`, including the legacy `Diagram.render`. So are the graph attribute defaults and the per-node and per-edge keyword arguments passed to them.
- The renderer's colour choices are modelled as the values it passes (`GroupColor`, `FillColor`), not as Graphviz calls.
- Resolving the external stylesheet path to a file URI depends on the file system, and writing the SVG file is I/O. Both are left out.
- `get_dot` repeats `render_diagram`'s hierarchy and cluster-id logic line for line. It is modelled once.
- The `print` calls of the legacy Diagram are console output and are left out.
- `main.py` is command-line and file I/O glue and is left out.
- MarkdownParser.AddLineRelations: the source sets `arrowhead`/`arrowtail` on a TO/FROM relation after appending it. The shared object makes the change visible in the list. Here relations are values, so both fields are computed before the append, which gives the same final list.
- GraphvizRenderer.ClusterHierarchy.AddNode: it takes a node's field values rather than the object. Groups record their members and metadata node by node key, so node identity and aliasing are not modelled.
- The legacy Diagram's `nodes` dict is a map without its insertion order. Only the left-out `render` iterates it.
- The legacy Diagram's `options` are a map from strings to strings.

## Where the code differs from its documented behaviour

Each difference below is modelled twice: the code as written, which the parser uses, and the documented rule, with a lemma saying where the two agree and where they part.

- **DESC quotes.** A description that is a single quote character counts as both starting and ending with it, so `desc[1:-1]` leaves it empty (src/parser/markdown_parser.py:67-68).
  - As written: `MarkdownParser.Unquote`; the third clause of `ParserFacts.UnquoteFacts` states the lone-quote case.
  - Documented: `ParserFacts.UnquotePair` removes a pair only from two or more characters. `ParserFacts.UnquoteAgrees` proves the two equal on every description except a lone `"` or `'`, which `Unquote` empties and `UnquotePair` keeps. `ParserFacts.UnquotePairQuoted` shows the documented rule also returns quoted text unchanged.
- **Cluster style attributes.** The documented behaviour takes them from the bracketed part only. The code takes them from every `name=value` in the whole CLUSTER line (src/parser/markdown_parser.py:83).
  - As written: `MarkdownParser.WithCluster` over `AttributeTokenizer.Attributes` of the line. `ParserFacts.ClusterAttributesFromWholeLine` shows that `CLUSTER style=dashed` sets the cluster style although it has no brackets, and the same text is also taken as the cluster's name.
  - Documented: `ParserFacts.ClusterListAttributes` reads only the text after the first `[`. `ParserFacts.ClusterListAgrees` proves both rules give the list's dict on every bracketed `CLUSTER A>B [k=v, ...]` option and its `### OPT` line. `ParserFacts.ClusterListUnbracketed` proves they part on `CLUSTER style=dashed`: no attributes under the documented rule, `style=dashed` under the code.
