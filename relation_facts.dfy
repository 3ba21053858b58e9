/** What the relation lines of a block (src/parser/markdown_parser.py, lines 110-160)
    produce: which relations a line adds, where the arrow attributes go, and that the
    `- TO [key] {label}` syntax is read back as written. */
module RelationFacts {
  import opened Optional
  import opened Text
  import Patterns
  import opened AttributeTokenizer
  import opened DomainNode
  import opened DomainRelation
  import opened MarkdownParser

  /** A relation with the line's `style`, `color` and `class` attributes and the given
      arrows. */
  function Edge(source: string, target: string, text: string, attrs: map<string, string>,
                head: Option<string>, tail: Option<string>): (r: Relation)
    ensures r.sourceKey == source && r.targetKey == target && r.text == text
    ensures r.arrowhead == head && r.arrowtail == tail && r.dir.None?
  {
    Styled(NewRelation(source, target, text), attrs).(arrowhead := head, arrowtail := tail)
  }

  /** The tokenizer yields no empty value, so an attribute is truthy exactly when it is
      present. */
  lemma TruthyGet(attrs: map<string, string>, k: string)
    requires forall n :: n in attrs ==> IsValue(attrs[n])
    ensures Truthy(Get(attrs, k)) <==> k in attrs
  {
  }

  /** The relations of one line with a target. A `- TO` line adds the edge from the
      block's node to the target with the line's `arrowhead` and `arrowtail`; a
      `- FROM` line adds the reversed edge, whose head is the line's `arrowtail` and
      whose tail is its `arrowhead`; a `- BI` line adds both edges without arrows; any
      other line adds none. The label and the styling are the line's in every case:
      the source's truthiness tests on the arrow attributes never skip a present one. */
  lemma EdgesCases(key: string, target: string, text: string, attrs: map<string, string>, head: string)
    requires forall n :: n in attrs ==> IsValue(attrs[n])
    ensures var ah, at := Get(attrs, "arrowhead"), Get(attrs, "arrowtail");
            && (StartsWith(head, "- TO") ==>
                  Edges(key, target, text, attrs, head) == [Edge(key, target, text, attrs, ah, at)])
            && (StartsWith(head, "- FROM") ==>
                  Edges(key, target, text, attrs, head) == [Edge(target, key, text, attrs, at, ah)])
            && (StartsWith(head, "- BI") ==>
                  Edges(key, target, text, attrs, head) == [Edge(key, target, text, attrs, None, None),
                                                           Edge(target, key, text, attrs, None, None)])
            && (!StartsWith(head, "- TO") && !StartsWith(head, "- FROM") && !StartsWith(head, "- BI") ==>
                  Edges(key, target, text, attrs, head) == [])
  {
    TruthyGet(attrs, "arrowhead");
    TruthyGet(attrs, "arrowtail");
    if StartsWith(head, "- FROM") {
      assert !StartsWith(head, "- TO") by {
        assert head[2] == 'F';
      }
    }
    if StartsWith(head, "- BI") {
      assert head[2] == 'B';
      assert !StartsWith(head, "- TO") && !StartsWith(head, "- FROM");
    }
  }

  /** Every relation of a line joins the block's node and the line's target, and
      carries the line's label and styling attributes. */
  lemma LineRelationsEnds(key: string, line: string)
    ensures forall r :: r in LineRelations(key, line) ==>
              && !IsBlank(line) && Target(line).Some?
              && {r.sourceKey, r.targetKey} == {key, Target(line).value}
              && r.text == Label(line)
              && r.style == Get(Attributes(line), "style")
              && r.color == Get(Attributes(line), "color")
              && r.cssClass == Get(Attributes(line), "class")
  {
    if !IsBlank(line) && Target(line).Some? {
      EdgesCases(key, Target(line).value, Label(line), Attributes(line), Strip(line));
    }
  }

  // ---- Reading back `- DIR [target] {label}` lines ----

  /** The three direction words a relation line starts with. */
  predicate IsDirection(dir: string) {
    dir == "TO" || dir == "FROM" || dir == "BI"
  }

  /** A label that the lazy `{(.*?)}` captures whole and that holds no attribute. */
  predicate IsLabel(text: string) {
    '}' !in text && '\n' !in text && '=' !in text
  }

  /** `- DIR [target] {label}` */
  function RelationLine(dir: string, target: string, text: string): string {
    "- " + dir + " [" + target + "] {" + text + "}"
  }

  /** A pattern that starts with its opening character is found at the first
      occurrence of that character. */
  lemma SearchPast(p: Patterns.Pattern, open: char, pre: string, post: string)
    requires (p == Patterns.Braced && open == '{') || (p == Patterns.Bracketed && open == '[')
    requires open !in pre && Patterns.MatchAt(p, post).Some?
    ensures Patterns.Search(p, pre + post) == Patterns.MatchAt(p, post)
  {
    var s := pre + post;
    forall j | 0 <= j < |pre| ensures Patterns.MatchAt(p, s[j..]).None? {
      assert s[j..][0] == pre[j];
    }
    assert s[|pre|..] == post;
    Patterns.SearchAfter(p, s, |pre|);
  }

  /** `[target]` followed by anything. */
  lemma BracketedAt(target: string, rest: string)
    requires IsName(target)
    ensures Patterns.MatchAt(Patterns.Bracketed, "[" + target + "]" + rest) == Some(target)
  {
    var s := "[" + target + "]" + rest;
    assert s[1..] == target + ("]" + rest);
    SpanOfRun(target, "]" + rest, Word);
    assert s[1..1 + |target|] == target;
  }

  /** `{text}` followed by anything. */
  lemma BracedAt(text: string, rest: string)
    requires '}' !in text && '\n' !in text
    ensures Patterns.MatchAt(Patterns.Braced, "{" + text + "}" + rest) == Some(text)
  {
    var s := "{" + text + "}" + rest;
    assert s[1..] == text + ("}" + rest);
    assert All(text, NoneOf({'}', '\n'}));
    SpanOfRun(text, "}" + rest, NoneOf({'}', '\n'}));
    assert s[1..1 + |text|] == text;
  }

  /** `- DIR [target] {label} [k1=v1, k2=v2, ...]` */
  function AttributedLine(dir: string, target: string, text: string, pairs: seq<(string, string)>): string {
    RelationLine(dir, target, text) + " [" + Serialize(pairs, ", ") + "]"
  }

  /** The target of `- DIR [target] {label}`, whatever follows the label. */
  lemma LineTarget(dir: string, target: string, text: string, suffix: string)
    requires IsDirection(dir) && IsName(target)
    ensures Target(RelationLine(dir, target, text) + suffix) == Some(target)
  {
    var pre, post := "- " + dir + " ", "[" + target + "] {" + text + "}" + suffix;
    assert RelationLine(dir, target, text) + suffix == pre + post;
    assert '[' !in pre by {
      assert forall i :: 0 <= i < |dir| ==> dir[i] in "TOFRMBI";
    }
    var rest := " {" + text + "}" + suffix;
    BracketedAt(target, rest);
    assert post == "[" + target + "]" + rest;
    SearchPast(Patterns.Bracketed, '[', pre, post);
  }

  /** The label of `- DIR [target] {label}`, whatever follows it. */
  lemma LineLabel(dir: string, target: string, text: string, suffix: string)
    requires IsDirection(dir) && IsName(target) && IsLabel(text)
    ensures Label(RelationLine(dir, target, text) + suffix) == text
  {
    var pre, post := "- " + dir + " [" + target + "] ", "{" + text + "}" + suffix;
    assert RelationLine(dir, target, text) + suffix == pre + post;
    assert '{' !in pre by {
      assert forall i :: 0 <= i < |target| ==> IsWordChar(target[i]);
    }
    BracedAt(text, suffix);
    SearchPast(Patterns.Braced, '{', pre, post);
  }

  lemma LineAttributes(dir: string, target: string, text: string)
    requires IsDirection(dir) && IsName(target) && IsLabel(text)
    ensures Attributes(RelationLine(dir, target, text)) == map[]
  {
    var line := RelationLine(dir, target, text);
    LineHasNoEquals(dir, target, text);
    NoEqualsNoMatches(line);
  }

  /** The attributes of a line with a list in brackets after the label are the list's. */
  lemma ListedAttributes(dir: string, target: string, text: string, pairs: seq<(string, string)>)
    requires IsDirection(dir) && IsName(target) && IsLabel(text) && WellFormed(pairs)
    ensures Attributes(AttributedLine(dir, target, text, pairs)) == AttrMap(pairs)
  {
    var pre := RelationLine(dir, target, text) + " [";
    LineHasNoEquals(dir, target, text);
    assert '=' !in pre;
    CommaSeparators(",", ", ");
    TokenizeSerialized(pre, pairs, ", ", "]");
  }

  lemma LineHasNoEquals(dir: string, target: string, text: string)
    requires IsDirection(dir) && IsName(target) && IsLabel(text)
    ensures '=' !in RelationLine(dir, target, text)
  {
    assert forall i :: 0 <= i < |target| ==> IsWordChar(target[i]);
  }

  /** A relation line, followed by nothing or by text that ends in a non-blank, is not
      blank, strips to itself and starts with `- DIR`. */
  lemma LineStripped(dir: string, target: string, text: string, suffix: string)
    requires IsDirection(dir)
    requires suffix == [] || !IsSpace(suffix[|suffix| - 1])
    ensures var line := RelationLine(dir, target, text) + suffix;
            !IsBlank(line) && Strip(line) == line && StartsWith(line, "- " + dir)
  {
    var line := RelationLine(dir, target, text) + suffix;
    assert line[0] == '-' && !IsSpace(line[|line| - 1]);
    BlankIsAllSpace(line);
    TrimNothing(line, Blank);
    assert line[..|"- " + dir|] == "- " + dir;
  }

  /** The relations a `- DIR [target] {label}` line stands for: the edge from the
      block's node to the target for TO, the reversed edge for FROM, both for BI. */
  function Written(key: string, dir: string, target: string, text: string): seq<Relation> {
    if dir == "TO" then [NewRelation(key, target, text)]
    else if dir == "FROM" then [NewRelation(target, key, text)]
    else [NewRelation(key, target, text), NewRelation(target, key, text)]
  }

  /** Round trip of the relation syntax: the line is read back as the relations it was
      written for, with the label and no styling. */
  lemma RelationLineRoundTrip(key: string, dir: string, target: string, text: string)
    requires IsDirection(dir) && IsName(target) && IsLabel(text)
    ensures LineRelations(key, RelationLine(dir, target, text)) == Written(key, dir, target, text)
  {
    LineEdges(key, dir, target, text, "");
    assert RelationLine(dir, target, text) + "" == RelationLine(dir, target, text);
    LineAttributes(dir, target, text);
    WrittenEdges(key, dir, target, text);
  }

  lemma WrittenEdges(key: string, dir: string, target: string, text: string)
    requires IsDirection(dir)
    ensures Edges(key, target, text, map[], RelationLine(dir, target, text)) == Written(key, dir, target, text)
  {
    var line := RelationLine(dir, target, text);
    LineStripped(dir, target, text, "");
    assert line + "" == line;
    EdgesCases(key, target, text, map[], line);
    HeadDirection(dir, line);
    BareEdge(key, target, text);
    BareEdge(target, key, text);
  }

  /** The relation line's target, label and attributes, as `LineRelations` reads them,
      whatever follows the label as long as the line still ends in a non-blank. */
  lemma LineEdges(key: string, dir: string, target: string, text: string, suffix: string)
    requires IsDirection(dir) && IsName(target) && IsLabel(text)
    requires suffix == [] || !IsSpace(suffix[|suffix| - 1])
    ensures var line := RelationLine(dir, target, text) + suffix;
            LineRelations(key, line) == Edges(key, target, text, Attributes(line), line)
  {
    LineTarget(dir, target, text, suffix);
    LineLabel(dir, target, text, suffix);
    LineStripped(dir, target, text, suffix);
  }

  /** Without attributes an edge is a plain new relation. */
  lemma BareEdge(source: string, target: string, text: string)
    ensures Edge(source, target, text, map[], None, None) == NewRelation(source, target, text)
  {
  }

  // ---- relation lines with an attribute list ----

  /** A new relation with the last `style`, `color` and `class` of `pairs` and the given
      arrows. */
  function Dressed(r: Relation, pairs: seq<(string, string)>, head: Option<string>, tail: Option<string>): Relation {
    r.(style := LastValue(pairs, "style"), color := LastValue(pairs, "color"),
       cssClass := LastValue(pairs, "class"), arrowhead := head, arrowtail := tail)
  }

  /** The relations `- DIR [target] {label} [pairs]` stands for: those of the plain line,
      styled by the list's last `style`, `color` and `class`; a TO edge takes the list's
      last `arrowhead` and `arrowtail`, a FROM edge the two swapped, BI edges neither. */
  function WrittenStyled(key: string, dir: string, target: string, text: string,
                         pairs: seq<(string, string)>): seq<Relation> {
    var ah, at := LastValue(pairs, "arrowhead"), LastValue(pairs, "arrowtail");
    if dir == "TO" then [Dressed(NewRelation(key, target, text), pairs, ah, at)]
    else if dir == "FROM" then [Dressed(NewRelation(target, key, text), pairs, at, ah)]
    else [Dressed(NewRelation(key, target, text), pairs, None, None),
          Dressed(NewRelation(target, key, text), pairs, None, None)]
  }

  /** Round trip of the relation syntax with attributes: `- DIR [target] {label}
      [k1=v1, k2=v2, ...]` has the list's attributes and is read back as the relations
      written, styled and with arrows as the list says. */
  lemma AttributedLineRoundTrip(key: string, dir: string, target: string, text: string,
                                pairs: seq<(string, string)>)
    requires IsDirection(dir) && IsName(target) && IsLabel(text) && WellFormed(pairs)
    ensures Attributes(AttributedLine(dir, target, text, pairs)) == AttrMap(pairs)
    ensures LineRelations(key, AttributedLine(dir, target, text, pairs))
            == WrittenStyled(key, dir, target, text, pairs)
  {
    var line := AttributedLine(dir, target, text, pairs);
    var suffix := " [" + Serialize(pairs, ", ") + "]";
    AttributedLineParts(dir, target, text, pairs, suffix);
    LineEdges(key, dir, target, text, suffix);
    ListedAttributes(dir, target, text, pairs);
    ListedEdges(key, dir, target, text, pairs, line);
  }

  /** The line is the plain relation line followed by the bracketed list. */
  lemma AttributedLineParts(dir: string, target: string, text: string, pairs: seq<(string, string)>,
                            suffix: string)
    requires suffix == " [" + Serialize(pairs, ", ") + "]"
    ensures AttributedLine(dir, target, text, pairs) == RelationLine(dir, target, text) + suffix
    ensures suffix != [] && !IsSpace(suffix[|suffix| - 1])
  {
    var plain, list := RelationLine(dir, target, text), Serialize(pairs, ", ");
    Regroup(plain, " [", list);
    Regroup(plain, " [" + list, "]");
  }

  /** The edges of the line, read with the list's attributes. */
  lemma ListedEdges(key: string, dir: string, target: string, text: string,
                    pairs: seq<(string, string)>, line: string)
    requires IsDirection(dir) && WellFormed(pairs)
    requires StartsWith(line, "- " + dir)
    ensures Edges(key, target, text, AttrMap(pairs), line) == WrittenStyled(key, dir, target, text, pairs)
  {
    var attrs := AttrMap(pairs);
    AttrMapValues(pairs);
    EdgesCases(key, target, text, attrs, line);
    HeadDirection(dir, line);
    DressedEdge(key, target, text, pairs);
    DressedEdge(target, key, text, pairs);
  }

  /** The values of a well-formed list's mapping are values the tokenizer can yield. */
  lemma AttrMapValues(pairs: seq<(string, string)>)
    requires WellFormed(pairs)
    ensures forall n :: n in AttrMap(pairs) ==> IsValue(AttrMap(pairs)[n])
  {
    forall n | n in AttrMap(pairs) ensures IsValue(AttrMap(pairs)[n]) {
      LastValueFrom(pairs, n);
    }
  }

  /** A line that starts with `- DIR` starts with no other direction. */
  lemma HeadDirection(dir: string, line: string)
    requires IsDirection(dir) && StartsWith(line, "- " + dir)
    ensures StartsWith(line, "- TO") <==> dir == "TO"
    ensures StartsWith(line, "- FROM") <==> dir == "FROM"
    ensures StartsWith(line, "- BI") <==> dir == "BI"
  {
    assert line[2] == dir[0];
  }

  /** An edge styled by the mapping of a list is that list's dressing of a new relation. */
  lemma DressedEdge(source: string, target: string, text: string, pairs: seq<(string, string)>)
    ensures var attrs := AttrMap(pairs);
            forall head, tail :: Edge(source, target, text, attrs, head, tail)
                                 == Dressed(NewRelation(source, target, text), pairs, head, tail)
    ensures Get(AttrMap(pairs), "arrowhead") == LastValue(pairs, "arrowhead")
    ensures Get(AttrMap(pairs), "arrowtail") == LastValue(pairs, "arrowtail")
  {
  }

  /** `- TO [target] {label} [style=dashed, arrowhead=vee]` adds one dashed edge from the
      block's node to the target, with a `vee` arrowhead and nothing else styled. */
  lemma DashedVeeLine(key: string, target: string, text: string, pairs: seq<(string, string)>)
    requires IsName(target) && IsLabel(text)
    requires pairs == [("style", "dashed"), ("arrowhead", "vee")]
    ensures LineRelations(key, AttributedLine("TO", target, text, pairs))
            == [NewRelation(key, target, text).(style := Some("dashed"), arrowhead := Some("vee"))]
  {
    DashedVeeValues(pairs);
    AttributedLineRoundTrip(key, "TO", target, text, pairs);
  }

  lemma DashedVeeValues(pairs: seq<(string, string)>)
    requires pairs == [("style", "dashed"), ("arrowhead", "vee")]
    ensures WellFormed(pairs)
    ensures LastValue(pairs, "style") == Some("dashed") && LastValue(pairs, "arrowhead") == Some("vee")
    ensures LastValue(pairs, "color").None? && LastValue(pairs, "class").None?
    ensures LastValue(pairs, "arrowtail").None?
  {
    assert pairs[..1] == [("style", "dashed")];
    assert "color"[0] != "style"[0] && "class"[0] != "style"[0];
    assert "arrowtail"[5] != "arrowhead"[5];
    UnnamedKey(pairs, "color");
    UnnamedKey(pairs, "class");
    UnnamedKey(pairs, "arrowtail");
  }

  lemma UnnamedKey(pairs: seq<(string, string)>, k: string)
    requires pairs == [("style", "dashed"), ("arrowhead", "vee")]
    requires k != "style" && k != "arrowhead"
    ensures LastValue(pairs, k).None?
  {
    var first := pairs[..1];
    assert first == [("style", "dashed")] && first[..0] == [];
    assert LastValue(pairs, k) == LastValue(first, k);
    assert LastValue(first, k) == LastValue([], k);
  }
}
