/** What src/parser/markdown_parser.py promises about single option, entry and relation
    lines, proved about the functions of `MarkdownParser`. */
module ParserFacts {
  import opened Optional
  import opened Text
  import opened Patterns
  import opened AttributeTokenizer
  import opened DomainNode
  import opened DomainRelation
  import opened MarkdownParser

  // ---------------------------------------------------------------- option lines

  /** A COLOR option with six hex digits after the keyword and a blank sets the colour
      to `#` and those digits, whatever follows them, and so does its option line. */
  lemma ColorLine(info: Style, hex: string, rest: string)
    requires |hex| == 6 && All(hex, HexDigit)
    ensures ColorValue("COLOR " + hex + rest) == Some("#" + hex)
    ensures WithOption(info, OptionLine("COLOR " + hex + rest)).color == Some("#" + hex)
  {
    var s := "COLOR " + hex + rest;
    var t := " " + hex + rest;
    assert s == "COLOR" + t && s[|"COLOR"|..] == t;
    assert t[1] == hex[0];
    SpanOfRun(" ", hex + rest, Blank);
    assert t[1..] == hex + rest && (hex + rest)[..6] == hex;
    assert Backtrack(Hex6, t, 1) == Some(hex);
    assert Patterns.MatchAt(ColorPattern, s) == Some(hex);
    SearchAtStart(ColorPattern, s);
    assert StartsWith(s, "COLOR");
    OptionLineEffect(info, s);
  }

  /** Whatever the line, a colour it sets is `#` followed by exactly six hex digits. */
  lemma ColorValueShape(opt: string)
    requires ColorValue(opt).Some?
    ensures |ColorValue(opt).value| == 7 && ColorValue(opt).value[0] == '#'
    ensures All(ColorValue(opt).value[1..], HexDigit)
  {
    var hex := Search(ColorPattern, opt).value;
    CaptureShape("COLOR", Hex6, opt, hex);
    assert ColorValue(opt).value[1..] == hex;
  }

  /** What each keyword pattern captures: six hex digits, an `http://` or `https://`
      address without blanks, a run of word characters, or a non-empty piece of text
      without a line feed or without `[`. */
  lemma CaptureShape(keyword: string, arg: Arg, s: string, c: string)
    requires Search(Keyword(keyword, arg), s) == Some(c)
    ensures arg == Hex6 ==> |c| == 6 && All(c, HexDigit)
    ensures arg == Url ==> ((StartsWith(c, "https://") && |c| > 8) || (StartsWith(c, "http://") && |c| > 7))
                           && All(c, NonBlank)
    ensures arg == WordRun ==> |c| >= 1 && All(c, Word)
    ensures arg == RestOfLine ==> |c| >= 1 && '\n' !in c
    ensures arg == UpToBracket ==> |c| >= 1 && '[' !in c
  {
    var p := Keyword(keyword, arg);
    SearchFacts(p, s);
    var i :| 0 <= i <= |s| && Patterns.MatchAt(p, s[i..]) == Some(c);
    var t := s[i..][|keyword|..];
    ArgAtIsTail(arg, t);
    var k :| 1 <= k <= |t| && ArgAt(arg, t) == TailAt(arg, t[k..]);
    TailShape(arg, t[k..]);
  }

  /** `desc[1:-1]` removes one pair of matching quotes, and only a matching pair; a
      lone quote character starts and ends the text at once, so nothing is left. */
  lemma UnquoteFacts(d: string)
    ensures |d| >= 2 && d[0] == d[|d| - 1] && (d[0] == '"' || d[0] == '\'') ==> Unquote(d) == d[1..|d| - 1]
    ensures (d == [] || !((d[0] == '"' && d[|d| - 1] == '"') || (d[0] == '\'' && d[|d| - 1] == '\'')))
            ==> Unquote(d) == d
    ensures |d| == 1 && (d[0] == '"' || d[0] == '\'') ==> Unquote(d) == ""
  {
  }

  /** Quoting and unquoting: text wrapped in one kind of quote comes back as it was. */
  lemma UnquoteQuoted(x: string, q: char)
    requires q == '"' || q == '\''
    ensures Unquote([q] + x + [q]) == x
  {
    var d := [q] + x + [q];
    assert d[1..|d| - 1] == x;
  }

  /** The documented DESC rule: one pair of matching quotes is removed, and only a pair,
      so a lone quote character stays. */
  function UnquotePair(d: string): (r: string)
    ensures |r| == |d| || |r| == |d| - 2
  {
    if |d| >= 2 && ((d[0] == '"' && d[|d| - 1] == '"') || (d[0] == '\'' && d[|d| - 1] == '\'')) then
      d[1..|d| - 1]
    else d
  }

  /** The code's `desc[1:-1]` and the documented rule agree on every text except a lone
      quote character, which the code empties and the documented rule keeps. */
  lemma UnquoteAgrees(d: string)
    ensures !(|d| == 1 && (d[0] == '"' || d[0] == '\'')) ==> Unquote(d) == UnquotePair(d)
    ensures |d| == 1 && (d[0] == '"' || d[0] == '\'') ==> Unquote(d) == "" && UnquotePair(d) == d
  {
  }

  /** Under the documented rule too, quoted text comes back as it was. */
  lemma UnquotePairQuoted(x: string, q: char)
    requires q == '"' || q == '\''
    ensures UnquotePair([q] + x + [q]) == x
  {
    var d := [q] + x + [q];
    assert d[1..|d| - 1] == x;
  }

  /** The keywords an option line is tested for before DESC. */
  predicate NoKeywordBeforeDesc(opt: string) {
    !Contains(opt, "COLOR") && !Contains(opt, "IMAGE") && !Contains(opt, "SHAPE") && !Contains(opt, "CLASS")
  }

  /** A DESC option whose text follows the keyword and one blank: the description is
      that text trimmed and unquoted, and its option line sets it when no keyword tested
      before DESC occurs. */
  lemma DescLine(info: Style, d: string)
    requires d != [] && '\n' !in d && !IsSpace(d[0])
    ensures DescValue("DESC " + d) == Some(Unquote(Strip(d)))
    ensures NoKeywordBeforeDesc("DESC " + d) ==>
              WithOption(info, OptionLine("DESC " + d)).description == Some(Unquote(Strip(d)))
  {
    var s := "DESC " + d;
    var t := " " + d;
    assert s == "DESC" + t && s[|"DESC"|..] == t;
    assert '\n' !in t by {
      assert forall i :: 1 <= i < |t| ==> t[i] == d[i - 1];
    }
    assert t[1] == d[0];
    SpanOfRun(" ", d, Blank);
    RestOfLineOnALine(t);
    assert t[1..] == d;
    assert Patterns.MatchAt(DescPattern, s) == Some(d);
    SearchAtStart(DescPattern, s);
    assert StartsWith(s, "DESC");
    OptionLineEffect(info, s);
  }

  /** A cluster name as the CLUSTER syntax allows it: not empty, no blank at either end,
      and neither `>` nor `[` inside. */
  predicate ClusterName(n: string) {
    n != [] && !IsSpace(n[0]) && !IsSpace(n[|n| - 1]) && '>' !in n && '[' !in n
  }

  /** Round trip of the CLUSTER syntax: names written with `>` between them, then
      blanks or none, then nothing or a `[...]` attribute list, are read back as the
      same names, from the option and from its option line. */
  lemma ClusterLine(names: seq<string>, gap: string, tail: string)
    requires |names| >= 1 && forall i :: 0 <= i < |names| ==> ClusterName(names[i])
    requires All(gap, Blank)
    requires tail == [] || tail[0] == '['
    ensures ClusterParts("CLUSTER " + Join(names, ">") + gap + tail) == Some(names)
    ensures ClusterParts(OptionLine("CLUSTER " + Join(names, ">") + gap + tail)) == Some(names)
  {
    var joined := Join(names, ">");
    JoinedClusterNames(names, joined);
    var captured := joined + gap;
    NamesThenGap(joined, gap, captured);
    ClusterCapture(captured, tail);
    Regroup("CLUSTER ", joined, gap);
    StrippedNames(names);
    OptionLineReads("CLUSTER " + joined + gap + tail);
  }

  /** The blanks before the bracket are captured with the names and stripped off again. */
  lemma NamesThenGap(joined: string, gap: string, t: string)
    requires joined != [] && !IsSpace(joined[0]) && !IsSpace(joined[|joined| - 1])
    requires '[' !in joined && All(gap, Blank) && t == joined + gap
    ensures t != [] && !IsSpace(t[0]) && '[' !in t && Strip(t) == joined
  {
    TrimExact([], joined, gap, Blank);
    assert [] + joined + gap == joined + gap;
    assert '[' !in gap by {
      forall i | 0 <= i < |gap| ensures gap[i] != '[' {
        assert In(gap[i], Blank);
      }
    }
  }

  /** The keywords an option line is tested for before CLUSTER. */
  predicate NoEarlierKeyword(opt: string) {
    !Contains(opt, "COLOR") && !Contains(opt, "IMAGE") && !Contains(opt, "SHAPE")
    && !Contains(opt, "CLASS") && !Contains(opt, "DESC")
  }

  /** The value the last pair named `k` gives, or `old_` when no pair is named `k`. */
  function Overridden(pairs: seq<(string, string)>, k: string, old_: Option<string>): Option<string> {
    if LastValue(pairs, k).Some? then LastValue(pairs, k) else old_
  }

  /** A CLUSTER option with an attribute list in brackets: the names are read back and
      the attributes are those of the list, from the option and from its option line;
      when no keyword tested before CLUSTER occurs in it, the option line acts as the
      option: the last name becomes the cluster, the names before it the path, and the
      list's last `class`, `style`, `color` and `bgcolor` style the cluster. */
  lemma ClusterLineStyled(info: Style, names: seq<string>, gap: string,
                          pairs: seq<(string, string)>, sep: string)
    requires |names| >= 1 && forall i :: 0 <= i < |names| ==> ClusterName(names[i]) && '=' !in names[i]
    requires All(gap, Blank)
    requires WellFormed(pairs) && Separator(sep)
    ensures var opt := "CLUSTER " + Join(names, ">") + gap + "[" + Serialize(pairs, sep) + "]";
            && ClusterParts(opt) == Some(names) && Attributes(opt) == AttrMap(pairs)
            && ClusterParts(OptionLine(opt)) == Some(names) && Attributes(OptionLine(opt)) == AttrMap(pairs)
    ensures var opt := "CLUSTER " + Join(names, ">") + gap + "[" + Serialize(pairs, sep) + "]";
            var s := WithOption(info, opt);
            NoEarlierKeyword(opt) ==>
              && WithOption(info, OptionLine(opt)) == s
              && s.cluster == Some(names[|names| - 1])
              && s.clusterPath == (if |names| > 1 then names[..|names| - 1] else info.clusterPath)
              && s.clusterClass == Overridden(pairs, "class", info.clusterClass)
              && s.clusterStyle == Overridden(pairs, "style", info.clusterStyle)
              && s.clusterColor == Overridden(pairs, "color", info.clusterColor)
              && s.clusterBgcolor == Overridden(pairs, "bgcolor", info.clusterBgcolor)
  {
    var list := Serialize(pairs, sep);
    var opt := "CLUSTER " + Join(names, ">") + gap + "[" + list + "]";
    BracketedListNames(names, gap, list);
    BracketedListAttributes(names, gap, pairs, sep);
    BracketedListKeyword(Join(names, ">"), gap, list);
    StyledCluster(info, opt, names, pairs);
  }

  /** The bracketed CLUSTER option starts with its keyword. */
  lemma BracketedListKeyword(joined: string, gap: string, list: string)
    ensures StartsWith("CLUSTER " + joined + gap + "[" + list + "]", "CLUSTER")
  {
    var x := "CLUSTER ";
    assert StartsWith(x, "CLUSTER");
    StartsWithMore(x, joined, "CLUSTER");
    StartsWithMore(x + joined, gap, "CLUSTER");
    StartsWithMore(x + joined + gap, "[", "CLUSTER");
    StartsWithMore(x + joined + gap + "[", list, "CLUSTER");
    StartsWithMore(x + joined + gap + "[" + list, "]", "CLUSTER");
  }

  /** A CLUSTER option that reads as `names` and `pairs`: its option line reads the same,
      and with no earlier keyword in it, places and styles the cluster as they say. */
  lemma StyledCluster(info: Style, opt: string, names: seq<string>, pairs: seq<(string, string)>)
    requires StartsWith(opt, "CLUSTER") && |names| >= 1
    requires ClusterParts(opt) == Some(names) && Attributes(opt) == AttrMap(pairs)
    ensures ClusterParts(OptionLine(opt)) == Some(names) && Attributes(OptionLine(opt)) == AttrMap(pairs)
    ensures var s := WithOption(info, opt);
            NoEarlierKeyword(opt) ==>
              && WithOption(info, OptionLine(opt)) == s
              && s.cluster == Some(names[|names| - 1])
              && s.clusterPath == (if |names| > 1 then names[..|names| - 1] else info.clusterPath)
              && s.clusterClass == Overridden(pairs, "class", info.clusterClass)
              && s.clusterStyle == Overridden(pairs, "style", info.clusterStyle)
              && s.clusterColor == Overridden(pairs, "color", info.clusterColor)
              && s.clusterBgcolor == Overridden(pairs, "bgcolor", info.clusterBgcolor)
  {
    ClusterOptionLine(info, opt);
    if NoEarlierKeyword(opt) {
      ClusterDispatch(info, opt);
      ListStylesCluster(info, names, pairs);
    }
  }

  /** A CLUSTER option line reads and acts as its option. */
  lemma ClusterOptionLine(info: Style, opt: string)
    requires StartsWith(opt, "CLUSTER")
    ensures ClusterParts(OptionLine(opt)) == ClusterParts(opt)
    ensures Attributes(OptionLine(opt)) == Attributes(opt)
    ensures WithOption(info, OptionLine(opt)) == WithOption(info, opt)
  {
    assert opt[0] == 'C';
    OptionLineReads(opt);
    OptionLineEffect(info, opt);
  }

  /** The placement by `names` and the styling by the attributes of `pairs`. */
  lemma ListStylesCluster(info: Style, names: seq<string>, pairs: seq<(string, string)>)
    requires |names| >= 1
    ensures var s := WithCluster(info, Some(names), AttrMap(pairs));
            && s.cluster == Some(names[|names| - 1])
            && s.clusterPath == (if |names| > 1 then names[..|names| - 1] else info.clusterPath)
            && s.clusterClass == Overridden(pairs, "class", info.clusterClass)
            && s.clusterStyle == Overridden(pairs, "style", info.clusterStyle)
            && s.clusterColor == Overridden(pairs, "color", info.clusterColor)
            && s.clusterBgcolor == Overridden(pairs, "bgcolor", info.clusterBgcolor)
  {
    ClusterEffect(info, Some(names), AttrMap(pairs));
  }

  /** What follows the names does not change them. */
  lemma BracketedListNames(names: seq<string>, gap: string, list: string)
    requires |names| >= 1 && forall i :: 0 <= i < |names| ==> ClusterName(names[i])
    requires All(gap, Blank)
    ensures ClusterParts("CLUSTER " + Join(names, ">") + gap + "[" + list + "]") == Some(names)
    ensures ClusterParts(OptionLine("CLUSTER " + Join(names, ">") + gap + "[" + list + "]")) == Some(names)
  {
    var front := "CLUSTER " + Join(names, ">") + gap;
    Regroup(front, "[", list);
    Regroup(front, "[" + list, "]");
    ClusterLine(names, gap, "[" + list + "]");
  }

  /** The words before the bracket add no attribute. */
  lemma BracketedListAttributes(names: seq<string>, gap: string, pairs: seq<(string, string)>, sep: string)
    requires forall i :: 0 <= i < |names| ==> '=' !in names[i]
    requires All(gap, Blank)
    requires WellFormed(pairs) && Separator(sep)
    ensures Attributes("CLUSTER " + Join(names, ">") + gap + "[" + Serialize(pairs, sep) + "]") == AttrMap(pairs)
  {
    var pre := "CLUSTER " + Join(names, ">") + gap + "[";
    assert '=' !in pre by {
      JoinNotIn(names, ">", '=');
      assert forall i :: 0 <= i < |gap| ==> In(gap[i], Blank);
    }
    TokenizeSerialized(pre, pairs, sep, "]");
  }

  /** An example of nested clusters: `CLUSTER Infra>Network>DB [color=blue,style=rounded]`
      puts the node in cluster DB inside Infra and Network, with a blue, rounded
      cluster, and its option line `### OPT CLUSTER ...` does the same. */
  lemma NestedClusterLine(info: Style, opt: string)
    requires opt == "CLUSTER Infra>Network>DB [color=blue,style=rounded]"
    ensures WithOption(info, OptionLine(opt)) == WithOption(info, opt)
    ensures WithOption(info, opt).clusterPath == ["Infra", "Network"]
    ensures WithOption(info, opt).cluster == Some("DB")
    ensures WithOption(info, opt).clusterColor == Some("blue")
    ensures WithOption(info, opt).clusterStyle == Some("rounded")
  {
    var names, gap := ["Infra", "Network", "DB"], " ";
    var pairs, sep := [("color", "blue"), ("style", "rounded")], ",";
    NestedClusterLayout(opt, names, gap, pairs, sep);
    NestedClusterParts(names, gap, pairs, sep);
    NestedClusterKeywords(opt);
    ClusterLineStyled(info, names, gap, pairs, sep);
  }

  lemma NestedClusterLayout(opt: string, names: seq<string>, gap: string,
                         pairs: seq<(string, string)>, sep: string)
    requires opt == "CLUSTER Infra>Network>DB [color=blue,style=rounded]"
    requires names == ["Infra", "Network", "DB"] && gap == " "
    requires pairs == [("color", "blue"), ("style", "rounded")] && sep == ","
    ensures opt == "CLUSTER " + Join(names, ">") + gap + "[" + Serialize(pairs, sep) + "]"
  {
    var joined, written := "Infra>Network>DB", "color=blue,style=rounded";
    NestedClusterJoin(names, joined);
    NestedClusterSerialize(pairs, sep, written);
    NestedClusterConcat(opt, joined, gap, written);
  }

  lemma NestedClusterConcat(opt: string, joined: string, gap: string, written: string)
    requires opt == "CLUSTER Infra>Network>DB [color=blue,style=rounded]"
    requires joined == "Infra>Network>DB" && gap == " " && written == "color=blue,style=rounded"
    ensures opt == "CLUSTER " + joined + gap + "[" + written + "]"
  {
    var front, back := "CLUSTER Infra>Network>DB ", "[color=blue,style=rounded]";
    NestedClusterHalves(opt, front, back);
    NestedClusterFront(front, joined, gap);
    NestedClusterBack(back, written);
    var keyword, open, close := "CLUSTER ", "[", "]";
    assert keyword + joined + gap + open + written + close
        == (keyword + joined + gap) + (open + written + close);
  }

  lemma NestedClusterHalves(opt: string, front: string, back: string)
    requires opt == "CLUSTER Infra>Network>DB [color=blue,style=rounded]"
    requires front == "CLUSTER Infra>Network>DB " && back == "[color=blue,style=rounded]"
    ensures opt == front + back
  {
  }

  lemma NestedClusterFront(front: string, joined: string, gap: string)
    requires front == "CLUSTER Infra>Network>DB " && joined == "Infra>Network>DB" && gap == " "
    ensures front == "CLUSTER " + joined + gap
  {
  }

  lemma NestedClusterBack(back: string, written: string)
    requires back == "[color=blue,style=rounded]" && written == "color=blue,style=rounded"
    ensures back == "[" + written + "]"
  {
  }

  lemma NestedClusterJoin(names: seq<string>, joined: string)
    requires names == ["Infra", "Network", "DB"] && joined == "Infra>Network>DB"
    ensures Join(names, ">") == joined
  {
    assert names[1..] == ["Network", "DB"] && names[1..][1..] == ["DB"];
    assert Join(names[1..], ">") == "Network" + ">" + "DB";
  }

  lemma NestedClusterSerialize(pairs: seq<(string, string)>, sep: string, written: string)
    requires pairs == [("color", "blue"), ("style", "rounded")] && sep == ","
    requires written == "color=blue,style=rounded"
    ensures Serialize(pairs, sep) == written
  {
    assert pairs[1..] == [("style", "rounded")];
  }

  lemma NestedClusterParts(names: seq<string>, gap: string, pairs: seq<(string, string)>, sep: string)
    requires names == ["Infra", "Network", "DB"] && gap == " "
    requires pairs == [("color", "blue"), ("style", "rounded")] && sep == ","
    ensures forall i :: 0 <= i < |names| ==> ClusterName(names[i]) && '=' !in names[i]
    ensures All(gap, Blank) && WellFormed(pairs) && Separator(sep)
    ensures LastValue(pairs, "color") == Some("blue") && LastValue(pairs, "style") == Some("rounded")
    ensures names[..|names| - 1] == ["Infra", "Network"] && names[|names| - 1] == "DB"
  {
    assert pairs[..1] == [("color", "blue")];
  }

  /** Of the keywords tested before CLUSTER, none is in the nested-cluster line. */
  lemma NestedClusterKeywords(opt: string)
    requires opt == "CLUSTER Infra>Network>DB [color=blue,style=rounded]"
    ensures NoEarlierKeyword(opt)
  {
    NestedClusterKeywordAbsent(opt, "COLOR", 1);
    NestedClusterKeywordAbsent(opt, "IMAGE", 1);
    NestedClusterKeywordAbsent(opt, "SHAPE", 1);
    NestedClusterKeywordAbsent(opt, "CLASS", 2);
    NestedClusterDescAbsent(opt, "DESC");
  }

  /** A keyword with one of the letters `O`, `M`, `H`, `A` is not in the line. */
  lemma NestedClusterKeywordAbsent(opt: string, keyword: string, j: nat)
    requires opt == "CLUSTER Infra>Network>DB [color=blue,style=rounded]"
    requires j < |keyword| && keyword[j] in {'O', 'M', 'H', 'A'}
    ensures !Contains(opt, keyword)
  {
    NestedClusterLetters(opt);
    MissingCharNotContained(opt, keyword, j);
  }

  /** The line's only `D` is followed by `B`, so `DESC` is not in it. */
  lemma NestedClusterDescAbsent(opt: string, keyword: string)
    requires opt == "CLUSTER Infra>Network>DB [color=blue,style=rounded]"
    requires keyword == "DESC"
    ensures !Contains(opt, keyword)
  {
    NestedClusterLetters(opt);
    MissingPairNotContained(opt, keyword, 0);
  }

  lemma NestedClusterLetters(opt: string)
    requires opt == "CLUSTER Infra>Network>DB [color=blue,style=rounded]"
    ensures forall i :: 0 <= i < |opt| ==> opt[i] !in {'O', 'M', 'H', 'A'}
    ensures forall i :: 0 <= i < |opt| - 1 ==> opt[i] != 'D' || opt[i + 1] != 'E'
  {
    var a, b, c := "CLUSTER Infra>Ne", "twork>DB [color=", "blue,style=rounded]";
    NestedClusterChunks(opt, a, b, c);
    ChunkLetters(a, b, c);
    LettersOfChunks(opt, a, b, c);
  }

  lemma NestedClusterChunks(opt: string, a: string, b: string, c: string)
    requires opt == "CLUSTER Infra>Network>DB [color=blue,style=rounded]"
    requires a == "CLUSTER Infra>Ne" && b == "twork>DB [color=" && c == "blue,style=rounded]"
    ensures opt == a + b + c
  {
  }

  lemma ChunkLetters(a: string, b: string, c: string)
    requires a == "CLUSTER Infra>Ne" && b == "twork>DB [color=" && c == "blue,style=rounded]"
    ensures forall i :: 0 <= i < |a| ==> a[i] !in {'O', 'M', 'H', 'A', 'D'}
    ensures forall i :: 0 <= i < |b| ==> b[i] !in {'O', 'M', 'H', 'A'}
    ensures forall i :: 0 <= i < |b| - 1 ==> b[i] != 'D' || b[i + 1] != 'E'
    ensures b[|b| - 1] != 'D'
    ensures forall i :: 0 <= i < |c| ==> c[i] !in {'O', 'M', 'H', 'A', 'D'}
  {
  }

  lemma LettersOfChunks(s: string, a: string, b: string, c: string)
    requires s == a + b + c && b != []
    requires forall i :: 0 <= i < |a| ==> a[i] !in {'O', 'M', 'H', 'A', 'D'}
    requires forall i :: 0 <= i < |b| ==> b[i] !in {'O', 'M', 'H', 'A'}
    requires forall i :: 0 <= i < |b| - 1 ==> b[i] != 'D' || b[i + 1] != 'E'
    requires b[|b| - 1] != 'D'
    requires forall i :: 0 <= i < |c| ==> c[i] !in {'O', 'M', 'H', 'A', 'D'}
    ensures forall i :: 0 <= i < |s| ==> s[i] !in {'O', 'M', 'H', 'A'}
    ensures forall i :: 0 <= i < |s| - 1 ==> s[i] != 'D' || s[i + 1] != 'E'
  {
  }

  /** A line that holds CLUSTER and none of the earlier keywords is a CLUSTER line. */
  lemma ClusterDispatch(info: Style, opt: string)
    requires NoEarlierKeyword(opt) && Contains(opt, "CLUSTER")
    ensures WithOption(info, opt) == WithCluster(info, ClusterParts(opt), Attributes(opt))
  {
  }

  /** Names with no blank at either end are their own stripped forms. */
  lemma StrippedNames(names: seq<string>)
    requires forall i :: 0 <= i < |names| ==> ClusterName(names[i])
    ensures StripAll(names) == names
  {
    forall i | 0 <= i < |names| ensures Strip(names[i]) == names[i] {
      TrimNothing(names[i], Blank);
    }
  }

  /** The names joined by `>`: no blank at either end, no `[`, and split on `>` they
      come back. */
  lemma JoinedClusterNames(names: seq<string>, joined: string)
    requires |names| >= 1 && forall i :: 0 <= i < |names| ==> ClusterName(names[i])
    requires joined == Join(names, ">")
    ensures && joined != [] && !IsSpace(joined[0]) && !IsSpace(joined[|joined| - 1]) && '[' !in joined
            && Strip(joined) == joined && Split(joined, '>') == names
  {
    assert '[' !in joined by {
      JoinNotIn(names, ">", '[');
    }
    assert joined[0] == names[0][0] by {
      JoinStarts(names, ">");
    }
    assert Strip(joined) == joined by {
      var last := names[|names| - 1];
      JoinStarts(names, ">");
      JoinEndsWith(names, ">");
      assert joined[|joined| - 1] == last[|last| - 1];
      TrimNothing(joined, Blank);
    }
    assert Split(joined, '>') == names by {
      SplitJoin(names, '>');
    }
  }

  /** The CLUSTER pattern captures everything after the keyword and blank up to the
      first `[`. */
  lemma ClusterCapture(joined: string, tail: string)
    requires joined != [] && !IsSpace(joined[0]) && '[' !in joined
    requires tail == [] || tail[0] == '['
    ensures Search(ClusterPattern, "CLUSTER " + joined + tail) == Some(joined)
  {
    var s := "CLUSTER " + joined + tail;
    var t := " " + joined + tail;
    assert s == "CLUSTER" + t && s[|"CLUSTER"|..] == t;
    assert t[1] == joined[0];
    SpanOfRun(" ", joined + tail, Blank);
    assert t[1..] == joined + tail;
    assert All(joined, NoneOf({'['})) by {
      assert forall i :: 0 <= i < |joined| ==> joined[i] in joined;
    }
    SpanOfRun(joined, tail, NoneOf({'['}));
    UpToBracketGreedy(t, 1);
    assert t[1..1 + |joined|] == joined;
    assert Patterns.MatchAt(ClusterPattern, s) == Some(joined);
    SearchAtStart(ClusterPattern, s);
  }

  /** The attributes of a CLUSTER line come from the whole line, not only from a
      bracketed list: `CLUSTER style=dashed` names the cluster `style=dashed` and also
      sets its style to `dashed`, and its option line does the same. */
  lemma ClusterAttributesFromWholeLine(info: Style, opt: string)
    requires opt == "CLUSTER style=dashed"
    ensures WithOption(info, opt).cluster == Some("style=dashed")
    ensures WithOption(info, opt).clusterStyle == Some("dashed")
    ensures WithOption(info, OptionLine(opt)) == WithOption(info, opt)
  {
    ClusterKeywordOnly(info, opt);
    UnbracketedKeyword(opt, "CLUSTER");
    ClusterOptionLine(info, opt);
    UnbracketedParts(opt);
    UnbracketedAttributes(opt);
  }

  /** The documented source of a CLUSTER line's cluster attributes: the text after its
      first `[` only, and none when the line has no `[`. */
  function ClusterListAttributes(opt: string): (m: map<string, string>)
    ensures '[' !in opt ==> m == map[]
  {
    match Find(opt, "[", 0)
    case Some(i) =>
      assert opt[i..][..1] == [opt[i]] && opt[i] in opt;
      Attributes(opt[i + 1..])
    case None => map[]
  }

  /** With no `[` in front, the list's attributes are those of the text after the `[`. */
  lemma ClusterListAfter(front: string, rest: string)
    requires '[' !in front
    ensures ClusterListAttributes(front + "[" + rest) == Attributes(rest)
  {
    var s := front + "[" + rest;
    assert StartsWith(s[|front|..], "[");
    var i := Find(s, "[", 0).value;
    assert s[i..][..1] == [s[i]];
    assert s[i + 1..] == rest;
  }

  /** On the bracketed CLUSTER options and their option lines the code and the documented
      rule read the same attributes: those of the list. */
  lemma ClusterListAgrees(names: seq<string>, gap: string, pairs: seq<(string, string)>, sep: string)
    requires |names| >= 1 && forall i :: 0 <= i < |names| ==> ClusterName(names[i]) && '=' !in names[i]
    requires All(gap, Blank)
    requires WellFormed(pairs) && Separator(sep)
    ensures var opt := "CLUSTER " + Join(names, ">") + gap + "[" + Serialize(pairs, sep) + "]";
            && ClusterListAttributes(opt) == Attributes(opt) == AttrMap(pairs)
            && ClusterListAttributes(OptionLine(opt)) == Attributes(OptionLine(opt)) == AttrMap(pairs)
  {
    var front, list := "CLUSTER " + Join(names, ">") + gap, Serialize(pairs, sep);
    var opt := front + "[" + list + "]";
    assert '[' !in front by {
      JoinNotIn(names, ">", '[');
      assert forall i :: 0 <= i < |gap| ==> In(gap[i], Blank);
    }
    ClusterListOfList(front, pairs, sep);
    assert '[' !in "### OPT " + front;
    ClusterListOfList("### OPT " + front, pairs, sep);
    Regroup("### OPT ", front + "[" + list, "]");
    Regroup("### OPT ", front + "[", list);
    Regroup("### OPT ", front, "[");
    ClusterLineStyled(FreshStyle, names, gap, pairs, sep);
  }

  /** A list in brackets after text without `[`: the documented rule reads the list. */
  lemma ClusterListOfList(front: string, pairs: seq<(string, string)>, sep: string)
    requires '[' !in front && WellFormed(pairs) && Separator(sep)
    ensures ClusterListAttributes(front + "[" + Serialize(pairs, sep) + "]") == AttrMap(pairs)
  {
    var list := Serialize(pairs, sep);
    var rest := list + "]";
    ListThenBracket(pairs, sep, rest);
    Regroup(front + "[", list, "]");
    ClusterListAfter(front, rest);
  }

  /** A written list and its closing bracket give the list's attributes. */
  lemma ListThenBracket(pairs: seq<(string, string)>, sep: string, rest: string)
    requires WellFormed(pairs) && Separator(sep) && rest == Serialize(pairs, sep) + "]"
    ensures Attributes(rest) == AttrMap(pairs)
  {
    TokenizeSerialized([], pairs, sep, "]");
    assert [] + Serialize(pairs, sep) == Serialize(pairs, sep);
  }

  /** Where the two differ: `CLUSTER style=dashed`, with no list, and its option line have
      no attributes under the documented rule, while the code finds `style=dashed`. */
  lemma ClusterListUnbracketed(opt: string)
    requires opt == "CLUSTER style=dashed"
    ensures ClusterListAttributes(opt) == map[] && ClusterListAttributes(OptionLine(opt)) == map[]
    ensures Attributes(opt) == Attributes(OptionLine(opt)) == map["style" := "dashed"]
  {
    assert forall i :: 0 <= i < |opt| ==> opt[i] != '[';
    assert '[' !in OptionLine(opt) by {
      assert OptionLine(opt) == "### OPT " + opt;
    }
    UnbracketedAttributes(opt);
    UnbracketedKeyword(opt, "CLUSTER");
    ClusterOptionLine(FreshStyle, opt);
  }

  /** Of the option keywords, `CLUSTER style=dashed` holds only CLUSTER. */
  lemma ClusterKeywordOnly(info: Style, opt: string)
    requires opt == "CLUSTER style=dashed"
    ensures WithOption(info, opt) == WithCluster(info, ClusterParts(opt), Attributes(opt))
  {
    KeywordsOfLine(opt);
    UnbracketedKeyword(opt, "CLUSTER");
    ClusterDispatch(info, opt);
  }

  lemma KeywordsOfLine(opt: string)
    requires opt == "CLUSTER style=dashed"
    ensures NoEarlierKeyword(opt)
  {
    KeywordAbsent(opt, "COLOR", 1);
    KeywordAbsent(opt, "IMAGE", 0);
    KeywordAbsent(opt, "SHAPE", 1);
    KeywordAbsent(opt, "CLASS", 2);
    KeywordAbsent(opt, "DESC", 0);
  }

  lemma UnbracketedKeyword(opt: string, keyword: string)
    requires opt == "CLUSTER style=dashed" && keyword == "CLUSTER"
    ensures StartsWith(opt, keyword)
  {
    assert opt[..|keyword|] == keyword;
  }

  /** A keyword with one of the letters `O`, `I`, `H`, `A`, `D` is not in the line. */
  lemma KeywordAbsent(opt: string, keyword: string, j: nat)
    requires opt == "CLUSTER style=dashed"
    requires j < |keyword| && keyword[j] in {'O', 'I', 'H', 'A', 'D'}
    ensures !Contains(opt, keyword)
  {
    assert forall i :: 0 <= i < |opt| ==> opt[i] !in {'O', 'I', 'H', 'A', 'D'};
    MissingCharNotContained(opt, keyword, j);
  }

  /** The whole text after the keyword is the one cluster name. */
  lemma UnbracketedParts(opt: string)
    requires opt == "CLUSTER style=dashed"
    ensures ClusterParts(opt) == Some(["style=dashed"])
  {
    var name := "style=dashed";
    assert Join([name], ">") == name;
    assert opt == "CLUSTER " + Join([name], ">") + "" + "";
    ClusterLine([name], "", "");
  }

  /** The `style=dashed` of the line is an attribute although no bracket encloses it. */
  lemma UnbracketedAttributes(opt: string)
    requires opt == "CLUSTER style=dashed"
    ensures Attributes(opt) == map["style" := "dashed"]
  {
    var p, k, v := "CLUSTER ", "style", "dashed";
    assert opt == p + k + "=" + v;
    UnbracketedMatches(p, k, v);
  }

  lemma UnbracketedMatches(p: string, k: string, v: string)
    requires p == "CLUSTER " && k == "style" && v == "dashed"
    ensures Matches(p + k + "=" + v) == [(k, v)]
  {
    ExampleParts(p, k, v);
    var rest := k + "=" + v;
    assert p + k + "=" + v == p + rest;
    assert rest[0] == k[0];
    MatchesPast(p, rest);
    MatchesPair(k, v);
  }

  lemma ExampleParts(p: string, k: string, v: string)
    requires p == "CLUSTER " && k == "style" && v == "dashed"
    ensures '=' !in p && !In(p[|p| - 1], Word)
    ensures IsName(k) && IsValue(v) && In(k[0], Word)
  {
    assert forall i :: 0 <= i < |p| ==> p[i] != '=';
    assert forall i :: 0 <= i < |k| ==> 'a' <= k[i] <= 'z';
    assert forall i :: 0 <= i < |v| ==> 'a' <= v[i] <= 'z';
    LowercaseWord(k);
    LowercaseWord(v);
  }

  /** A run of lower-case letters is both a name and a value. */
  lemma LowercaseWord(w: string)
    requires w != [] && forall i :: 0 <= i < |w| ==> 'a' <= w[i] <= 'z'
    ensures IsName(w) && IsValue(w)
  {
  }

  /** Option lines are dispatched on the first keyword they contain, in the order COLOR,
      IMAGE, SHAPE, CLASS, DESC, CLUSTER: a line changes only the fields of that keyword,
      and a line with none of them changes nothing. */
  lemma OptionDispatch(info: Style, opt: string)
    ensures Contains(opt, "COLOR") ==> WithOption(info, opt).(color := info.color) == info
    ensures !Contains(opt, "COLOR") && Contains(opt, "IMAGE") ==>
              WithOption(info, opt).(image := info.image) == info
    ensures !Contains(opt, "COLOR") && !Contains(opt, "IMAGE") && Contains(opt, "SHAPE") ==>
              WithOption(info, opt).(shape := info.shape) == info
    ensures !Contains(opt, "COLOR") && !Contains(opt, "IMAGE") && !Contains(opt, "SHAPE")
            && Contains(opt, "CLASS") ==>
              WithOption(info, opt).(cssClass := info.cssClass) == info
    ensures !Contains(opt, "COLOR") && !Contains(opt, "IMAGE") && !Contains(opt, "SHAPE")
            && !Contains(opt, "CLASS") && Contains(opt, "DESC") ==>
              WithOption(info, opt).(description := info.description) == info
    ensures !Contains(opt, "COLOR") && !Contains(opt, "IMAGE") && !Contains(opt, "SHAPE")
            && !Contains(opt, "CLASS") && !Contains(opt, "DESC") && Contains(opt, "CLUSTER") ==>
              WithOption(info, opt).(cluster := info.cluster, clusterPath := info.clusterPath,
                                     clusterClass := info.clusterClass, clusterStyle := info.clusterStyle,
                                     clusterColor := info.clusterColor, clusterBgcolor := info.clusterBgcolor) == info
    ensures !Contains(opt, "COLOR") && !Contains(opt, "IMAGE") && !Contains(opt, "SHAPE")
            && !Contains(opt, "CLASS") && !Contains(opt, "DESC") && !Contains(opt, "CLUSTER") ==>
              WithOption(info, opt) == info
  {
  }

  /** A COLOR line sets the colour when six hex digits follow the keyword and leaves it
      alone otherwise. */
  lemma ColorOption(info: Style, opt: string)
    requires Contains(opt, "COLOR")
    ensures ColorValue(opt).Some? ==> WithOption(info, opt).color == ColorValue(opt)
    ensures ColorValue(opt).None? ==> WithOption(info, opt) == info
  {
  }

  /** The effect of a CLUSTER line on the placement and the four cluster styling fields. */
  lemma ClusterEffect(info: Style, parts: Option<seq<string>>, attrs: map<string, string>)
    requires parts.Some? ==> |parts.value| >= 1
    ensures parts.Some? && |parts.value| > 1 ==>
              && WithCluster(info, parts, attrs).clusterPath == parts.value[..|parts.value| - 1]
              && WithCluster(info, parts, attrs).cluster == Some(parts.value[|parts.value| - 1])
    ensures parts.Some? && |parts.value| == 1 ==>
              && WithCluster(info, parts, attrs).cluster == Some(parts.value[0])
              && WithCluster(info, parts, attrs).clusterPath == info.clusterPath
    ensures parts.None? ==>
              && WithCluster(info, parts, attrs).cluster == info.cluster
              && WithCluster(info, parts, attrs).clusterPath == info.clusterPath
    ensures WithCluster(info, parts, attrs).clusterClass == if "class" in attrs then Some(attrs["class"]) else info.clusterClass
    ensures WithCluster(info, parts, attrs).clusterStyle == if "style" in attrs then Some(attrs["style"]) else info.clusterStyle
    ensures WithCluster(info, parts, attrs).clusterColor == if "color" in attrs then Some(attrs["color"]) else info.clusterColor
    ensures WithCluster(info, parts, attrs).clusterBgcolor ==
              if "bgcolor" in attrs then Some(attrs["bgcolor"]) else info.clusterBgcolor
  {
  }

  // ---------------------------------------------------------------- option lines in a block

  /** An option line as a block holds it: `### OPT ` and then the option. */
  function OptionLine(option: string): string {
    "### OPT " + option
  }

  /** `### OPT ` holds none of the option keywords' first letters and no `=`, and ends
      in a blank. */
  lemma OptionFront(front: string)
    requires front == "### OPT "
    ensures 'C' !in front && 'I' !in front && 'S' !in front && 'D' !in front
    ensures '=' !in front && !In(front[|front| - 1], Word)
  {
  }

  /** `### OPT ` in front of an option changes neither which keywords the line holds
      nor what any keyword pattern captures. */
  lemma OptionLineReads(option: string)
    ensures var line := OptionLine(option);
            && (Contains(line, "COLOR") <==> Contains(option, "COLOR"))
            && (Contains(line, "IMAGE") <==> Contains(option, "IMAGE"))
            && (Contains(line, "SHAPE") <==> Contains(option, "SHAPE"))
            && (Contains(line, "CLASS") <==> Contains(option, "CLASS"))
            && (Contains(line, "DESC") <==> Contains(option, "DESC"))
            && (Contains(line, "CLUSTER") <==> Contains(option, "CLUSTER"))
    ensures var line := OptionLine(option);
            && ColorValue(line) == ColorValue(option)
            && Search(ImagePattern, line) == Search(ImagePattern, option)
            && Search(ShapePattern, line) == Search(ShapePattern, option)
            && Search(ClassPattern, line) == Search(ClassPattern, option)
            && DescValue(line) == DescValue(option)
            && ClusterParts(line) == ClusterParts(option)
  {
    var front := "### OPT ";
    OptionFront(front);
    ContainsPast(front, option, "COLOR");
    ContainsPast(front, option, "IMAGE");
    ContainsPast(front, option, "SHAPE");
    ContainsPast(front, option, "CLASS");
    ContainsPast(front, option, "DESC");
    ContainsPast(front, option, "CLUSTER");
    KeywordSearchPast("COLOR", Hex6, front, option);
    KeywordSearchPast("IMAGE", Url, front, option);
    KeywordSearchPast("SHAPE", WordRun, front, option);
    KeywordSearchPast("CLASS", WordRun, front, option);
    KeywordSearchPast("DESC", RestOfLine, front, option);
    KeywordSearchPast("CLUSTER", UpToBracket, front, option);
  }

  /** An option line has the effect of its option: the `### OPT ` in front of an option
      that starts with a word character changes nothing, its attributes included. */
  lemma OptionLineEffect(info: Style, option: string)
    requires option != [] && In(option[0], Word)
    ensures Attributes(OptionLine(option)) == Attributes(option)
    ensures WithOption(info, OptionLine(option)) == WithOption(info, option)
  {
    OptionLineReads(option);
    OptionLineAttributes(option);
  }

  /** The words `### OPT ` add no attribute in front of an option that starts with a
      word character. */
  lemma OptionLineAttributes(option: string)
    requires option != [] && In(option[0], Word)
    ensures Attributes(OptionLine(option)) == Attributes(option)
  {
    var front := "### OPT ";
    OptionFront(front);
    MatchesPast(front, option);
    assert OptionLine(option) == front + option;
  }

  /** The options written as option lines, one per option, in order. */
  function OptionLinesOf(options: seq<string>): (r: seq<string>)
    ensures |r| == |options|
    decreases |options|
  {
    if options == [] then [] else OptionLinesOf(options[..|options| - 1]) + [OptionLine(options[|options| - 1])]
  }

  lemma {:induction false} OptionLinesOfAt(options: seq<string>, i: nat)
    requires i < |options|
    ensures OptionLinesOf(options)[i] == OptionLine(options[i])
    decreases |options|
  {
    if i < |options| - 1 {
      OptionLinesOfAt(options[..|options| - 1], i);
    }
  }

  /** The `### OPT` group of a block with these options: each option line ends in a line
      feed, as `(?:### OPT .*?\n)*` captures them. */
  function OptionBlock(options: seq<string>): string {
    if options == [] then "" else Join(OptionLinesOf(options), "\n") + "\n"
  }

  /** An option as an option line can carry it: on one line, and starting with a word
      character (a keyword) and ending with a character that is not blank. */
  predicate OptionText(option: string) {
    option != [] && '\n' !in option && In(option[0], Word) && !IsSpace(option[|option| - 1])
  }

  /** Round trip of the `### OPT` group: stripped and split at line feeds, it gives back
      the option lines, one per option, in order. */
  lemma OptionBlockLines(options: seq<string>)
    requires |options| >= 1 && forall i :: 0 <= i < |options| ==> OptionText(options[i])
    ensures OptionLines(OptionBlock(options)) == OptionLinesOf(options)
  {
    OptionBlockStripped(options);
    OptionLinesNoBreak(options);
    SplitJoin(OptionLinesOf(options), '\n');
  }

  /** The group strips to its lines joined by line feeds: it starts with `#` and its
      last option ends in a character that is not blank. */
  lemma OptionBlockStripped(options: seq<string>)
    requires |options| >= 1 && OptionText(options[|options| - 1])
    ensures Strip(OptionBlock(options)) == Join(OptionLinesOf(options), "\n")
  {
    var joined := Join(OptionLinesOf(options), "\n");
    OptionLinesEnds(options, joined);
    TrimExact([], joined, "\n", Blank);
    assert [] + joined == joined;
  }

  /** The option lines joined start with `#` and end with the last option's last
      character. */
  lemma OptionLinesEnds(options: seq<string>, joined: string)
    requires |options| >= 1 && OptionText(options[|options| - 1])
    requires joined == Join(OptionLinesOf(options), "\n")
    ensures joined != [] && !IsSpace(joined[0]) && !IsSpace(joined[|joined| - 1])
  {
    var lines := OptionLinesOf(options);
    var first, last := lines[0], lines[|lines| - 1];
    OptionLinesOfAt(options, 0);
    OptionLinesOfAt(options, |options| - 1);
    OptionLineEnds(options[0], first);
    OptionLineEnds(options[|options| - 1], last);
    JoinStarts(lines, "\n");
    JoinEndsWith(lines, "\n");
    assert joined[0] == first[0];
    assert joined[|joined| - 1] == last[|last| - 1];
  }

  /** An option line starts with `#` and ends as its option does. */
  lemma OptionLineEnds(option: string, line: string)
    requires line == OptionLine(option)
    ensures line != [] && line[0] == '#'
    ensures option != [] ==> line[|line| - 1] == option[|option| - 1]
  {
  }

  /** No option line holds a line feed. */
  lemma OptionLinesNoBreak(options: seq<string>)
    requires forall i :: 0 <= i < |options| ==> '\n' !in options[i]
    ensures forall i :: 0 <= i < |options| ==> '\n' !in OptionLinesOf(options)[i]
  {
    forall i | 0 <= i < |options| ensures '\n' !in OptionLinesOf(options)[i] {
      OptionLinesOfAt(options, i);
      assert '\n' !in "### OPT ";
    }
  }

  /** Option lines have the effects of their options, one after the other. */
  lemma {:induction false} OptionLinesEffect(info: Style, options: seq<string>)
    requires forall i :: 0 <= i < |options| ==> options[i] != [] && In(options[i][0], Word)
    ensures WithOptions(info, OptionLinesOf(options)) == WithOptions(info, options)
    decreases |options|
  {
    if options != [] {
      var init, last := options[..|options| - 1], options[|options| - 1];
      var lines := OptionLinesOf(options);
      assert lines[..|lines| - 1] == OptionLinesOf(init);
      OptionLinesEffect(info, init);
      OptionLineEffect(WithOptions(info, init), last);
    }
  }

  /** A block whose `### OPT` group holds these options styles its node as the options
      do, applied in order to a new node's styling. */
  lemma BlockOptions(b: Block, options: seq<string>)
    requires |options| >= 1 && forall i :: 0 <= i < |options| ==> OptionText(options[i])
    requires b.opts == OptionBlock(options)
    ensures NodeFor(b).style == WithOptions(FreshStyle, options)
  {
    OptionBlockEffect(b.opts, options);
  }

  /** The group's lines have the effects of the options. */
  lemma OptionBlockEffect(opts: string, options: seq<string>)
    requires |options| >= 1 && forall i :: 0 <= i < |options| ==> OptionText(options[i])
    requires opts == OptionBlock(options)
    ensures WithOptions(FreshStyle, OptionLines(opts)) == WithOptions(FreshStyle, options)
  {
    OptionBlockLines(options);
    OptionLinesEffect(FreshStyle, options);
  }

  // ---------------------------------------------------------------- VAR and FUNC entries

  /** An entry as a list item can carry it: not empty, on one line, and neither `-` nor a
      blank at either end. */
  predicate EntryText(v: string) {
    v != [] && '\n' !in v
    && v[0] != '-' && !IsSpace(v[0]) && v[|v| - 1] != '-' && !IsSpace(v[|v| - 1])
  }

  /** The entries written as `- entry` list items, one per line. */
  function Bullets(items: seq<string>): (r: seq<string>)
    ensures |r| == |items|
    decreases |items|
  {
    if items == [] then [] else Bullets(items[..|items| - 1]) + ["- " + items[|items| - 1]]
  }

  lemma {:induction false} BulletsAt(items: seq<string>, i: nat)
    requires i < |items|
    ensures Bullets(items)[i] == "- " + items[i]
    decreases |items|
  {
    if i < |items| - 1 {
      BulletsAt(items[..|items| - 1], i);
    }
  }

  /** `- entry` is not blank and cleans to the entry. */
  lemma CleanBullet(v: string)
    requires EntryText(v)
    ensures !IsBlank("- " + v) && Clean("- " + v) == v
  {
    var line := "- " + v;
    assert line[0] == '-';
    BlankIsAllSpace(line);
    assert line == "- " + v + [];
    TrimExact("- ", v, [], AnyOf({'-', ' '}));
    TrimNothing(v, Blank);
  }

  lemma {:induction false} CleanedBullets(items: seq<string>)
    requires forall i :: 0 <= i < |items| ==> EntryText(items[i])
    ensures Cleaned(Bullets(items)) == items
    decreases |items|
  {
    if items != [] {
      var init, last := items[..|items| - 1], items[|items| - 1];
      calc {
        Cleaned(Bullets(items));
        Cleaned(Bullets(init) + ["- " + last]);
        { CleanBullet(last); CleanedStep(Bullets(init), "- " + last); }
        Cleaned(Bullets(init)) + [Clean("- " + last)];
        { CleanedBullets(init); CleanBullet(last); }
        init + [last];
        { assert items == init + [last]; }
        items;
      }
    }
  }

  /** A line that is not blank adds its cleaned entry at the end. */
  lemma CleanedStep(lines: seq<string>, line: string)
    requires !IsBlank(line)
    ensures Cleaned(lines + [line]) == Cleaned(lines) + [Clean(line)]
  {
    assert (lines + [line])[..|lines|] == lines;
  }

  /** Round trip of a VAR or FUNC section: entries written as `- entry` lines are read
      back as the same entries, one per line, in order. */
  lemma EntriesRoundTrip(items: seq<string>)
    requires |items| >= 1 && forall i :: 0 <= i < |items| ==> EntryText(items[i])
    ensures Entries(Join(Bullets(items), "\n")) == items
  {
    BulletSection(items);
    CleanedBullets(items);
  }

  /** The section of `- entry` lines has no blank at either end and splits back into
      its lines. */
  lemma BulletSection(items: seq<string>)
    requires |items| >= 1 && forall i :: 0 <= i < |items| ==> EntryText(items[i])
    ensures var section := Join(Bullets(items), "\n");
            section != "" && Strip(section) == section && Split(section, '\n') == Bullets(items)
  {
    var lines := Bullets(items);
    var section := Join(lines, "\n");
    assert section != "" && Strip(section) == section by {
      BulletsEnds(items);
      TrimNothing(section, Blank);
    }
    assert Split(section, '\n') == lines by {
      BulletsNoBreak(items);
      SplitJoin(lines, '\n');
    }
  }

  /** The section starts with the first item's `-` and ends with the last item's last
      character. */
  lemma BulletsEnds(items: seq<string>)
    requires |items| >= 1 && EntryText(items[|items| - 1])
    ensures var section := Join(Bullets(items), "\n");
            && section != [] && section[0] == '-'
            && section[|section| - 1] == items[|items| - 1][|items[|items| - 1]| - 1]
  {
    var lines := Bullets(items);
    var section := Join(lines, "\n");
    var last := lines[|lines| - 1];
    BulletsAt(items, 0);
    BulletsAt(items, |items| - 1);
    JoinStarts(lines, "\n");
    JoinEndsWith(lines, "\n");
    assert section[0] == '-';
    assert section[|section| - 1] == last[|last| - 1];
  }

  /** No `- entry` line holds a line break. */
  lemma BulletsNoBreak(items: seq<string>)
    requires forall i :: 0 <= i < |items| ==> EntryText(items[i])
    ensures forall i :: 0 <= i < |items| ==> '\n' !in Bullets(items)[i]
  {
    forall i | 0 <= i < |items| ensures '\n' !in Bullets(items)[i] {
      BulletsAt(items, i);
    }
  }
}
