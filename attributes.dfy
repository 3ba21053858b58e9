/** The attribute tokenizer `parse_attributes` of src/parser/markdown_parser.py:
    every match of `(\w+)\s*=\s*([\w\.\/:\-]+)` that `re.findall` reports, gathered
    into a dict in which a later occurrence of a name overwrites an earlier one. */
module AttributeTokenizer {
  import opened Optional
  import opened Text

  /** `[\w\.\/:\-]` */
  const ValueChar := WordOr({'.', '/', ':', '-'})

  predicate IsName(k: string) {
    |k| >= 1 && All(k, Word)
  }

  predicate IsValue(v: string) {
    |v| >= 1 && All(v, ValueChar)
  }

  /** One match: the two groups and the number of characters it consumed. */
  datatype Match = Match(name: string, value: string, length: nat)

  /** Where the `=` of a match must stand: after the name (`\w+`, greedy: giving
      characters back cannot help, since the next one would be a word character, not
      `\s` or `=`) and all the blanks after it (`\s*` takes them all, since the next
      character must be `=`). */
  function EqualsAt(s: string): (e: nat)
    ensures Span(s, Word) <= e <= |s|
  {
    var a := Span(s, Word);
    a + Span(s[a..], Blank)
  }

  /** Where the value starts: after the `=` and all the blanks that follow it. */
  function ValueStart(s: string): (c: nat)
    requires EqualsAt(s) < |s|
    ensures EqualsAt(s) < c <= |s|
  {
    var e := EqualsAt(s);
    e + 1 + Span(s[e + 1..], Blank)
  }

  /** Where the value ends: after the longest run of value characters. */
  function ValueEnd(s: string): (d: nat)
    requires EqualsAt(s) < |s|
    ensures ValueStart(s) <= d <= |s|
  {
    var c := ValueStart(s);
    c + Span(s[c..], ValueChar)
  }

  /** The pattern anchored at the start of `s`: a name, `\s*=\s*` and the longest
      non-empty run of value characters. */
  function MatchAt(s: string): (r: Option<Match>)
    ensures r.Some? ==> 0 < r.value.length <= |s|
  {
    var a, e := Span(s, Word), EqualsAt(s);
    if a == 0 || e == |s| || s[e] != '=' || ValueEnd(s) == ValueStart(s) then None
    else Some(Match(s[..a], s[ValueStart(s)..ValueEnd(s)], ValueEnd(s)))
  }

  /** What a match consists of: a name, blanks, `=`, blanks and the longest run of
      value characters. */
  lemma MatchAtShape(s: string)
    requires MatchAt(s).Some?
    ensures var m := MatchAt(s).value;
            && IsName(m.name) && IsValue(m.value)
            && |m.name| + 1 + |m.value| <= m.length
            && m.name == s[..|m.name|] && m.value == s[m.length - |m.value|..m.length]
            && (m.length == |s| || !In(s[m.length], ValueChar))
  {
    var a, c := Span(s, Word), ValueStart(s);
    var n := Span(s[c..], ValueChar);
    SpanFacts(s, Word);
    SpanFacts(s[c..], ValueChar);
    RunOfSuffix(s, c, n);
  }

  /** A run at the front of a suffix, seen in the whole text. */
  lemma RunOfSuffix(s: string, c: nat, n: nat)
    requires c + n <= |s|
    ensures s[c..][..n] == s[c..c + n]
    ensures c + n < |s| ==> s[c..][n] == s[c + n]
  {
  }

  /** `re.findall`: try the pattern at each position from left to right; after a match
      the scan resumes where the match ended. */
  function Matches(s: string): (r: seq<(string, string)>)
    ensures forall i :: 0 <= i < |r| ==> IsName(r[i].0) && IsValue(r[i].1)
    decreases |s|
  {
    if s == [] then []
    else match MatchAt(s)
      case Some(m) => MatchAtShape(s); [(m.name, m.value)] + Matches(s[m.length..])
      case None => Matches(s[1..])
  }

  /** The value of the last pair named `k`. */
  function LastValue(pairs: seq<(string, string)>, k: string): Option<string>
    decreases |pairs|
  {
    if pairs == [] then None
    else if pairs[|pairs| - 1].0 == k then Some(pairs[|pairs| - 1].1)
    else LastValue(pairs[..|pairs| - 1], k)
  }

  /** The dict that the loop `attrs[key] = value` leaves behind. */
  function AttrMap(pairs: seq<(string, string)>): (m: map<string, string>)
    ensures forall k :: k in m <==> LastValue(pairs, k).Some?
    ensures forall k :: k in m ==> Some(m[k]) == LastValue(pairs, k)
    decreases |pairs|
  {
    if pairs == [] then map[]
    else
      var last := pairs[|pairs| - 1];
      AttrMap(pairs[..|pairs| - 1])[last.0 := last.1]
  }

  /** `parse_attributes(line)` as a value, for the pure parts of the parser. */
  function Attributes(line: string): (m: map<string, string>)
    ensures forall k :: k in m ==> IsName(k) && IsValue(m[k])
  {
    var pairs := Matches(line);
    var m := AttrMap(pairs);
    forall k | k in m ensures IsName(k) && IsValue(m[k]) {
      LastValueFrom(pairs, k);
    }
    m
  }

  lemma {:induction false} LastValueFrom(pairs: seq<(string, string)>, k: string)
    requires LastValue(pairs, k).Some?
    ensures exists i :: 0 <= i < |pairs| && pairs[i] == (k, LastValue(pairs, k).value)
    decreases |pairs|
  {
    if pairs[|pairs| - 1].0 != k {
      LastValueFrom(pairs[..|pairs| - 1], k);
      var i :| 0 <= i < |pairs| - 1 && pairs[..|pairs| - 1][i] == (k, LastValue(pairs, k).value);
      assert pairs[i] == pairs[..|pairs| - 1][i];
    }
  }

  /** `parse_attributes`: the loop over the matches filling a dict. Every name that
      matched is a key, and its value is the one from its last match. */
  method ParseAttributes(line: string) returns (attrs: map<string, string>)
    ensures forall k :: k in attrs <==> LastValue(Matches(line), k).Some?
    ensures forall k :: k in attrs ==> Some(attrs[k]) == LastValue(Matches(line), k)
    ensures attrs == Attributes(line)
  {
    var matches := Matches(line);
    attrs := map[];
    var i := 0;
    while i < |matches|
      invariant 0 <= i <= |matches|
      invariant attrs == AttrMap(matches[..i])
    {
      var (key, value) := matches[i];
      assert matches[..i + 1][..i] == matches[..i];
      attrs := attrs[key := value];
      i := i + 1;
    }
    assert matches[..i] == matches;
  }

  /** Text without `=` yields no attribute: fragments that do not match are dropped. */
  lemma {:induction false} NoEqualsNoMatches(s: string)
    requires '=' !in s
    ensures Matches(s) == []
    decreases |s|
  {
    if s != [] {
      assert MatchAt(s).None? by {
        var e := EqualsAt(s);
        assert e < |s| ==> s[e] in s;
      }
      NoEqualsNoMatches(s[1..]);
    }
  }

  /** Text without `=` whose last character is not a word character yields no match
      of its own in front of a name: the scan passes over it to what follows, so the
      words of an option line before its `name=value` pairs add nothing. */
  lemma {:induction false} MatchesPast(p: string, rest: string)
    requires '=' !in p
    requires p != [] ==> !In(p[|p| - 1], Word)
    requires rest != [] && In(rest[0], Word)
    ensures Matches(p + rest) == Matches(rest)
    decreases |p|
  {
    if p == [] {
      assert p + rest == rest;
    } else {
      var s := p + rest;
      NoMatchInFront(p, rest);
      assert s[1..] == p[1..] + rest;
      MatchesPast(p[1..], rest);
    }
  }

  /** Such text has no match at its front: the name there ends inside it, and what
      stands after the name and its blanks is a character of the text or the first of
      the name that follows, never `=`. */
  lemma NoMatchInFront(p: string, rest: string)
    requires p != [] && '=' !in p && !In(p[|p| - 1], Word)
    requires rest != [] && In(rest[0], Word)
    ensures MatchAt(p + rest).None?
  {
    var s := p + rest;
    var a, e := Span(s, Word), EqualsAt(s);
    if a > 0 {
      assert s[|p| - 1] == p[|p| - 1];
      SpanBefore(s, Word, |p| - 1);
      SpanFacts(s[a..], Blank);
      if e < |p| {
        assert s[e] == p[e] && p[e] in p;
      } else {
        assert s[a..][|p| - a] == rest[0];
        SpanBefore(s[a..], Blank, |p| - a);
        assert s[e] == rest[0];
      }
    }
  }

  /** A span stops at the first character outside its class. */
  lemma {:induction false} SpanBefore(s: string, k: CharClass, j: nat)
    requires j < |s| && !In(s[j], k)
    ensures Span(s, k) <= j
    decreases j
  {
    if In(s[0], k) {
      SpanBefore(s[1..], k, j - 1);
    }
  }

  // ---- Writing a mapping back as `k=v` pairs and tokenizing it again ----

  /** What may stand between two written pairs: not empty, no `=`, a first character
      that ends the value before it and a last character that cannot lengthen the name
      after it, as `,` and `, ` are. */
  predicate Separator(sep: string) {
    sep != [] && '=' !in sep && !In(sep[0], ValueChar) && !In(sep[|sep| - 1], Word)
  }

  /** `k1=v1` `sep` `k2=v2` `sep` ... */
  function Serialize(pairs: seq<(string, string)>, sep: string): string
    decreases |pairs|
  {
    if pairs == [] then ""
    else if |pairs| == 1 then pairs[0].0 + "=" + pairs[0].1
    else pairs[0].0 + "=" + pairs[0].1 + sep + Serialize(pairs[1..], sep)
  }

  predicate WellFormed(pairs: seq<(string, string)>) {
    forall i :: 0 <= i < |pairs| ==> IsName(pairs[i].0) && IsValue(pairs[i].1)
  }

  /** A name directly followed by `=`: the `=` stands right after the name. */
  lemma EqualsAfterName(s: string, a: nat)
    requires a < |s| && s[a] == '=' && All(s[..a], Word)
    ensures Span(s, Word) == a && EqualsAt(s) == a
  {
    var rest := s[a..];
    SpanOfRun(s[..a], rest, Word);
    assert s[..a] + rest == s;
    SpanOfRun([], rest, Blank);
    assert [] + rest == rest;
  }

  /** A value character directly after the `=`: the value starts there. */
  lemma ValueAfterEquals(s: string)
    requires EqualsAt(s) + 1 < |s| && In(s[EqualsAt(s) + 1], ValueChar)
    ensures ValueStart(s) == EqualsAt(s) + 1
  {
    var rest := s[EqualsAt(s) + 1..];
    SpanOfRun([], rest, Blank);
    assert [] + rest == rest;
  }

  /** `k=v` at the start of the text, not followed by a value character, is one match
      covering exactly `k=v`. */
  lemma MatchAtAssignment(k: string, v: string, tail: string)
    requires IsName(k) && IsValue(v)
    requires tail == [] || !In(tail[0], ValueChar)
    ensures MatchAt(k + "=" + v + tail) == Some(Match(k, v, |k| + 1 + |v|))
  {
    var s := k + "=" + v + tail;
    var a := |k|;
    PairLayout(k, v, tail);
    EqualsAfterName(s, a);
    ValueAfterEquals(s);
    SpanOfRun(v, tail, ValueChar);
    MatchAtParts(s, a, a + 1, a + 1 + |v|);
  }

  /** Where the parts of `k=v` and what follows it stand. */
  lemma PairLayout(k: string, v: string, tail: string)
    ensures var s := k + "=" + v + tail;
            && s[..|k|] == k && s[|k|] == '='
            && s[|k| + 1..] == v + tail && s[|k| + 1..|k| + 1 + |v|] == v
  {
  }

  /** The match whose name ends at `a`, where the `=` stands, and whose value runs
      from `c` to `d`. */
  lemma MatchAtParts(s: string, a: nat, c: nat, d: nat)
    requires 0 < a == Span(s, Word) == EqualsAt(s) < |s| && s[a] == '='
    requires c == ValueStart(s) && d == ValueEnd(s) && d > c
    ensures MatchAt(s) == Some(Match(s[..a], s[c..d], d))
  {
  }

  /** Tokenizing a written well-formed list, followed by text without `=` that does not
      continue the last value, gives back the same list. */
  lemma {:induction false} MatchesSerialized(pairs: seq<(string, string)>, sep: string, post: string)
    requires WellFormed(pairs) && Separator(sep)
    requires '=' !in post && (post == [] || !In(post[0], ValueChar))
    ensures Matches(Serialize(pairs, sep) + post) == pairs
    decreases |pairs|
  {
    if pairs == [] {
      assert Serialize(pairs, sep) + post == post;
      NoEqualsNoMatches(post);
    } else if |pairs| == 1 {
      var (k, v) := pairs[0];
      assert Serialize(pairs, sep) + post == k + "=" + v + post;
      MatchesPairThen(k, v, post);
      NoEqualsNoMatches(post);
    } else {
      MatchesSerialized(pairs[1..], sep, post);
      MatchesSerializedStep(pairs, sep, post);
    }
  }

  /** The inductive step: the first pair, then the separator passed over, then the
      matches of the rest. */
  lemma MatchesSerializedStep(pairs: seq<(string, string)>, sep: string, post: string)
    requires WellFormed(pairs) && Separator(sep) && |pairs| > 1
    requires Matches(Serialize(pairs[1..], sep) + post) == pairs[1..]
    ensures Matches(Serialize(pairs, sep) + post) == pairs
  {
    var (k, v) := pairs[0];
    var rest := Serialize(pairs[1..], sep) + post;
    SerializeStart(pairs[1..], sep);
    SerializeFirst(pairs, sep, post);
    MatchesPairThen(k, v, sep + rest);
    MatchesPast(sep, rest);
    assert pairs == [pairs[0]] + pairs[1..];
  }

  /** A written list of several pairs: the first pair, the separator, the rest. */
  lemma SerializeFirst(pairs: seq<(string, string)>, sep: string, post: string)
    requires |pairs| > 1
    ensures Serialize(pairs, sep) + post
            == pairs[0].0 + "=" + pairs[0].1 + (sep + (Serialize(pairs[1..], sep) + post))
  {
  }

  /** A written non-empty list starts with the first character of its first name. */
  lemma SerializeStart(pairs: seq<(string, string)>, sep: string)
    requires WellFormed(pairs) && pairs != []
    ensures Serialize(pairs, sep) != [] && In(Serialize(pairs, sep)[0], Word)
  {
    assert Serialize(pairs, sep)[0] == pairs[0].0[0];
  }

  /** `k=v` alone is one match. */
  lemma MatchesPair(k: string, v: string)
    requires IsName(k) && IsValue(v)
    ensures Matches(k + "=" + v) == [(k, v)]
  {
    var s := k + "=" + v;
    assert s == k + "=" + v + "";
    MatchAtAssignment(k, v, "");
    MatchesTaken(s);
    assert s[|k| + 1 + |v|..] == [];
  }

  /** `k=v` and then text that does not continue the value: the pair, then the matches
      of that text. */
  lemma MatchesPairThen(k: string, v: string, tail: string)
    requires IsName(k) && IsValue(v)
    requires tail == [] || !In(tail[0], ValueChar)
    ensures Matches(k + "=" + v + tail) == [(k, v)] + Matches(tail)
  {
    var s := k + "=" + v + tail;
    MatchAtAssignment(k, v, tail);
    MatchesTaken(s);
    assert s[|k| + 1 + |v|..] == tail;
  }

  /** A match at the front is reported, and the scan goes on after it. */
  lemma MatchesTaken(s: string)
    requires MatchAt(s).Some?
    ensures var m := MatchAt(s).value;
            Matches(s) == [(m.name, m.value)] + Matches(s[m.length..])
  {
  }

  /** Round trip: a well-formed list written inside a line, after text that
      `MatchesPast` passes over and before text such as `]` that adds no match, gives
      the line the attributes of that list; a pair not overridden later keeps its value. */
  lemma TokenizeSerialized(pre: string, pairs: seq<(string, string)>, sep: string, post: string)
    requires WellFormed(pairs) && Separator(sep)
    requires '=' !in pre && (pre != [] ==> !In(pre[|pre| - 1], Word))
    requires '=' !in post && (post == [] || !In(post[0], ValueChar))
    ensures Attributes(pre + Serialize(pairs, sep) + post) == AttrMap(pairs)
    ensures var m := Attributes(pre + Serialize(pairs, sep) + post);
            forall i :: 0 <= i < |pairs| && (forall j :: i < j < |pairs| ==> pairs[j].0 != pairs[i].0)
                        ==> pairs[i].0 in m && m[pairs[i].0] == pairs[i].1
  {
    MatchesInLine(pre, pairs, sep, post);
    forall i | 0 <= i < |pairs| && (forall j :: i < j < |pairs| ==> pairs[j].0 != pairs[i].0)
      ensures LastValue(pairs, pairs[i].0) == Some(pairs[i].1)
    {
      LastValueOfLast(pairs, i);
    }
  }

  /** The matches of such a line are exactly the pairs written. */
  lemma MatchesInLine(pre: string, pairs: seq<(string, string)>, sep: string, post: string)
    requires WellFormed(pairs) && Separator(sep)
    requires '=' !in pre && (pre != [] ==> !In(pre[|pre| - 1], Word))
    requires '=' !in post && (post == [] || !In(post[0], ValueChar))
    ensures Matches(pre + Serialize(pairs, sep) + post) == pairs
  {
    if pairs == [] {
      NothingInLine(pre, pairs, sep, post);
    } else {
      var written := Serialize(pairs, sep) + post;
      SerializeStart(pairs, sep);
      MatchesSerialized(pairs, sep, post);
      MatchesPast(pre, written);
      Regroup(pre, Serialize(pairs, sep), post);
    }
  }

  /** An empty list leaves a line without `=`. */
  lemma NothingInLine(pre: string, pairs: seq<(string, string)>, sep: string, post: string)
    requires pairs == [] && '=' !in pre && '=' !in post
    ensures Matches(pre + Serialize(pairs, sep) + post) == []
  {
    assert pre + Serialize(pairs, sep) + post == pre + post;
    NoEqualsNoMatches(pre + post);
  }

  /** `,` and `, ` separate pairs. */
  lemma CommaSeparators(comma: string, commaBlank: string)
    requires comma == "," && commaBlank == ", "
    ensures Separator(comma) && Separator(commaBlank)
  {
  }

  lemma {:induction false} LastValueOfLast(pairs: seq<(string, string)>, i: nat)
    requires i < |pairs|
    requires forall j :: i < j < |pairs| ==> pairs[j].0 != pairs[i].0
    ensures LastValue(pairs, pairs[i].0) == Some(pairs[i].1)
    decreases |pairs|
  {
    if i < |pairs| - 1 {
      var init := pairs[..|pairs| - 1];
      assert init[i] == pairs[i];
      LastValueOfLast(init, i);
    }
  }
}
