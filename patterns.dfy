/** The regular expressions that src/parser/markdown_parser.py applies to single lines,
    with `re.search`'s rule: the match that starts leftmost wins, and at a given start
    the greedy quantifiers give characters back only when the rest of the pattern
    fails. Each pattern is written as a first-order description; `MatchAt` is the
    pattern anchored at the start of a string, and `Search` tries each start. */
module Patterns {
  import opened Optional
  import opened Text

  /** What follows `KEYWORD\s+` in the option patterns. */
  datatype Arg =
    | Hex6          // ([A-Fa-f0-9]{6})
    | Url           // (https?://[^\s]+)
    | WordRun       // (\w+)
    | RestOfLine    // (.+)$   (no DOTALL, so `.` stops at a line feed)
    | UpToBracket   // ([^\[]+)

  datatype Pattern =
    | Keyword(keyword: string, arg: Arg)   // KEYWORD\s+<arg>
    | Braced                               // \{(.*?)\}
    | Bracketed                            // \[(\w+)\]

  /** The capture of `arg` matched at the start of `t` (after the blanks). */
  function TailAt(arg: Arg, t: string): Option<string> {
    match arg
    case Hex6 =>
      if |t| >= 6 && All(t[..6], HexDigit) then Some(t[..6]) else None
    case Url =>
      // `s?` is tried first; without it the `:` would have to stand where the `s` is
      var scheme := if StartsWith(t, "https://") then 8 else if StartsWith(t, "http://") then 7 else 0;
      if scheme == 0 then None
      else
        var n := Span(t[scheme..], NonBlank);
        if n == 0 then None else Some(t[..scheme + n])
    case WordRun =>
      var n := Span(t, Word);
      if n == 0 then None else Some(t[..n])
    case RestOfLine =>
      // `.+` runs to the next line feed; `$` holds at the end or before a final line feed
      var n := Span(t, NoneOf({'\n'}));
      if n >= 1 && (n == |t| || (n == |t| - 1 && t[n] == '\n')) then Some(t[..n]) else None
    case UpToBracket =>
      var n := Span(t, NoneOf({'['}));
      if n == 0 then None else Some(t[..n])
  }

  /** `\s+` followed by `arg`: the blanks run is tried longest first, then one blank
      shorter at a time while at least one remains. */
  function Backtrack(arg: Arg, s: string, q: nat): (r: Option<string>)
    requires 1 <= q <= |s|
    decreases q
  {
    match TailAt(arg, s[q..])
    case Some(c) => Some(c)
    case None => if q == 1 then None else Backtrack(arg, s, q - 1)
  }

  /** `\s+<arg>` anchored at the start of `s`. */
  function ArgAt(arg: Arg, s: string): Option<string> {
    var w := Span(s, Blank);
    if w == 0 then None else Backtrack(arg, s, w)
  }

  /** The pattern anchored at the start of `s`, giving its capture group. */
  function MatchAt(p: Pattern, s: string): Option<string> {
    match p
    case Keyword(keyword, arg) =>
      if StartsWith(s, keyword) then ArgAt(arg, s[|keyword|..]) else None
    case Braced =>
      if s == [] || s[0] != '{' then None
      else
        var n := Span(s[1..], NoneOf({'}', '\n'}));
        if 1 + n < |s| && s[1 + n] == '}' then Some(s[1..1 + n]) else None
    case Bracketed =>
      if s == [] || s[0] != '[' then None
      else
        var n := Span(s[1..], Word);
        if n >= 1 && 1 + n < |s| && s[1 + n] == ']' then Some(s[1..1 + n]) else None
  }

  /** The leftmost start at or after `i` where `p` matches, with its capture. */
  function SearchFrom(p: Pattern, s: string, i: nat): (r: Option<(nat, string)>)
    requires i <= |s|
    ensures r.Some? ==> i <= r.value.0 <= |s|
    decreases |s| - i
  {
    match MatchAt(p, s[i..])
    case Some(c) => Some((i, c))
    case None => if i == |s| then None else SearchFrom(p, s, i + 1)
  }

  /** `re.search(p, s).group(1)`, or `None` when nothing matches. */
  function Search(p: Pattern, s: string): Option<string> {
    match SearchFrom(p, s, 0)
    case Some((i, c)) => Some(c)
    case None => None
  }

  /** The search stops at the first start where the pattern matches. */
  lemma SearchFromFacts(p: Pattern, s: string, i: nat)
    requires i <= |s|
    ensures var r := SearchFrom(p, s, i);
            && (r.Some? ==> MatchAt(p, s[r.value.0..]) == Some(r.value.1))
            && (forall j :: i <= j <= |s| && (r.None? || j < r.value.0) ==> MatchAt(p, s[j..]).None?)
  {
    SearchFromFound(p, s, i);
    SearchFromSkipped(p, s, i);
  }

  lemma {:induction false} SearchFromFound(p: Pattern, s: string, i: nat)
    requires i <= |s|
    ensures var r := SearchFrom(p, s, i);
            r.Some? ==> MatchAt(p, s[r.value.0..]) == Some(r.value.1)
    decreases |s| - i
  {
    if MatchAt(p, s[i..]).None? && i < |s| {
      SearchFromFound(p, s, i + 1);
    }
  }

  lemma {:induction false} SearchFromSkipped(p: Pattern, s: string, i: nat)
    requires i <= |s|
    ensures var r := SearchFrom(p, s, i);
            forall j :: i <= j <= |s| && (r.None? || j < r.value.0) ==> MatchAt(p, s[j..]).None?
    decreases |s| - i
  {
    if MatchAt(p, s[i..]).None? && i < |s| {
      SearchFromSkipped(p, s, i + 1);
    }
  }

  /** What `Search` reports: nothing exactly when the pattern matches at no start, and
      otherwise the capture at the leftmost start where it matches. */
  lemma SearchFacts(p: Pattern, s: string)
    ensures Search(p, s).None? <==> forall i :: 0 <= i <= |s| ==> MatchAt(p, s[i..]).None?
    ensures Search(p, s).Some? ==> exists i :: 0 <= i <= |s| && MatchAt(p, s[i..]) == Search(p, s)
                                    && forall j :: 0 <= j < i ==> MatchAt(p, s[j..]).None?
  {
    SearchFromFacts(p, s, 0);
  }

  /** Text in front that lacks the keyword's first character adds no match: a keyword
      pattern finds in `pre + s` what it finds in `s`. */
  lemma KeywordSearchPast(keyword: string, arg: Arg, pre: string, s: string)
    requires keyword != [] && keyword[0] !in pre
    ensures Search(Keyword(keyword, arg), pre + s) == Search(Keyword(keyword, arg), s)
  {
    var p, t := Keyword(keyword, arg), pre + s;
    forall j | 0 <= j < |pre| ensures MatchAt(p, t[j..]).None? {
      assert t[j] == pre[j] && pre[j] in pre;
      KeywordNotHere(keyword, arg, t, j);
    }
    SearchSkips(p, t, 0, |pre|);
    assert t[|t| - |s|..] == s;
    SearchShift(p, t, s, 0);
  }

  /** Starts where the pattern cannot match are passed over. */
  lemma {:induction false} SearchSkips(p: Pattern, t: string, j: nat, n: nat)
    requires j <= n <= |t|
    requires forall k :: j <= k < n ==> MatchAt(p, t[k..]).None?
    ensures SearchFrom(p, t, j) == SearchFrom(p, t, n)
    decreases n - j
  {
    if j < n {
      SearchSkips(p, t, j + 1, n);
    }
  }

  /** A search result with its start moved on by `n`. */
  function Moved(r: Option<(nat, string)>, n: nat): (m: Option<(nat, string)>)
    ensures m.Some? <==> r.Some?
    ensures r.Some? ==> m.value.0 == r.value.0 + n && m.value.1 == r.value.1
  {
    match r
    case Some((k, c)) => Some((k + n, c))
    case None => None
  }

  /** Searching text from where `s` ends it finds what searching `s` finds, moved by
      where `s` starts. */
  lemma {:induction false} SearchShift(p: Pattern, t: string, s: string, i: nat)
    requires |s| <= |t| && t[|t| - |s|..] == s && i <= |s|
    ensures SearchFrom(p, t, |t| - |s| + i) == Moved(SearchFrom(p, s, i), |t| - |s|)
    decreases |s| - i
  {
    if i < |s| && MatchAt(p, s[i..]).None? {
      SearchShift(p, t, s, i + 1);
      SearchPassesOver(p, t, s, i);
    } else {
      SearchStopsAt(p, t, s, i);
    }
  }

  /** Where `s` has no match, neither search stops. */
  lemma SearchPassesOver(p: Pattern, t: string, s: string, i: nat)
    requires |s| <= |t| && t[|t| - |s|..] == s && i < |s| && MatchAt(p, s[i..]).None?
    ensures SearchFrom(p, s, i) == SearchFrom(p, s, i + 1)
    ensures SearchFrom(p, t, |t| - |s| + i) == SearchFrom(p, t, |t| - |s| + i + 1)
  {
    assert t[|t| - |s| + i..] == s[i..];
  }

  /** Where `s` has a match or ends, both searches stop there. */
  lemma SearchStopsAt(p: Pattern, t: string, s: string, i: nat)
    requires |s| <= |t| && t[|t| - |s|..] == s && i <= |s|
    requires i == |s| || MatchAt(p, s[i..]).Some?
    ensures SearchFrom(p, t, |t| - |s| + i) == Moved(SearchFrom(p, s, i), |t| - |s|)
  {
    assert t[|t| - |s| + i..] == s[i..];
  }

  /** The keyword pattern does not match where the keyword's first character is not. */
  lemma KeywordNotHere(keyword: string, arg: Arg, t: string, j: nat)
    requires keyword != [] && j < |t| && t[j] != keyword[0]
    ensures MatchAt(Keyword(keyword, arg), t[j..]).None?
  {
    if |keyword| <= |t[j..]| {
      assert t[j..][..|keyword|][0] == t[j];
    }
  }

  /** A match at the very start is the one `re.search` reports. */
  lemma SearchAtStart(p: Pattern, s: string)
    requires MatchAt(p, s).Some?
    ensures Search(p, s) == MatchAt(p, s)
  {
    assert s[0..] == s;
  }

  /** A match after a stretch where the pattern cannot start is the one reported. */
  lemma SearchAfter(p: Pattern, s: string, i: nat)
    requires i <= |s| && MatchAt(p, s[i..]).Some?
    requires forall j :: 0 <= j < i ==> MatchAt(p, s[j..]).None?
    ensures Search(p, s) == MatchAt(p, s[i..])
  {
    SearchFacts(p, s);
    assert Search(p, s).Some?;
    var k :| 0 <= k <= |s| && MatchAt(p, s[k..]) == Search(p, s)
             && forall j :: 0 <= j < k ==> MatchAt(p, s[j..]).None?;
    assert k == i;
  }

  /** Whatever the blanks run gives back, the capture is the argument matched right
      after some of the blanks. */
  lemma {:induction false} BacktrackIsTail(arg: Arg, s: string, q: nat)
    requires 1 <= q <= |s|
    requires Backtrack(arg, s, q).Some?
    ensures exists k :: 1 <= k <= q && Backtrack(arg, s, q) == TailAt(arg, s[k..])
    decreases q
  {
    if TailAt(arg, s[q..]).None? {
      BacktrackIsTail(arg, s, q - 1);
    }
  }

  /** A capture of `\s+<arg>` is one the argument can produce. */
  lemma ArgAtIsTail(arg: Arg, s: string)
    requires ArgAt(arg, s).Some?
    ensures exists k :: 1 <= k <= |s| && ArgAt(arg, s) == TailAt(arg, s[k..])
  {
    BacktrackIsTail(arg, s, Span(s, Blank));
  }

  /** When the argument already matches after all the blanks, nothing is given back. */
  lemma ArgAtGreedy(arg: Arg, s: string)
    requires 1 <= Span(s, Blank) && TailAt(arg, s[Span(s, Blank)..]).Some?
    ensures ArgAt(arg, s) == TailAt(arg, s[Span(s, Blank)..])
  {
  }

  /** The shapes of the captures. */
  lemma TailShape(arg: Arg, t: string)
    requires TailAt(arg, t).Some?
    ensures var c := TailAt(arg, t).value;
            && StartsWith(t, c)
            && (arg == Hex6 ==> |c| == 6 && All(c, HexDigit))
            && (arg == Url ==> ((StartsWith(c, "https://") && |c| > 8) || (StartsWith(c, "http://") && |c| > 7))
                               && All(c, NonBlank))
            && (arg == WordRun ==> |c| >= 1 && All(c, Word))
            && (arg == RestOfLine ==> |c| >= 1 && '\n' !in c)
            && (arg == UpToBracket ==> |c| >= 1 && '[' !in c)
  {
    match arg
    case Hex6 =>
    case Url => UrlTailShape(t);
    case WordRun => SpanFacts(t, Word);
    case RestOfLine => RunTailShape(t, '\n');
    case UpToBracket => RunTailShape(t, '[');
  }

  lemma UrlTailShape(t: string)
    requires TailAt(Url, t).Some?
    ensures var c := TailAt(Url, t).value;
            && StartsWith(t, c)
            && ((StartsWith(c, "https://") && |c| > 8) || (StartsWith(c, "http://") && |c| > 7))
            && All(c, NonBlank)
  {
    var scheme := if StartsWith(t, "https://") then 8 else 7;
    var n := Span(t[scheme..], NonBlank);
    SpanFacts(t[scheme..], NonBlank);
    assert All(t[..scheme], NonBlank) by {
      assert forall i :: 0 <= i < scheme ==> t[..scheme][i] == (if scheme == 8 then "https://" else "http://")[i];
    }
    PrefixLayout(t, scheme, n);
    AllConcat(t[..scheme], t[scheme..][..n], NonBlank);
  }

  /** The first `m + n` characters: the first `m`, then `n` more. */
  lemma PrefixLayout(t: string, m: nat, n: nat)
    requires m + n <= |t|
    ensures t[..m + n] == t[..m] + t[m..][..n]
    ensures t[..m + n][..m] == t[..m]
  {
  }

  lemma AllConcat(a: string, b: string, k: CharClass)
    requires All(a, k) && All(b, k)
    ensures All(a + b, k)
  {
  }

  /** The prefix of `t` without the character `x`. */
  lemma RunTailShape(t: string, x: char)
    ensures var n := Span(t, NoneOf({x}));
            && StartsWith(t, t[..n]) && x !in t[..n]
  {
    SpanFacts(t, NoneOf({x}));
    var n := Span(t, NoneOf({x}));
    assert forall i :: 0 <= i < n ==> t[..n][i] != x;
  }

  /** A run that fills the whole string is all of it. */
  lemma {:induction false} SpanAll(s: string, k: CharClass)
    requires All(s, k)
    ensures Span(s, k) == |s|
    decreases |s|
  {
    if s != [] {
      SpanAll(s[1..], k);
    }
  }

  /** `(.+)$` on a piece of a line takes all of it. */
  lemma RestOfLineTail(t: string)
    requires '\n' !in t
    ensures TailAt(RestOfLine, t) == if t == [] then None else Some(t)
  {
    assert forall i :: 0 <= i < |t| ==> t[i] in t;
    SpanAll(t, NoneOf({'\n'}));
    assert t[..|t|] == t;
  }

  /** `\s+(.+)$` on a single line: everything after the blanks, or, when nothing
      follows them and at least two blanks were there, the last blank alone. */
  lemma RestOfLineOnALine(s: string)
    requires '\n' !in s
    ensures var w := Span(s, Blank);
            ArgAt(RestOfLine, s) ==
              if w == 0 then None
              else if w < |s| then Some(s[w..])
              else if w >= 2 then Some(s[w - 1..])
              else None
  {
    var w := Span(s, Blank);
    if 1 <= w < |s| {
      RestAfterBlanks(s, w);
    } else if w == |s| >= 2 {
      RestIsLastBlank(s, w);
    }
  }

  /** Something follows the blanks: all of it is the capture. */
  lemma RestAfterBlanks(s: string, w: nat)
    requires '\n' !in s && w == Span(s, Blank) && 1 <= w < |s|
    ensures ArgAt(RestOfLine, s) == Some(s[w..])
  {
    NoLineFeedAfter(s, w);
    RestOfLineTail(s[w..]);
    ArgAtGreedy(RestOfLine, s);
  }

  /** Only blanks, at least two: the last one is given back and captured. */
  lemma RestIsLastBlank(s: string, w: nat)
    requires '\n' !in s && w == Span(s, Blank) == |s| >= 2
    ensures ArgAt(RestOfLine, s) == Some(s[w - 1..])
  {
    NoLineFeedAfter(s, w - 1);
    RestOfLineTail(s[w - 1..]);
    assert TailAt(RestOfLine, s[w..]).None?;
    assert Backtrack(RestOfLine, s, w) == Backtrack(RestOfLine, s, w - 1);
  }

  lemma NoLineFeedAfter(s: string, i: nat)
    requires '\n' !in s && i <= |s|
    ensures '\n' !in s[i..]
  {
    assert forall k :: i <= k < |s| ==> s[i..][k - i] == s[k];
  }

  /** `\s+([^\[]+)` when something other than `[` follows the blanks: the run from
      there up to the first `[` or the end. */
  lemma UpToBracketGreedy(s: string, w: nat)
    requires w == Span(s, Blank) && 1 <= w < |s| && s[w] != '['
    ensures ArgAt(UpToBracket, s) == Some(s[w..w + Span(s[w..], NoneOf({'['}))])
  {
    var t := s[w..];
    var n := Span(t, NoneOf({'['}));
    calc {
      ArgAt(UpToBracket, s);
    == { UpToBracketTail(t); ArgAtGreedy(UpToBracket, s); }
      TailAt(UpToBracket, t);
    == { UpToBracketTail(t); }
      Some(t[..n]);
    == { MiddleLayout(s, w, n); }
      Some(s[w..w + n]);
    }
  }

  /** `([^\[]+)` on text that does not start with `[`: the run up to the first `[`. */
  lemma UpToBracketTail(t: string)
    requires t != [] && t[0] != '['
    ensures TailAt(UpToBracket, t) == Some(t[..Span(t, NoneOf({'['}))])
  {
    assert Span(t, NoneOf({'['})) >= 1;
  }

  /** `\s+([^\[]+)` when `[` or the end follows two or more blanks: the blanks run gives
      back its last blank, which becomes the whole capture. */
  lemma LastBlankBeforeBracket(s: string, w: nat)
    requires 2 <= w == Span(s, Blank)
    requires w == |s| || s[w] == '['
    ensures ArgAt(UpToBracket, s) == Some([s[w - 1]])
  {
    SpanFacts(s, Blank);
    assert In(s[w - 1], Blank) by {
      assert s[..w][w - 1] == s[w - 1];
    }
    var t := s[w - 1..];
    assert t[1..] == s[w..];
    assert Span(s[w..], NoneOf({'['})) == 0;
    assert TailAt(UpToBracket, s[w..]) == None;
    assert Span(t, NoneOf({'['})) == 1;
    assert t[..1] == [s[w - 1]];
    assert TailAt(UpToBracket, t) == Some([s[w - 1]]);
    assert Backtrack(UpToBracket, s, w) == Backtrack(UpToBracket, s, w - 1);
  }
}
