/** The string operations of Python's `str` that the parser and the renderers use
    (`strip`, `split`, `join`, `startswith`, `in`, `find`, `replace`, `str(int)`),
    the character classes of the regular expressions (`\s`, `\w`, hex digits), and
    `re.search`'s leftmost-match rule. */
module Text {
  import opened Optional

  /** `\s` and `str.isspace()` on ASCII: tab, line feed, vertical tab, form feed,
      carriage return, the separators 0x1C-0x1F and space. */
  predicate IsSpace(c: char) {
    9 <= c as int <= 13 || 28 <= c as int <= 32
  }

  /** `\w` on ASCII. */
  predicate IsWordChar(c: char) {
    ('a' <= c <= 'z') || ('A' <= c <= 'Z') || ('0' <= c <= '9') || c == '_'
  }

  /** `[A-Fa-f0-9]` */
  predicate IsHexDigit(c: char) {
    ('a' <= c <= 'f') || ('A' <= c <= 'F') || ('0' <= c <= '9')
  }

  predicate IsDigit(c: char) {
    '0' <= c <= '9'
  }

  /** The character classes that the patterns and `strip` calls of the source use. */
  datatype CharClass =
    | Blank                       // \s
    | NonBlank                    // [^\s]
    | Word                        // \w
    | WordOr(extra: set<char>)    // [\w...], a word character or one of `extra`
    | HexDigit                    // [A-Fa-f0-9]
    | Digit                       // [0-9]
    | AnyOf(chars: set<char>)     // the argument of `strip(chars)`
    | NoneOf(chars: set<char>)    // [^...]

  predicate In(c: char, k: CharClass) {
    match k
    case Blank => IsSpace(c)
    case NonBlank => !IsSpace(c)
    case Word => IsWordChar(c)
    case WordOr(extra) => IsWordChar(c) || c in extra
    case HexDigit => IsHexDigit(c)
    case Digit => IsDigit(c)
    case AnyOf(chars) => c in chars
    case NoneOf(chars) => c !in chars
  }

  predicate All(s: string, k: CharClass) {
    forall i :: 0 <= i < |s| ==> In(s[i], k)
  }

  /** Length of the longest prefix of `s` made of characters of class `k`
      (what a greedy `k+` or `k*` consumes). */
  function Span(s: string, k: CharClass): (n: nat)
    ensures n <= |s|
    decreases |s|
  {
    if s == [] || !In(s[0], k) then 0 else 1 + Span(s[1..], k)
  }

  /** The span is a run of `k`-characters that cannot be extended. */
  lemma {:induction false} SpanFacts(s: string, k: CharClass)
    ensures All(s[..Span(s, k)], k)
    ensures Span(s, k) == |s| || !In(s[Span(s, k)], k)
    decreases |s|
  {
    if s != [] && In(s[0], k) {
      SpanFacts(s[1..], k);
      assert s[..Span(s, k)] == [s[0]] + s[1..][..Span(s[1..], k)];
    }
  }

  /** A run of `k`-characters followed by something else is exactly the span. */
  lemma {:induction false} SpanOfRun(a: string, b: string, p: CharClass)
    requires All(a, p)
    requires b == [] || !In(b[0], p)
    ensures Span(a + b, p) == |a|
    decreases |a|
  {
    if a != [] {
      assert (a + b)[1..] == a[1..] + b;
      SpanOfRun(a[1..], b, p);
    } else {
      assert a + b == b;
    }
  }

  /** Length of the longest suffix of `s` made of characters of class `k`. */
  function SpanRight(s: string, k: CharClass): (n: nat)
    ensures n <= |s|
    decreases |s|
  {
    if s == [] || !In(s[|s| - 1], k) then 0 else 1 + SpanRight(s[..|s| - 1], k)
  }

  lemma {:induction false} SpanRightFacts(s: string, k: CharClass)
    ensures All(s[|s| - SpanRight(s, k)..], k)
    ensures SpanRight(s, k) == |s| || !In(s[|s| - SpanRight(s, k) - 1], k)
    decreases |s|
  {
    if s != [] && In(s[|s| - 1], k) {
      var init := s[..|s| - 1];
      SpanRightFacts(init, k);
      var j := |init| - SpanRight(init, k);
      assert |s| - SpanRight(s, k) == j;
      LastLayout(s, j);
      AllSnoc(init[j..], s[|s| - 1], k);
    }
  }

  lemma AllSnoc(a: string, c: char, k: CharClass)
    requires All(a, k) && In(c, k)
    ensures All(a + [c], k)
  {
  }

  /** The suffix from `j` is the one of all but the last character, then the last. */
  lemma LastLayout(s: string, j: nat)
    requires j < |s|
    ensures s[j..] == s[..|s| - 1][j..] + [s[|s| - 1]]
    ensures j > 0 ==> s[j - 1] == s[..|s| - 1][j - 1]
  {
  }

  /** `s.strip(chars)` for the characters of class `k`: the longest run of them is
      removed at each end, and nothing else. */
  function Trim(s: string, k: CharClass): (r: string)
    ensures |r| <= |s|
  {
    var a := Span(s, k);
    s[a..|s| - SpanRight(s[a..], k)]
  }

  /** What the trim removed are `k`-characters at the two ends, and what it kept starts
      and ends with characters outside `k`. */
  lemma TrimFacts(s: string, k: CharClass)
    ensures var r := Trim(s, k);
            && (r == [] || (!In(r[0], k) && !In(r[|r| - 1], k)))
            && exists i :: 0 <= i <= |s| - |r| && StartsWith(s[i..], r)
                           && All(s[..i], k) && All(s[i + |r|..], k)
  {
    var a := Span(s, k);
    var t := s[a..];
    var b := SpanRight(t, k);
    SpanFacts(s, k);
    SpanRightFacts(t, k);
    var n := |t| - b;
    MiddleLayout(s, a, n);
    assert StartsWith(s[a..], Trim(s, k));
  }

  /** The slice of `n` characters from `a`, seen from the suffix at `a`. */
  lemma MiddleLayout(s: string, a: nat, n: nat)
    requires a + n <= |s|
    ensures s[a..a + n] == s[a..][..n]
    ensures s[a + n..] == s[a..][n..]
    ensures n > 0 ==> s[a..a + n][0] == s[a] && s[a..a + n][n - 1] == s[a..][n - 1]
  {
  }


  lemma {:induction false} SpanRightOfRun(a: string, b: string, k: CharClass)
    requires All(b, k)
    requires a == [] || !In(a[|a| - 1], k)
    ensures SpanRight(a + b, k) == |b|
    decreases |b|
  {
    if b != [] {
      assert (a + b)[..|a + b| - 1] == a + b[..|b| - 1];
      SpanRightOfRun(a, b[..|b| - 1], k);
    } else {
      assert a + b == a;
    }
  }

  /** Concatenation regrouped, for texts whose parts the solver would otherwise unfold. */
  lemma Regroup(a: string, b: string, c: string)
    ensures a + b + c == a + (b + c)
  {
  }

  /** Trimming `k`-characters off text whose ends are not in `k` gives the text back. */
  lemma TrimExact(a: string, s: string, b: string, k: CharClass)
    requires All(a, k) && All(b, k)
    requires s != [] && !In(s[0], k) && !In(s[|s| - 1], k)
    ensures Trim(a + s + b, k) == s
  {
    var t := a + s + b;
    assert t == a + (s + b);
    SpanOfRun(a, s + b, k);
    assert t[|a|..] == s + b;
    SpanRightOfRun(s, b, k);
    assert t[|a|..|t| - |b|] == s;
  }

  /** A string with no `k`-character at either end is its own trim. */
  lemma TrimNothing(s: string, k: CharClass)
    requires s != [] && !In(s[0], k) && !In(s[|s| - 1], k)
    ensures Trim(s, k) == s
  {
    TrimExact([], s, [], k);
    assert [] + s + [] == s;
  }

  /** `s.strip()` */
  function Strip(s: string): string {
    Trim(s, Blank)
  }

  predicate IsBlank(s: string) {
    Strip(s) == []
  }

  lemma BlankIsAllSpace(s: string)
    ensures IsBlank(s) <==> All(s, Blank)
  {
    if All(s, Blank) {
      SpanOfRun(s, [], Blank);
      assert s + [] == s;
    } else {
      TrimFacts(s, Blank);
      if IsBlank(s) {
        var i :| 0 <= i <= |s| && All(s[..i], Blank) && All(s[i..], Blank);
        forall j | 0 <= j < |s| ensures In(s[j], Blank) {
          if j < i {
            assert s[..i][j] == s[j];
          } else {
            assert s[i..][j - i] == s[j];
          }
        }
      }
    }
  }

  /** `sep.join(parts)` */
  function Join(parts: seq<string>, sep: string): string
    decreases |parts|
  {
    if |parts| == 0 then ""
    else if |parts| == 1 then parts[0]
    else parts[0] + sep + Join(parts[1..], sep)
  }

  lemma JoinPair(a: string, b: string, sep: string)
    ensures Join([a, b], sep) == a + sep + b
  {
    assert [a, b][1..] == [b];
  }

  lemma JoinTriple(a: string, b: string, c: string, sep: string)
    ensures Join([a, b, c], sep) == a + sep + b + sep + c
  {
    assert [a, b, c][1..] == [b, c];
    JoinPair(b, c, sep);
  }

  /** `s.split(sep)` for a one-character separator: the pieces between separators,
      never an empty list. */
  function Split(s: string, sep: char): (r: seq<string>)
    ensures |r| >= 1
    decreases |s|
  {
    var n := Span(s, NoneOf({sep}));
    if n == |s| then [s] else [s[..n]] + Split(s[n + 1..], sep)
  }

  /** The pieces contain no separator, and joining them with it gives the text back. */
  lemma {:induction false} SplitFacts(s: string, sep: char)
    ensures var r := Split(s, sep);
            && (forall i :: 0 <= i < |r| ==> sep !in r[i])
            && Join(r, [sep]) == s
    decreases |s|
  {
    var n := Span(s, NoneOf({sep}));
    SpanFacts(s, NoneOf({sep}));
    if n == |s| {
      assert forall k :: 0 <= k < |s| ==> s[k] != sep;
    } else {
      SplitFacts(s[n + 1..], sep);
      var rest := Split(s[n + 1..], sep);
      var r := [s[..n]] + rest;
      assert r[1..] == rest;
      assert s[..n][..n] == s[..n];
      assert forall k :: 0 <= k < n ==> s[..n][k] != sep;
      assert s == s[..n] + [sep] + s[n + 1..];
    }
  }

  /** A character in none of the parts and not the separator is not in the joined text. */
  lemma {:induction false} JoinNotIn(parts: seq<string>, sep: string, c: char)
    requires forall i :: 0 <= i < |parts| ==> c !in parts[i]
    requires c !in sep
    ensures c !in Join(parts, sep)
    decreases |parts|
  {
    if |parts| > 1 {
      JoinNotIn(parts[1..], sep, c);
    }
  }

  /** The joined text begins with the first part. */
  lemma JoinStarts(parts: seq<string>, sep: string)
    requires |parts| >= 1
    ensures StartsWith(Join(parts, sep), parts[0])
  {
    if |parts| > 1 {
      var first, rest := parts[0], sep + Join(parts[1..], sep);
      assert Join(parts, sep) == first + rest;
      assert (first + rest)[..|first|] == first;
    }
  }

  /** The joined text ends with the last part. */
  lemma {:induction false} JoinEndsWith(parts: seq<string>, sep: string)
    requires |parts| >= 1
    ensures EndsWith(Join(parts, sep), parts[|parts| - 1])
    decreases |parts|
  {
    if |parts| > 1 {
      var last := parts[|parts| - 1];
      assert parts[1..][|parts| - 2] == last;
      JoinEndsWith(parts[1..], sep);
      var rest := Join(parts[1..], sep);
      var head := parts[0] + sep;
      assert Join(parts, sep) == head + rest;
      assert (head + rest)[|head + rest| - |last|..] == rest[|rest| - |last|..];
    }
  }

  /** Splitting undoes joining when the separator occurs in none of the parts. */
  lemma {:induction false} SplitJoin(parts: seq<string>, sep: char)
    requires |parts| >= 1
    requires forall i :: 0 <= i < |parts| ==> sep !in parts[i]
    ensures Split(Join(parts, [sep]), sep) == parts
    decreases |parts|
  {
    var first := parts[0];
    assert All(first, NoneOf({sep}));
    if |parts| == 1 {
      SpanOfRun(first, [], NoneOf({sep}));
      assert first + [] == first;
    } else {
      var rest := Join(parts[1..], [sep]);
      assert Join(parts, [sep]) == first + [sep] + rest;
      SeparatedLayout(first, sep, rest);
      SpanOfRun(first, [sep] + rest, NoneOf({sep}));
      SplitJoin(parts[1..], sep);
      assert parts == [first] + parts[1..];
    }
  }

  /** Where the parts of `a`, a separator and `b` stand. */
  lemma SeparatedLayout(a: string, sep: char, b: string)
    ensures var s := a + [sep] + b;
            && s == a + ([sep] + b) && s[..|a|] == a && s[|a| + 1..] == b
  {
  }

  /** `s.startswith(prefix)` */
  predicate StartsWith(s: string, prefix: string) {
    |prefix| <= |s| && s[..|prefix|] == prefix
  }

  /** Text that starts with a prefix still does after more is appended. */
  lemma StartsWithMore(s: string, more: string, prefix: string)
    requires StartsWith(s, prefix)
    ensures StartsWith(s + more, prefix)
  {
    assert (s + more)[..|prefix|] == s[..|prefix|];
  }

  /** `s.endswith(suffix)` */
  predicate EndsWith(s: string, suffix: string) {
    |suffix| <= |s| && s[|s| - |suffix|..] == suffix
  }

  /** `pattern in s` */
  predicate Contains(s: string, pattern: string)
    decreases |s|
  {
    StartsWith(s, pattern) || (s != [] && Contains(s[1..], pattern))
  }

  /** A pattern with a character that `s` lacks does not occur in `s`. */
  lemma {:induction false} MissingCharNotContained(s: string, pattern: string, j: nat)
    requires j < |pattern| && forall i :: 0 <= i < |s| ==> s[i] != pattern[j]
    ensures !Contains(s, pattern)
    decreases |s|
  {
    assert !StartsWith(s, pattern) by {
      if |pattern| <= |s| {
        assert s[..|pattern|][j] == s[j];
      }
    }
    if s != [] {
      assert forall i :: 0 <= i < |s[1..]| ==> s[1..][i] == s[i + 1];
      MissingCharNotContained(s[1..], pattern, j);
    }
  }

  /** A pattern with two neighbouring characters that never stand side by side in `s`
      does not occur in `s`. */
  lemma {:induction false} MissingPairNotContained(s: string, pattern: string, j: nat)
    requires j + 1 < |pattern|
    requires forall i :: 0 <= i < |s| - 1 ==> s[i] != pattern[j] || s[i + 1] != pattern[j + 1]
    ensures !Contains(s, pattern)
    decreases |s|
  {
    assert !StartsWith(s, pattern) by {
      if |pattern| <= |s| {
        assert s[..|pattern|][j] == s[j] && s[..|pattern|][j + 1] == s[j + 1];
      }
    }
    if s != [] {
      assert forall i :: 0 <= i < |s[1..]| ==> s[1..][i] == s[i + 1];
      MissingPairNotContained(s[1..], pattern, j);
    }
  }

  /** Text in front that lacks the pattern's first character adds no occurrence. */
  lemma {:induction false} ContainsPast(pre: string, s: string, pattern: string)
    requires pattern != [] && pattern[0] !in pre
    ensures Contains(pre + s, pattern) <==> Contains(s, pattern)
    decreases |pre|
  {
    if pre == [] {
      assert pre + s == s;
    } else {
      var t := pre + s;
      assert !StartsWith(t, pattern) by {
        assert t[0] == pre[0] && pre[0] in pre;
        if |pattern| <= |t| {
          assert t[..|pattern|][0] == t[0];
        }
      }
      assert t[1..] == pre[1..] + s;
      ContainsPast(pre[1..], s, pattern);
    }
  }

  /** `pattern in s` holds exactly when the pattern starts somewhere in `s`. */
  lemma {:induction false} ContainsAt(s: string, pattern: string)
    ensures Contains(s, pattern) <==> exists i :: 0 <= i <= |s| && StartsWith(s[i..], pattern)
    decreases |s|
  {
    if Contains(s, pattern) {
      ContainsWitness(s, pattern);
    }
    if exists i :: 0 <= i <= |s| && StartsWith(s[i..], pattern) {
      var i :| 0 <= i <= |s| && StartsWith(s[i..], pattern);
      ContainsFrom(s, pattern, i);
    }
  }

  lemma {:induction false} ContainsWitness(s: string, pattern: string)
    requires Contains(s, pattern)
    ensures exists i :: 0 <= i <= |s| && StartsWith(s[i..], pattern)
    decreases |s|
  {
    if StartsWith(s, pattern) {
      assert s[0..] == s;
    } else {
      ContainsWitness(s[1..], pattern);
      var i :| 0 <= i <= |s| - 1 && StartsWith(s[1..][i..], pattern);
      assert s[1..][i..] == s[i + 1..];
    }
  }

  lemma {:induction false} ContainsFrom(s: string, pattern: string, i: nat)
    requires i <= |s| && StartsWith(s[i..], pattern)
    ensures Contains(s, pattern)
    decreases i
  {
    if i == 0 {
      assert s[0..] == s;
    } else {
      assert s[1..][i - 1..] == s[i..];
      ContainsFrom(s[1..], pattern, i - 1);
    }
  }

  /** `s.find(pattern, start)`, with `None` for Python's -1. */
  function Find(s: string, pattern: string, start: nat): (r: Option<nat>)
    ensures r.Some? ==> start <= r.value <= |s| - |pattern| && StartsWith(s[r.value..], pattern)
    ensures forall i :: start <= i <= |s| - |pattern| && (r.None? || i < r.value)
                        ==> !StartsWith(s[i..], pattern)
    decreases |s| - start
  {
    if start + |pattern| > |s| then None
    else if StartsWith(s[start..], pattern) then Some(start)
    else Find(s, pattern, start + 1)
  }

  /** The position of the first occurrence of `x`: where a dict key stands in the
      insertion order, and the `i` of `enumerate` over it. */
  function IndexOf(s: seq<string>, x: string): (i: nat)
    requires x in s
    ensures i < |s| && s[i] == x && forall j :: 0 <= j < i ==> s[j] != x
  {
    if s[0] == x then 0 else 1 + IndexOf(s[1..], x)
  }

  /** `s.replace(c, with)` for a one-character pattern. */
  function Replace(s: string, c: char, with: string): string
    decreases |s|
  {
    if s == [] then [] else (if s[0] == c then with else [s[0]]) + Replace(s[1..], c, with)
  }

  /** `.replace("<", "\\<").replace(">", "\\>")`: the record-label escaping of both
      Node classes. */
  function Escape(s: string): string {
    Replace(Replace(s, '<', "\\<"), '>', "\\>")
  }

  /** The reading of an escaped label: a backslash before `<` or `>` is dropped. */
  function Unescape(s: string): string
    decreases |s|
  {
    if s == [] then []
    else if |s| >= 2 && s[0] == '\\' && (s[1] == '<' || s[1] == '>') then [s[1]] + Unescape(s[2..])
    else [s[0]] + Unescape(s[1..])
  }

  lemma {:induction false} ReplaceAppend(a: string, b: string, c: char, with: string)
    ensures Replace(a + b, c, with) == Replace(a, c, with) + Replace(b, c, with)
    decreases |a|
  {
    if a != [] {
      assert (a + b)[1..] == a[1..] + b;
      ReplaceAppend(a[1..], b, c, with);
    } else {
      assert a + b == b;
    }
  }

  lemma {:induction false} EscapeCons(c: char, rest: string)
    ensures Escape([c] + rest) == (if c == '<' || c == '>' then ['\\', c] else [c]) + Escape(rest)
  {
    ReplaceAppend([c], rest, '<', "\\<");
    var once := if c == '<' then "\\<" else [c];
    assert Replace([c], '<', "\\<") == once;
    ReplaceAppend(once, Replace(rest, '<', "\\<"), '>', "\\>");
    if c == '<' {
      assert Replace(once, '>', "\\>") == ['\\'] + Replace(['<'], '>', "\\>");
    } else if c == '>' {
      assert Replace(once, '>', "\\>") == "\\>";
    } else {
      assert Replace(once, '>', "\\>") == [c];
    }
  }

  /** An escaped string never starts with a bare `<` or `>`. */
  lemma {:induction false} EscapeHead(s: string)
    ensures Escape(s) == [] <==> s == []
    ensures Escape(s) != [] ==> Escape(s)[0] != '<' && Escape(s)[0] != '>'
  {
    if s != [] {
      EscapeCons(s[0], s[1..]);
      assert s == [s[0]] + s[1..];
    }
  }

  /** Every `<` and `>` in `s` has a backslash right before it. */
  predicate BracketsEscaped(s: string) {
    forall i :: 0 <= i < |s| && (s[i] == '<' || s[i] == '>') ==> i > 0 && s[i - 1] == '\\'
  }

  /** Escaping leaves no bare `<` or `>`: each one is preceded by a backslash. */
  lemma {:induction false} EscapeMarksBrackets(s: string)
    ensures BracketsEscaped(Escape(s))
    decreases |s|
  {
    if s != [] {
      var c, rest := s[0], s[1..];
      assert s == [c] + rest;
      EscapeCons(c, rest);
      EscapeMarksBrackets(rest);
      EscapeHead(rest);
      var head: string := if c == '<' || c == '>' then ['\\', c] else [c];
      var t := Escape(s);
      forall i | 0 <= i < |t| && (t[i] == '<' || t[i] == '>') ensures i > 0 && t[i - 1] == '\\' {
        if i >= |head| {
          assert t[i] == Escape(rest)[i - |head|];
          if i > |head| {
            assert t[i - 1] == Escape(rest)[i - 1 - |head|];
          }
        }
      }
    }
  }

  /** Escaping loses nothing: reading the label back gives the original text. */
  lemma {:induction false} EscapeRoundTrip(s: string)
    ensures Unescape(Escape(s)) == s
    decreases |s|
  {
    if s != [] {
      var c, rest := s[0], s[1..];
      assert s == [c] + rest;
      EscapeCons(c, rest);
      EscapeRoundTrip(rest);
      EscapeHead(rest);
      var t := Escape(s);
      if c == '<' || c == '>' {
        assert t[2..] == Escape(rest);
      } else {
        assert t[1..] == Escape(rest);
        if c == '\\' && |t| >= 2 {
          assert t[1] == Escape(rest)[0];
        }
      }
    }
  }

  /** The digit character of `d`. */
  function DigitChar(d: nat): (c: char)
    requires d < 10
    ensures IsDigit(c) && c as int - '0' as int == d
  {
    ('0' as int + d) as char
  }

  /** `str(n)` for a non-negative integer. */
  function NatToString(n: nat): (r: string)
    ensures |r| >= 1 && All(r, Digit)
    decreases n
  {
    if n < 10 then [DigitChar(n)] else NatToString(n / 10) + [DigitChar(n % 10)]
  }

  /** The value of a decimal digit string: `int(s)`. */
  function DigitsValue(s: string): nat
    requires All(s, Digit)
    decreases |s|
  {
    if s == [] then 0
    else DigitsValue(s[..|s| - 1]) * 10 + (s[|s| - 1] as int - '0' as int)
  }

  lemma {:induction false} NatToStringRoundTrip(n: nat)
    ensures DigitsValue(NatToString(n)) == n
    decreases n
  {
    var r := NatToString(n);
    if n >= 10 {
      NatToStringRoundTrip(n / 10);
      assert r[..|r| - 1] == NatToString(n / 10);
    }
  }

  /** Different numbers print differently. */
  lemma NatToStringInjective(m: nat, n: nat)
    requires NatToString(m) == NatToString(n)
    ensures m == n
  {
    NatToStringRoundTrip(m);
    NatToStringRoundTrip(n);
  }
}
