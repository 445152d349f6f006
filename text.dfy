/** Python string semantics the bot relies on: the whitespace class shared by
    `str.split()`, `str.strip()` and the regular-expression class `\s`,
    whitespace-separated words, joining, searching, splitting on a separator,
    slicing and `re.sub(r'\s+', ' ', s)`. Strings are sequences of code points,
    as Python's `len` counts them. */
module Text {

  /** Python's `str.isspace()` for one code point. */
  predicate IsSpace(c: char) {
    || ('\t' <= c <= '\r')
    || ('\U{1C}' <= c <= ' ')
    || c == '\U{85}' || c == '\U{A0}' || c == '\U{1680}'
    || ('\U{2000}' <= c <= '\U{200A}')
    || c == '\U{2028}' || c == '\U{2029}' || c == '\U{202F}' || c == '\U{205F}' || c == '\U{3000}'
  }

  /** A word in the sense of `str.split()`: non-empty, no whitespace. */
  predicate IsWord(w: string) {
    |w| > 0 && forall i :: 0 <= i < |w| ==> !IsSpace(w[i])
  }

  /** Neither end of `s` is whitespace: what `str.strip()` leaves. */
  predicate IsStripped(s: string) {
    s == [] || (!IsSpace(s[0]) && !IsSpace(s[|s| - 1]))
  }

  /** Length of the whitespace prefix of `s`. */
  function SpaceLen(s: string): (n: nat)
    ensures n <= |s|
    ensures forall i :: 0 <= i < n ==> IsSpace(s[i])
    ensures n < |s| ==> !IsSpace(s[n])
  {
    if s != [] && IsSpace(s[0]) then 1 + SpaceLen(s[1..]) else 0
  }

  /** Length of the non-whitespace prefix of `s`. */
  function TokenLen(s: string): (n: nat)
    ensures n <= |s|
    ensures forall i :: 0 <= i < n ==> !IsSpace(s[i])
    ensures n < |s| ==> IsSpace(s[n])
  {
    if s != [] && !IsSpace(s[0]) then 1 + TokenLen(s[1..]) else 0
  }

  lemma TokenLenUnique(s: string, m: nat)
    requires m <= |s|
    requires forall i :: 0 <= i < m ==> !IsSpace(s[i])
    requires m < |s| ==> IsSpace(s[m])
    ensures TokenLen(s) == m
  {
  }

  /** Python's `s.split()` with no arguments: the maximal runs of
      non-whitespace, in order. */
  function Words(s: string): (ws: seq<string>)
    ensures forall i :: 0 <= i < |ws| ==> IsWord(ws[i])
    decreases |s|
  {
    if s == [] then []
    else if IsSpace(s[0]) then Words(s[1..])
    else
      var n := TokenLen(s);
      [s[..n]] + Words(s[n..])
  }

  /** Python's `sep.join(ws)`. */
  function Join(ws: seq<string>, sep: string): string
  {
    if ws == [] then ""
    else if |ws| == 1 then ws[0]
    else ws[0] + sep + Join(ws[1..], sep)
  }

  /** Python's `s.lstrip()`. */
  function LStrip(s: string): (r: string)
    ensures |r| <= |s| && r == s[|s| - |r|..]
    ensures r == [] || !IsSpace(r[0])
    ensures forall i :: 0 <= i < |s| - |r| ==> IsSpace(s[i])
  {
    if s != [] && IsSpace(s[0]) then LStrip(s[1..]) else s
  }

  /** Python's `s.rstrip()`. */
  function RStrip(s: string): (r: string)
    ensures |r| <= |s| && r == s[..|r|]
    ensures r == [] || !IsSpace(r[|r| - 1])
    ensures forall i :: |r| <= i < |s| ==> IsSpace(s[i])
  {
    if s != [] && IsSpace(s[|s| - 1]) then RStrip(s[..|s| - 1]) else s
  }

  /** Python's `s.strip()`: `s` without its leading and trailing whitespace. */
  function Strip(s: string): (r: string)
    ensures IsStripped(r)
    ensures |r| <= |s|
  {
    RStrip(LStrip(s))
  }

  /** Where `s.strip()` starts in `s`: it is the slice of `s` from there. */
  function StripStart(s: string): (a: nat)
    ensures a + |Strip(s)| <= |s| && Strip(s) == s[a..a + |Strip(s)|]
  {
    var l := LStrip(s);
    SliceOfSuffix(s, |s| - |l|, |RStrip(l)|);
    |s| - |l|
  }

  /** A prefix of a suffix is a slice. */
  lemma SliceOfSuffix<T>(s: seq<T>, k: nat, n: nat)
    requires k + n <= |s|
    ensures s[k..][..n] == s[k..k + n]
  {
  }

  lemma StripStripped(s: string)
    requires IsStripped(s)
    ensures Strip(s) == s
  {
  }

  /** `p` occurs in `s` starting at index `i`. */
  predicate OccursAt(s: string, p: string, i: int) {
    0 <= i && i + |p| <= |s| && s[i..i + |p|] == p
  }

  /** Python's `s.find(p, i)`: the first occurrence at or after `i`, or -1. */
  function FindFrom(s: string, p: string, i: nat): (r: int)
    ensures r == -1 || (i <= r && OccursAt(s, p, r))
    ensures r == -1 ==> forall j :: i <= j ==> !OccursAt(s, p, j)
    ensures r != -1 ==> forall j :: i <= j < r ==> !OccursAt(s, p, j)
    decreases |s| - i
  {
    if i + |p| > |s| then -1
    else if OccursAt(s, p, i) then i
    else FindFrom(s, p, i + 1)
  }

  /** Python's `s.find(p)`. */
  function Find(s: string, p: string): (r: int)
    ensures r == -1 || OccursAt(s, p, r)
    ensures r == -1 ==> forall j :: !OccursAt(s, p, j)
    ensures r != -1 ==> forall j :: 0 <= j < r ==> !OccursAt(s, p, j)
  {
    FindFrom(s, p, 0)
  }

  /** Python's `p in s`. */
  predicate Contains(s: string, p: string) {
    Find(s, p) != -1
  }

  /** Python's `s.startswith(p)`. */
  predicate StartsWith(s: string, p: string) {
    p <= s
  }

  /** Python's `s[:n]` for a non-negative `n`. */
  function Take<T>(s: seq<T>, n: nat): (r: seq<T>)
    ensures |r| <= n && r <= s
    ensures |r| == if |s| <= n then |s| else n
    ensures |s| <= n ==> r == s
  {
    if n <= |s| then s[..n] else s
  }

  /** Python's `s.split(sep, 1)`. */
  function SplitOnce(s: string, sep: string): (parts: seq<string>)
    requires |sep| > 0
    ensures 1 <= |parts| <= 2
    ensures |parts| == 2 <==> Contains(s, sep)
    ensures |parts| == 1 ==> parts[0] == s
    ensures |parts| == 2 ==> parts[0] + sep + parts[1] == s && !Contains(parts[0], sep)
  {
    var i := Find(s, sep);
    if i < 0 then [s]
    else
      assert s == s[..i] + sep + s[i + |sep|..];
      NoEarlierOccurrence(s, sep, i);
      [s[..i], s[i + |sep|..]]
  }

  /** Python's `s.split(sep)` for a non-empty separator. */
  function SplitOn(s: string, sep: string): (parts: seq<string>)
    requires |sep| > 0
    ensures |parts| >= 1
    ensures parts[0] == SplitOnce(s, sep)[0]
    ensures |parts| > 1 <==> Contains(s, sep)
    decreases |s|
  {
    var i := Find(s, sep);
    if i < 0 then [s] else [s[..i]] + SplitOn(s[i + |sep|..], sep)
  }

  /** An occurrence in a prefix is an occurrence in the whole string. */
  lemma NoEarlierOccurrence(s: string, p: string, i: nat)
    requires |p| > 0 && i + |p| <= |s|
    requires forall j :: 0 <= j < i ==> !OccursAt(s, p, j)
    ensures !Contains(s[..i], p)
  {
    forall j | 0 <= j && j + |p| <= i ensures !OccursAt(s[..i], p, j) {
      assert s[..i][j..j + |p|] == s[j..j + |p|];
      assert !OccursAt(s, p, j);
    }
  }

  /** Splitting on a separator and joining with it gives back the string. */
  lemma {:induction false} JoinSplitOn(s: string, sep: string)
    requires |sep| > 0
    ensures Join(SplitOn(s, sep), sep) == s
    decreases |s|
  {
    var i := Find(s, sep);
    if i >= 0 {
      var rest := s[i + |sep|..];
      JoinSplitOn(rest, sep);
      assert SplitOn(s, sep) == [s[..i]] + SplitOn(rest, sep);
      assert s == s[..i] + sep + rest;
    }
  }

  /** Every maximal whitespace run of `s` replaced by one space. */
  predicate Collapsed(s: string) {
    && (forall i :: 0 <= i < |s| && IsSpace(s[i]) ==> s[i] == ' ')
    && (forall i, j :: 0 <= i < |s| && 0 <= j < |s| && j == i + 1 ==> !(IsSpace(s[i]) && IsSpace(s[j])))
  }

  /** `re.sub(r'\s+', ' ', s)`. */
  function CollapseSpaces(s: string): (r: string)
    ensures Collapsed(r)
    ensures |r| <= |s|
    ensures s == [] <==> r == []
    ensures s != [] && IsSpace(s[0]) ==> r[0] == ' '
    ensures s != [] && !IsSpace(s[0]) ==> r[0] == s[0]
    decreases |s|
  {
    if s == [] then []
    else if IsSpace(s[0]) then
      var n := SpaceLen(s);
      var rest := CollapseSpaces(s[n..]);
      CollapsedCons(' ', rest);
      " " + rest
    else
      var rest := CollapseSpaces(s[1..]);
      CollapsedCons(s[0], rest);
      [s[0]] + rest
  }

  /** `CollapseSpaces` ends in whitespace exactly when its input does. */
  lemma {:induction false} CollapseLast(s: string)
    ensures s != [] && IsSpace(s[|s| - 1]) <==> CollapseSpaces(s) != [] && IsSpace(CollapseSpaces(s)[|CollapseSpaces(s)| - 1])
    decreases |s|
  {
    if s != [] {
      var n := if IsSpace(s[0]) then SpaceLen(s) else 1;
      var rest := CollapseSpaces(s[n..]);
      CollapseLast(s[n..]);
      if n < |s| {
        assert s[n..][|s[n..]| - 1] == s[|s| - 1];
      }
    }
  }

  /** Collapsing a stripped text leaves it stripped. */
  lemma CollapseStripped(s: string)
    requires IsStripped(s)
    ensures IsStripped(CollapseSpaces(s))
  {
    var r := CollapseSpaces(s);
    if s != [] {
      CollapseLast(s);
      assert !IsSpace(r[0]);
    }
  }

  /** One character in front of a collapsed text keeps it collapsed, unless
      it is whitespace other than a space or is followed by whitespace. */
  lemma CollapsedCons(c: char, rest: string)
    requires Collapsed(rest)
    requires IsSpace(c) ==> c == ' ' && (rest == [] || !IsSpace(rest[0]))
    ensures Collapsed([c] + rest)
  {
    var r := [c] + rest;
    forall i | 0 <= i < |r| && IsSpace(r[i]) ensures r[i] == ' ' {
      if i > 0 {
        assert r[i] == rest[i - 1];
      }
    }
    forall i, j | 0 <= i < |r| && 0 <= j < |r| && j == i + 1 ensures !(IsSpace(r[i]) && IsSpace(r[j])) {
      assert r[j] == rest[j - 1];
      if i > 0 {
        assert r[i] == rest[i - 1];
      }
    }
  }

  /** Whitespace between `a` and `b`, or an empty side, keeps the words of
      `a` and of `b` apart. */
  lemma {:induction false} WordsAppend(a: string, b: string)
    requires a == [] || b == [] || IsSpace(a[|a| - 1]) || IsSpace(b[0])
    ensures Words(a + b) == Words(a) + Words(b)
    decreases |a|
  {
    if a == [] {
      assert a + b == b && Words(a) == [];
    } else if b == [] {
      assert a + b == a && Words(b) == [];
    } else if IsSpace(a[0]) {
      WordsAppend(a[1..], b);
      WordsAppendSpaceStep(a, b);
    } else if TokenLen(a) < |a| {
      var n := TokenLen(a);
      assert a[n..][|a[n..]| - 1] == a[|a| - 1];
      WordsAppend(a[n..], b);
      WordsAppendTokenStep(a, b);
    } else {
      WordsAppendLastToken(a, b);
    }
  }

  /** Leading whitespace of `a` is skipped in `a + b` as in `a`. */
  lemma WordsAppendSpaceStep(a: string, b: string)
    requires a != [] && IsSpace(a[0])
    requires Words(a[1..] + b) == Words(a[1..]) + Words(b)
    ensures Words(a + b) == Words(a) + Words(b)
  {
    AppendSlices(a, b, 1);
    assert (a + b)[0] == a[0];
  }

  /** A first token that ends inside `a` is split off `a + b` as off `a`. */
  lemma WordsAppendTokenStep(a: string, b: string)
    requires a != [] && !IsSpace(a[0]) && TokenLen(a) < |a|
    requires Words(a[TokenLen(a)..] + b) == Words(a[TokenLen(a)..]) + Words(b)
    ensures Words(a + b) == Words(a) + Words(b)
  {
    var n := TokenLen(a);
    WordsAppendFirstToken(a, b);
    calc {
      Words(a + b);
      [a[..n]] + Words(a[n..] + b);
      [a[..n]] + (Words(a[n..]) + Words(b));
      ([a[..n]] + Words(a[n..])) + Words(b);
      Words(a) + Words(b);
    }
  }

  /** An `a` that is one token, followed by whitespace or nothing, is the
      first word of `a + b`. */
  lemma WordsAppendLastToken(a: string, b: string)
    requires a != [] && !IsSpace(a[0]) && TokenLen(a) == |a|
    requires b == [] || IsSpace(b[0])
    ensures Words(a + b) == Words(a) + Words(b)
  {
    var n := TokenLen(a);
    WordsAppendFirstToken(a, b);
    assert a[..n] == a && a[n..] == [] && a[n..] + b == b;
    calc {
      Words(a + b);
      [a] + Words(b);
      { assert Words(a) == [a] + Words(a[n..]) == [a]; }
      Words(a) + Words(b);
    }
  }

  /** When the first token of `a` ends inside `a` or right before
      whitespace of `b`, it is also the first token of `a + b`. */
  lemma WordsAppendFirstToken(a: string, b: string)
    requires a != [] && !IsSpace(a[0])
    requires TokenLen(a) < |a| || b == [] || IsSpace(b[0])
    ensures Words(a + b) == [a[..TokenLen(a)]] + Words(a[TokenLen(a)..] + b)
  {
    var n := TokenLen(a);
    var ab := a + b;
    assert forall i :: 0 <= i < n ==> ab[i] == a[i];
    assert n < |ab| ==> IsSpace(ab[n]) by {
      if n < |a| {
        assert ab[n] == a[n];
      } else if n < |ab| {
        assert ab[n] == b[0];
      }
    }
    TokenLenUnique(ab, n);
    assert ab[0] == a[0];
    AppendSlices(a, b, n);
  }

  /** Cutting `a + b` inside `a`. */
  lemma AppendSlices(a: string, b: string, n: nat)
    requires n <= |a|
    ensures (a + b)[..n] == a[..n] && (a + b)[n..] == a[n..] + b
  {
  }

  /** Leading whitespace does not change the words. */
  lemma {:induction false} WordsLStrip(s: string)
    ensures Words(LStrip(s)) == Words(s)
    decreases |s|
  {
    if s != [] && IsSpace(s[0]) {
      WordsLStrip(s[1..]);
    }
  }

  /** Trailing whitespace does not change the words. */
  lemma {:induction false} WordsRStrip(s: string)
    ensures Words(RStrip(s)) == Words(s)
    decreases |s|
  {
    if s != [] && IsSpace(s[|s| - 1]) {
      var init := s[..|s| - 1];
      WordsRStrip(init);
      WordsAppend(init, [s[|s| - 1]]);
      assert s == init + [s[|s| - 1]];
      assert Words([s[|s| - 1]]) == Words([]);
    }
  }

  /** `strip()` keeps exactly the words. */
  lemma WordsStrip(s: string)
    ensures Words(Strip(s)) == Words(s)
  {
    WordsLStrip(s);
    WordsRStrip(LStrip(s));
  }

  /** A whitespace-free prefix is copied unchanged by `CollapseSpaces`. */
  lemma {:induction false} CollapseCopiesToken(t: string, x: string)
    requires forall i :: 0 <= i < |t| ==> !IsSpace(t[i])
    ensures CollapseSpaces(t + x) == t + CollapseSpaces(x)
    decreases |t|
  {
    if t != [] {
      var u := t[1..] + x;
      assert t + x == [t[0]] + u;
      CollapseCopiesChar(t[0], u);
      CollapseCopiesToken(t[1..], x);
      assert t == [t[0]] + t[1..];
    } else {
      assert t + x == x;
    }
  }

  /** One non-whitespace character is copied unchanged. */
  lemma CollapseCopiesChar(c: char, u: string)
    requires !IsSpace(c)
    ensures CollapseSpaces([c] + u) == [c] + CollapseSpaces(u)
  {
    assert ([c] + u)[1..] == u;
  }

  /** A whitespace prefix shorter than the whole run does not change the words. */
  lemma {:induction false} WordsDropSpaces(s: string, n: nat)
    requires n <= |s|
    requires forall i :: 0 <= i < n ==> IsSpace(s[i])
    ensures Words(s[n..]) == Words(s)
    decreases n
  {
    if n > 0 {
      WordsDropSpaces(s[1..], n - 1);
      assert s[1..][n - 1..] == s[n..];
    }
  }

  /** `re.sub(r'\s+', ' ', s)` keeps exactly the words. */
  lemma {:induction false} WordsCollapse(s: string)
    ensures Words(CollapseSpaces(s)) == Words(s)
    decreases |s|
  {
    if s == [] {
    } else if IsSpace(s[0]) {
      var n := SpaceLen(s);
      WordsCollapse(s[n..]);
      WordsDropSpaces(s, n);
      WordsAppend(" ", CollapseSpaces(s[n..]));
      assert Words(" ") == Words(" "[1..]);
    } else {
      var n := TokenLen(s);
      var t, x := s[..n], s[n..];
      assert s == t + x;
      CollapseCopiesToken(t, x);
      WordsCollapse(x);
      WordsAppend(t, CollapseSpaces(x));
      WordsAppend(t, x);
      assert IsWord(t);
      WordsOfWord(t);
    }
  }

  /** Joining the last word with a suffix is the same as extending that word. */
  lemma {:induction false} JoinAppend(ws: seq<string>, sep: string, t: string)
    requires |ws| > 0
    ensures Join(ws, sep) + t == Join(ws[..|ws| - 1] + [ws[|ws| - 1] + t], sep)
    decreases |ws|
  {
    if |ws| > 1 {
      JoinAppend(ws[1..], sep, t);
      var v := ws[..|ws| - 1] + [ws[|ws| - 1] + t];
      assert v[1..] == ws[1..][..|ws[1..]| - 1] + [ws[1..][|ws[1..]| - 1] + t];
    }
  }

  /** Words joined by single spaces split back into the same words. */
  lemma {:induction false} WordsJoinSpace(ws: seq<string>)
    requires forall i :: 0 <= i < |ws| ==> IsWord(ws[i])
    ensures Words(Join(ws, " ")) == ws
    decreases |ws|
  {
    if |ws| == 1 {
      WordsOfWord(ws[0]);
      assert ws == [ws[0]];
    } else if |ws| > 1 {
      WordsJoinSpace(ws[1..]);
      WordsJoinSpaceStep(ws);
    }
  }

  /** A word, a space and a joined rest split into the word and the rest. */
  lemma WordsJoinSpaceStep(ws: seq<string>)
    requires |ws| > 1 && IsWord(ws[0])
    requires Words(Join(ws[1..], " ")) == ws[1..]
    ensures Words(Join(ws, " ")) == ws
  {
    var rest := Join(ws[1..], " ");
    var tail := " " + rest;
    assert Words(tail) == Words(rest) by {
      assert tail[1..] == rest && IsSpace(tail[0]);
    }
    WordsOfWord(ws[0]);
    WordsAppend(ws[0], tail);
    assert Join(ws, " ") == ws[0] + tail;
    assert ws == [ws[0]] + ws[1..];
  }

  /** A word splits into itself. */
  lemma WordsOfWord(w: string)
    requires IsWord(w)
    ensures Words(w) == [w]
  {
    TokenLenUnique(w, |w|);
    assert w[..|w|] == w;
    assert w[|w|..] == [];
  }

  /** A collapsed text is left alone by `re.sub(r'\s+', ' ', s)`. */
  lemma {:induction false} CollapseCollapsed(s: string)
    requires Collapsed(s)
    ensures CollapseSpaces(s) == s
    decreases |s|
  {
    if s != [] {
      var t := s[1..];
      assert Collapsed(t) by {
        forall i | 0 <= i < |t| && IsSpace(t[i])
          ensures t[i] == ' ' && (i + 1 < |t| ==> !IsSpace(t[i + 1]))
        {
          assert t[i] == s[i + 1];
          assert i + 1 < |t| ==> t[i + 1] == s[i + 2];
        }
      }
      CollapseCollapsed(t);
      if IsSpace(s[0]) {
        assert s[0] == ' ';
        assert t == [] || !IsSpace(t[0]) by {
          if t != [] { assert t[0] == s[1]; }
        }
        assert SpaceLen(t) == 0;
        assert SpaceLen(s) == 1;
        assert s[1..] == t;
        assert CollapseSpaces(s) == " " + CollapseSpaces(t);
        assert s == " " + t;
      } else {
        assert CollapseSpaces(s) == [s[0]] + CollapseSpaces(t);
        assert s == [s[0]] + t;
      }
    }
  }

  /** A prefix of a collapsed text is collapsed. */
  lemma CollapsedPrefix(s: string, n: nat)
    requires Collapsed(s)
    ensures Collapsed(Take(s, n))
  {
  }

  /** A collapsed text holds no line break. */
  lemma CollapsedNoNewline(s: string)
    requires Collapsed(s)
    ensures '\n' !in s
  {
    if '\n' in s {
      var i :| 0 <= i < |s| && s[i] == '\n';
      assert IsSpace(s[i]);
    }
  }

  /** Splitting `a + sep + b` once at `sep` gives back `a` and `b` when `a`
      holds no `sep` and no occurrence straddles the end of `a`. */
  lemma SplitOnceJoin(a: string, sep: string, b: string)
    requires |sep| > 0
    requires !Contains(a, sep)
    requires forall j :: |a| - |sep| < j < |a| ==> !OccursAt(a + sep + b, sep, j)
    ensures SplitOnce(a + sep + b, sep) == [a, b]
  {
    var s := a + sep + b;
    assert OccursAt(s, sep, |a|) by {
      assert s[|a|..|a| + |sep|] == sep;
    }
    var f := Find(s, sep);
    forall j | 0 <= j <= |a| - |sep| ensures !OccursAt(s, sep, j) {
      assert s[j..j + |sep|] == a[j..j + |sep|];
      assert !OccursAt(a, sep, j);
    }
    assert f == |a|;
    assert s[..|a|] == a;
    assert s[|a| + |sep|..] == b;
  }

  /** Whitespace between two texts keeps their words apart. */
  lemma WordsAroundSpace(a: string, sep: string, b: string)
    requires sep != [] && forall i :: 0 <= i < |sep| ==> IsSpace(sep[i])
    ensures Words(a + sep + b) == Words(a) + Words(b)
  {
    WordsDropSpaces(sep + b, |sep|);
    assert (sep + b)[|sep|..] == b;
    WordsAppend(a, sep + b);
    assert a + sep + b == a + (sep + b);
  }

  /** A text holding `p + q` holds `p`. */
  lemma ContainsPrefix(s: string, p: string, q: string)
    requires Contains(s, p + q)
    ensures Contains(s, p)
  {
    var f := Find(s, p + q);
    var w := s[f..f + |p + q|];
    assert w == p + q;
    forall k | 0 <= k < |p| ensures s[f + k] == p[k] {
      assert s[f + k] == w[k] == (p + q)[k];
    }
    assert s[f..f + |p|] == p;
    assert OccursAt(s, p, f);
  }

  /** A text without the first character of `p` does not hold `p`. */
  lemma NotContainsHead(s: string, p: string)
    requires p != [] && p[0] !in s
    ensures !Contains(s, p)
  {
    forall j: int ensures !OccursAt(s, p, j) {
      if 0 <= j && j + |p| <= |s| {
        assert s[j..j + |p|][0] == s[j];
      }
    }
  }

  /** Words joined by a two-character separator, a non-space then a space,
      split back on that separator into the same words. */
  lemma {:induction false} SplitOnJoinWords(ws: seq<string>, sep: string)
    requires ws != [] && forall i :: 0 <= i < |ws| ==> IsWord(ws[i])
    requires |sep| == 2 && !IsSpace(sep[0]) && IsSpace(sep[1])
    ensures SplitOn(Join(ws, sep), sep) == ws
    decreases |ws|
  {
    var w := ws[0];
    NotContainsSpace(w, sep);
    if |ws| == 1 {
      assert Join(ws, sep) == w;
    } else {
      var rest := Join(ws[1..], sep);
      var s := w + sep + rest;
      assert Join(ws, sep) == s;
      forall j | |w| - |sep| < j < |w| ensures !OccursAt(s, sep, j) {
        if 0 <= j && j + 2 <= |s| {
          assert j == |w| - 1;
          assert s[j..j + 2][1] == s[j + 1] == sep[0];
        }
      }
      SplitOnceJoin(w, sep, rest);
      SplitOnJoinWords(ws[1..], sep);
      var i := Find(s, sep);
      assert s[..i] == w;
      assert s[i + |sep|..] == rest;
    }
  }

  /** A word holds no text with whitespace in it. */
  lemma NotContainsSpace(w: string, p: string)
    requires IsWord(w) && |p| == 2 && IsSpace(p[1])
    ensures !Contains(w, p)
  {
    forall j: int ensures !OccursAt(w, p, j) {
      if 0 <= j && j + |p| <= |w| {
        assert w[j..j + |p|][1] == w[j + 1];
      }
    }
  }

  /** Splitting once at a whitespace separator and stripping both parts keeps
      the words. */
  lemma SplitOnceWords(t: string, sep: string)
    requires sep != [] && forall i :: 0 <= i < |sep| ==> IsSpace(sep[i])
    requires Contains(t, sep)
    ensures Words(Strip(SplitOnce(t, sep)[0])) + Words(Strip(SplitOnce(t, sep)[1])) == Words(t)
  {
    var parts := SplitOnce(t, sep);
    WordsStrip(parts[0]);
    WordsStrip(parts[1]);
    WordsAroundSpace(parts[0], sep, parts[1]);
  }

  /** The same at the first blank line. */
  lemma SplitAtBlankLineWords(t: string)
    requires Contains(t, "\n\n")
    ensures Words(Strip(SplitOnce(t, "\n\n")[0])) + Words(Strip(SplitOnce(t, "\n\n")[1])) == Words(t)
  {
    var sep := "\n\n";
    assert IsSpace(sep[0]) && IsSpace(sep[1]);
    SplitOnceWords(t, sep);
  }
}
