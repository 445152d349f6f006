/** news_parsing/parser.py: text cleaning, the word limit, the DeepSeek
    fallback, the feed-entry defaults and the per-feed dispatch loop. The
    DeepSeek request, the article download, `feedparser.parse`,
    `html.unescape` and `send_news_to_admin` are outside the model: their
    outcomes arrive as values (a `DeepSeekReply`, the downloaded article
    text, the list of entries) or as the function `unescape`. */
module Parser {
  import opened Text
  import opened Wrappers
  import Database

  // ---------------------------------------------------------------------
  // clean_text, step 1: re.sub(r'<[^>]+>', '', text)

  /** Index of the first '>' in `s`, or `|s|` when there is none. */
  function CloseIndex(s: string): (j: nat)
    ensures j <= |s|
    ensures j < |s| ==> s[j] == '>'
    ensures forall i :: 0 <= i < j ==> s[i] != '>'
  {
    if s == [] || s[0] == '>' then 0 else 1 + CloseIndex(s[1..])
  }

  /** `s` starts with a match of `<[^>]+>`: a '<', at least one character
      other than '>', then a '>'. */
  predicate TagAtStart(s: string) {
    s != [] && s[0] == '<' && 2 <= CloseIndex(s) < |s|
  }

  /** No position of `s` starts a match of `<[^>]+>`. */
  predicate NoTags(s: string)
    decreases |s|
  {
    s == [] || (!TagAtStart(s) && NoTags(s[1..]))
  }

  /** Removal of every `<...>` tag, scanning left to right as `re.sub` does;
      what is left contains no tag at all. */
  function StripTags(s: string): (r: string)
    ensures NoTags(r)
    ensures |r| <= |s|
    ensures '>' !in s ==> '>' !in r
    ensures s != [] && s[0] == '>' ==> r != [] && r[0] == '>'
    decreases |s|
  {
    if s == [] then []
    else if TagAtStart(s) then StripTags(s[CloseIndex(s) + 1..])
    else
      var rest := StripTags(s[1..]);
      assert '>' !in s ==> '>' !in s[1..];
      assert [s[0]] + rest != [] && ([s[0]] + rest)[1..] == rest;
      [s[0]] + rest
  }

  // ---------------------------------------------------------------------
  // clean_text, step 3 as written: re.sub(r'\s+\n', '\n', text)

  /** Index of the last `c` in `s`, or -1. */
  function LastIndexOf(s: string, c: char): (k: int)
    ensures -1 <= k < |s|
    ensures k >= 0 ==> s[k] == c
    ensures forall i :: k < i < |s| ==> s[i] != c
  {
    if s == [] then -1
    else if s[|s| - 1] == c then |s| - 1
    else LastIndexOf(s[..|s| - 1], c)
  }

  /** Where a match of `\s+\n` starting at index 0 of `s` ends (exclusive),
      or 0 when there is none: `\s+` takes the whole whitespace run and gives
      back characters until a '\n' follows, so the match ends just after the
      last '\n' of the run that is not its first character. */
  function SquashEnd(s: string): (e: nat)
    ensures e <= |s|
    ensures e > 0 ==> 2 <= e <= SpaceLen(s) && s[e - 1] == '\n'
    ensures e > 0 ==> forall i :: e <= i < SpaceLen(s) ==> s[i] != '\n'
    ensures e == 0 ==> forall i :: 1 <= i < SpaceLen(s) ==> s[i] != '\n'
  {
    var n := SpaceLen(s);
    if n == 0 then 0
    else
      var k := LastIndexOf(s[1..n], '\n');
      assert forall i :: 1 <= i < n ==> s[1..n][i - 1] == s[i];
      if k < 0 then 0 else k + 2
  }

  /** `re.sub(r'\s+\n', '\n', s)` exactly as parser.py line 35 writes it.
      Because `\s` also matches '\n', a blank line ("\n\n") is itself a
      match and is reduced to one '\n'. */
  function SquashBeforeNewline(s: string): (r: string)
    decreases |s|
  {
    if s == [] then []
    else if SquashEnd(s) > 0 then "\n" + SquashBeforeNewline(s[SquashEnd(s)..])
    else [s[0]] + SquashBeforeNewline(s[1..])
  }

  /** The whitespace character at `i` is immediately followed by '\n'. */
  predicate SpaceBeforeNewlineAt(s: string, i: int) {
    0 <= i && i + 1 < |s| && IsSpace(s[i]) && s[i + 1] == '\n'
  }

  /** No whitespace character of `s` is immediately followed by '\n'. */
  predicate NoSpaceBeforeNewline(s: string) {
    forall i :: 0 <= i < |s| ==> !SpaceBeforeNewlineAt(s, i)
  }

  /** When the leading whitespace run of `s` has no '\n' after its first
      character, `SquashBeforeNewline` starts with the first character. */
  lemma SquashHead(s: string)
    requires s != []
    requires forall i :: 1 <= i < SpaceLen(s) ==> s[i] != '\n'
    ensures SquashBeforeNewline(s) != [] && SquashBeforeNewline(s)[0] == s[0]
  {
    assert SquashEnd(s) == 0;
  }

  /** The property parser.py line 35 aims at holds of its output: no
      whitespace before a line break. */
  lemma {:induction false} SquashNoSpaceBeforeNewline(s: string)
    ensures NoSpaceBeforeNewline(SquashBeforeNewline(s))
    decreases |s|
  {
    if s == [] {
    } else if SquashEnd(s) > 0 {
      var e := SquashEnd(s);
      var t := s[e..];
      SquashNoSpaceBeforeNewline(t);
      var rest := SquashBeforeNewline(t);
      if t != [] {
        // The rest of the whitespace run after the last '\n' has no '\n'.
        var n := SpaceLen(s);
        SpaceLenUnique(t, n - e);
        forall i | 1 <= i < SpaceLen(t) ensures t[i] != '\n' {
          assert t[i] == s[e + i];
        }
        assert t[0] != '\n' by {
          if e < n { assert t[0] == s[e]; } else { assert !IsSpace(t[0]); }
        }
        SquashHead(t);
      }
      assert SquashBeforeNewline(s) == "\n" + rest;
      NoSpaceBeforeNewlineCons('\n', rest);
    } else {
      var rest := SquashBeforeNewline(s[1..]);
      SquashNoSpaceBeforeNewline(s[1..]);
      if IsSpace(s[0]) && s[1..] != [] {
        var n := SpaceLen(s);
        assert SpaceLen(s[1..]) == n - 1;
        forall i | 1 <= i < SpaceLen(s[1..]) ensures s[1..][i] != '\n' {
          assert s[1..][i] == s[i + 1];
        }
        assert s[1..][0] != '\n' by {
          if n > 1 { assert s[1] == s[1..][0]; } else { assert !IsSpace(s[1..][0]); }
        }
        SquashHead(s[1..]);
      } else if s[1..] != [] {
        SquashHeadAny(s[1..]);
      }
      NoSpaceBeforeNewlineCons(s[0], rest);
    }
  }

  /** The first character of `SquashBeforeNewline(s)` is the first character
      of `s` or a '\n'. */
  lemma SquashHeadAny(s: string)
    requires s != []
    ensures SquashBeforeNewline(s) != []
    ensures SquashBeforeNewline(s)[0] == s[0] || SquashBeforeNewline(s)[0] == '\n'
  {
  }

  lemma NoSpaceBeforeNewlineCons(c: char, rest: string)
    requires NoSpaceBeforeNewline(rest)
    requires rest != [] && IsSpace(c) ==> rest[0] != '\n'
    ensures NoSpaceBeforeNewline([c] + rest)
  {
    var s := [c] + rest;
    forall i | 0 <= i < |s| ensures !SpaceBeforeNewlineAt(s, i) {
      if i + 1 < |s| {
        assert s[i + 1] == rest[i];
        if i > 0 {
          assert s[i] == rest[i - 1];
          assert !SpaceBeforeNewlineAt(rest, i - 1);
        }
      }
    }
  }

  lemma SpaceLenUnique(s: string, m: nat)
    requires m <= |s|
    requires forall i :: 0 <= i < m ==> IsSpace(s[i])
    requires m < |s| ==> !IsSpace(s[m])
    ensures SpaceLen(s) == m
  {
  }

  // ---------------------------------------------------------------------
  // clean_text, step 4: re.sub(r'\n{3,}', '\n\n', text)

  /** Length of the run of '\n' that starts `s`. */
  function NewlineRun(s: string): (n: nat)
    ensures n <= |s|
    ensures forall i :: 0 <= i < n ==> s[i] == '\n'
    ensures n < |s| ==> s[n] != '\n'
  {
    if s != [] && s[0] == '\n' then 1 + NewlineRun(s[1..]) else 0
  }

  /** `re.sub(r'\n{3,}', '\n\n', s)`: every run of three or more line
      breaks becomes exactly two. */
  function CapNewlines(s: string): (r: string)
    ensures NewlineRun(r) == if NewlineRun(s) < 2 then NewlineRun(s) else 2
    decreases |s|
  {
    if s == [] then []
    else if NewlineRun(s) >= 3 then
      var m := NewlineRun(s);
      "\n\n" + CapNewlines(s[m..])
    else
      var rest := CapNewlines(s[1..]);
      assert s[0] == '\n' ==> NewlineRun(s[1..]) == NewlineRun(s) - 1;
      [s[0]] + rest
  }

  /** `s` has no three consecutive line breaks. */
  predicate NoTripleNewline(s: string) {
    forall i :: 0 <= i < |s| ==> !TripleNewlineAt(s, i)
  }

  /** Three line breaks start at index `i` of `s`. */
  predicate TripleNewlineAt(s: string, i: int) {
    0 <= i && i + 2 < |s| && s[i] == '\n' && s[i + 1] == '\n' && s[i + 2] == '\n'
  }

  /** After step 4 no run of three or more line breaks is left. */
  lemma {:induction false} CapNoTripleNewline(s: string)
    ensures NoTripleNewline(CapNewlines(s))
    decreases |s|
  {
    var r := CapNewlines(s);
    if s == [] {
    } else if NewlineRun(s) >= 3 {
      var m := NewlineRun(s);
      var rest := CapNewlines(s[m..]);
      CapNoTripleNewline(s[m..]);
      assert r == "\n\n" + rest;
      assert rest == [] || rest[0] != '\n';
      forall i ensures !TripleNewlineAt(r, i) {
        if 0 <= i && i + 2 < |r| {
          assert r[i + 2] == rest[i];
          if i >= 2 {
            assert r[i] == rest[i - 2] && r[i + 1] == rest[i - 1];
            assert !TripleNewlineAt(rest, i - 2);
          }
        }
      }
    } else {
      var rest := CapNewlines(s[1..]);
      CapNoTripleNewline(s[1..]);
      assert r == [s[0]] + rest;
      assert s[0] == '\n' ==> NewlineRun(rest) < 2 by {
        if s[0] == '\n' {
          assert NewlineRun(s[1..]) == NewlineRun(s) - 1;
        }
      }
      forall i ensures !TripleNewlineAt(r, i) {
        if 0 <= i && i + 2 < |r| {
          assert r[i + 1] == rest[i] && r[i + 2] == rest[i + 1];
          if i >= 1 {
            assert r[i] == rest[i - 1];
            assert !TripleNewlineAt(rest, i - 1);
          }
        }
      }
    }
  }

  /** Step 4 changes nothing in a text without two consecutive line breaks. */
  lemma {:induction false} CapNewlinesIdentity(s: string)
    requires NoSpaceBeforeNewline(s)
    ensures CapNewlines(s) == s
    decreases |s|
  {
    if s != [] {
      assert NewlineRun(s) < 2 by {
        if |s| >= 2 && s[0] == '\n' { assert !SpaceBeforeNewlineAt(s, 0); }
      }
      NoSpaceBeforeNewlineSlice(s, s[1..], 1);
      CapNewlinesIdentity(s[1..]);
    }
  }

  // ---------------------------------------------------------------------
  // clean_text as written

  /** `clean_text` exactly as parser.py lines 32-37 (and News/main.py lines
      44-49) write it; `unescape` stands for `html.unescape`. */
  function CleanText(text: string, unescape: string -> string): string
  {
    Strip(CapNewlines(SquashBeforeNewline(unescape(StripTags(text)))))
  }

  /** A slice of a text without whitespace before line breaks has none either. */
  lemma NoSpaceBeforeNewlineSlice(s: string, t: string, a: nat)
    requires a + |t| <= |s| && t == s[a..a + |t|]
    requires NoSpaceBeforeNewline(s)
    ensures NoSpaceBeforeNewline(t)
  {
    forall i | 0 <= i < |t| ensures !SpaceBeforeNewlineAt(t, i) {
      assert !SpaceBeforeNewlineAt(s, a + i);
      if i + 1 < |t| {
        assert t[i] == s[a + i] && t[i + 1] == s[a + i + 1];
      }
    }
  }


  /** Stripping keeps a text free of whitespace before line breaks. */
  lemma StripNoSpaceBeforeNewline(s: string)
    requires NoSpaceBeforeNewline(s)
    ensures NoSpaceBeforeNewline(Strip(s))
  {
    NoSpaceBeforeNewlineSlice(s, Strip(s), StripStart(s));
  }

  /** A text without whitespace before line breaks has no blank line. */
  lemma NoBlankLine(r: string)
    requires NoSpaceBeforeNewline(r)
    ensures !Contains(r, "\n\n")
  {
    forall j: int ensures !OccursAt(r, "\n\n", j) {
      if 0 <= j && j + 2 <= |r| {
        assert r[j..j + 2][0] == r[j] && r[j..j + 2][1] == r[j + 1];
        assert IsSpace('\n');
        assert !SpaceBeforeNewlineAt(r, j);
      }
    }
  }

  /** What `clean_text` as written returns: stripped at both ends, and no
      whitespace character (a line break included) is followed by a line
      break, so it never holds two line breaks in a row, let alone three. */
  lemma CleanTextShape(text: string, unescape: string -> string)
    ensures IsStripped(CleanText(text, unescape))
    ensures NoSpaceBeforeNewline(CleanText(text, unescape))
    ensures !Contains(CleanText(text, unescape), "\n\n")
  {
    var u := unescape(StripTags(text));
    var q := SquashBeforeNewline(u);
    SquashNoSpaceBeforeNewline(u);
    CapNewlinesIdentity(q);
    StripNoSpaceBeforeNewline(q);
    assert CleanText(text, unescape) == Strip(q);
    NoBlankLine(Strip(q));
  }

  /** Any text holding a blank line (such as "A\n\nB") is changed by
      `clean_text` as written: its result never holds one. */
  lemma CleanTextDropsBlankLine(text: string, unescape: string -> string)
    requires Contains(text, "\n\n")
    ensures CleanText(text, unescape) != text
  {
    CleanTextShape(text, unescape);
  }

  /** Text without a '<' has no tag to remove. */
  lemma {:induction false} StripTagsNoOpen(s: string)
    requires '<' !in s
    ensures StripTags(s) == s
    decreases |s|
  {
    if s != [] {
      assert !TagAtStart(s);
      assert '<' !in s[1..];
      StripTagsNoOpen(s[1..]);
      assert s == [s[0]] + s[1..];
    }
  }

  /** Step 4 changes nothing in a text without three line breaks in a row,
      so applying it twice is applying it once. */
  lemma {:induction false} CapNewlinesNoTriple(s: string)
    requires NoTripleNewline(s)
    ensures CapNewlines(s) == s
    decreases |s|
  {
    if s != [] {
      assert NewlineRun(s) < 3 by {
        if NewlineRun(s) >= 3 {
          assert TripleNewlineAt(s, 0);
        }
      }
      NoTripleNewlineSlice(s, s[1..], 1);
      CapNewlinesNoTriple(s[1..]);
      assert s == [s[0]] + s[1..];
    }
  }

  // ---------------------------------------------------------------------
  // clean_text as evidently intended

  /** Whitespace other than a line break. */
  predicate IsHSpace(c: char) {
    IsSpace(c) && c != '\n'
  }

  /** Length of the run of whitespace other than '\n' that starts `s`. */
  function HSpaceLen(s: string): (n: nat)
    ensures n <= |s|
    ensures forall i :: 0 <= i < n ==> IsHSpace(s[i])
    ensures n < |s| ==> !IsHSpace(s[n])
  {
    if s != [] && IsHSpace(s[0]) then 1 + HSpaceLen(s[1..]) else 0
  }

  /** `re.sub(r'[^\S\n]+\n', '\n', s)`: whitespace other than line breaks
      in front of a line break is dropped; line breaks themselves stay. */
  function SquashIntended(s: string): (r: string)
    decreases |s|
  {
    if s == [] then []
    else if 0 < HSpaceLen(s) < |s| && s[HSpaceLen(s)] == '\n' then
      "\n" + SquashIntended(s[HSpaceLen(s) + 1..])
    else [s[0]] + SquashIntended(s[1..])
  }

  /** `clean_text` with step 3 restricted to non-line-break whitespace, as its
      comments describe it ("strip spaces before line breaks", "at most two
      line breaks in a row"). */
  function CleanTextIntended(text: string, unescape: string -> string): string
  {
    Strip(CapNewlines(SquashIntended(unescape(StripTags(text)))))
  }

  /** A slice of a text without three line breaks in a row has none either. */
  lemma NoTripleNewlineSlice(s: string, t: string, a: nat)
    requires a + |t| <= |s| && t == s[a..a + |t|]
    requires NoTripleNewline(s)
    ensures NoTripleNewline(t)
  {
    forall i ensures !TripleNewlineAt(t, i) {
      if 0 <= i && i + 2 < |t| {
        assert t[i] == s[a + i] && t[i + 1] == s[a + i + 1] && t[i + 2] == s[a + i + 2];
        assert !TripleNewlineAt(s, a + i);
      }
    }
  }

  /** Stripping keeps a text free of three line breaks in a row. */
  lemma StripNoTripleNewline(s: string)
    requires NoTripleNewline(s)
    ensures NoTripleNewline(Strip(s))
  {
    NoTripleNewlineSlice(s, Strip(s), StripStart(s));
  }

  /** `clean_text` as intended: stripped at both ends and never three line
      breaks in a row. */
  lemma CleanTextIntendedShape(text: string, unescape: string -> string)
    ensures IsStripped(CleanTextIntended(text, unescape))
    ensures NoTripleNewline(CleanTextIntended(text, unescape))
  {
    var q := SquashIntended(unescape(StripTags(text)));
    CapNoTripleNewline(q);
    StripNoTripleNewline(CapNewlines(q));
    assert CleanTextIntended(text, unescape) == Strip(CapNewlines(q));
  }

  /** No whitespace other than a line break is immediately followed by a
      line break. */
  predicate NoHSpaceBeforeNewline(s: string) {
    forall i, j :: 0 <= i < |s| && 0 <= j < |s| && j == i + 1 ==> !(IsHSpace(s[i]) && s[j] == '\n')
  }

  lemma NoHSpaceBeforeNewlineSlice(s: string, t: string, a: nat)
    requires a + |t| <= |s| && t == s[a..a + |t|]
    requires NoHSpaceBeforeNewline(s)
    ensures NoHSpaceBeforeNewline(t)
  {
    forall i, j | 0 <= i < |t| && 0 <= j < |t| && j == i + 1 ensures !(IsHSpace(t[i]) && t[j] == '\n') {
      assert t[i] == s[a + i] && t[j] == s[a + j];
    }
  }

  /** The corrected step 3 leaves alone a text it has nothing to do on. */
  lemma {:induction false} SquashIntendedIdentity(s: string)
    requires NoHSpaceBeforeNewline(s)
    ensures SquashIntended(s) == s
    decreases |s|
  {
    if s != [] {
      var n := HSpaceLen(s);
      assert !(0 < n < |s| && s[n] == '\n') by {
        if 0 < n < |s| {
          assert IsHSpace(s[n - 1]);
        }
      }
      NoHSpaceBeforeNewlineSlice(s, s[1..], 1);
      SquashIntendedIdentity(s[1..]);
      assert s == [s[0]] + s[1..];
    }
  }

  /** The corrected `clean_text` returns unchanged a text that is already
      clean: no tag, no whitespace before a line break other than a line
      break, never three line breaks in a row, stripped. Blank lines, as in
      "A\n\nB", survive. */
  lemma CleanTextIntendedIdentity(text: string)
    requires '<' !in text && NoHSpaceBeforeNewline(text) && NoTripleNewline(text) && IsStripped(text)
    ensures CleanTextIntended(text, s => s) == text
  {
    StripTagsNoOpen(text);
    SquashIntendedIdentity(text);
    CapNewlinesNoTriple(text);
    StripStripped(text);
  }

  /** The corrected cleaning keeps the paragraph break of "A\n\nB". */
  lemma CleanTextIntendedKeepsBlankLine(text: string)
    requires text == "A\n\nB"
    ensures CleanTextIntended(text, s => s) == text && Contains(text, "\n\n")
  {
    assert OccursAt(text, "\n\n", 1) by { assert text[1..3] == "\n\n"; }
    CleanTextIntendedIdentity(text);
  }

  // ---------------------------------------------------------------------
  // limit_words

  /** `limit_words(text, max_words)`: the text itself when it has at most
      `maxWords` words, else its first `maxWords` words joined by single
      spaces and followed by "…". */
  function LimitWords(text: string, maxWords: nat): (r: string)
    ensures |Words(text)| <= maxWords ==> r == text
  {
    var words := Words(text);
    if |words| <= maxWords then text
    else Join(words[..maxWords], " ") + "…"
  }

  /** The words of a shortened text: the first `maxWords` words of the
      original, the last of them carrying "…". */
  lemma LimitWordsWords(text: string, maxWords: nat)
    requires |Words(text)| > maxWords
    ensures maxWords == 0 ==> Words(LimitWords(text, maxWords)) == ["…"]
    ensures maxWords > 0 ==>
              Words(LimitWords(text, maxWords))
              == Words(text)[..maxWords - 1] + [Words(text)[maxWords - 1] + "…"]
  {
    var ws := Words(text)[..maxWords];
    if maxWords == 0 {
      assert Join(ws, " ") + "…" == "…";
      WordsOfWord("…");
    } else {
      assert forall i :: 0 <= i < |ws| ==> ws[i] == Words(text)[i];
      WordsJoinEllipsis(ws);
    }
  }

  /** Words joined by spaces with "…" appended split back into the same
      words, the last one carrying the "…". */
  lemma WordsJoinEllipsis(ws: seq<string>)
    requires ws != [] && forall i :: 0 <= i < |ws| ==> IsWord(ws[i])
    ensures Words(Join(ws, " ") + "…") == ws[..|ws| - 1] + [ws[|ws| - 1] + "…"]
  {
    var ws' := ws[..|ws| - 1] + [ws[|ws| - 1] + "…"];
    assert Join(ws, " ") + "…" == Join(ws', " ") by {
      JoinAppend(ws, " ", "…");
    }
    assert Words(Join(ws', " ")) == ws' by {
      EllipsisWords(ws);
      WordsJoinSpace(ws');
    }
  }

  /** The words of `ws` with "…" appended to the last are still words. */
  lemma EllipsisWords(ws: seq<string>)
    requires ws != [] && forall i :: 0 <= i < |ws| ==> IsWord(ws[i])
    ensures var ws' := ws[..|ws| - 1] + [ws[|ws| - 1] + "…"];
            forall i :: 0 <= i < |ws'| ==> IsWord(ws'[i])
  {
    var ws' := ws[..|ws| - 1] + [ws[|ws| - 1] + "…"];
    var w := ws[|ws| - 1];
    var last := w + "…";
    assert IsWord(last) by {
      forall k | 0 <= k < |last| ensures !IsSpace(last[k]) {
        if k < |w| {
          assert last[k] == w[k];
        } else {
          assert last[k] == '…';
        }
      }
    }
    forall i | 0 <= i < |ws'| ensures IsWord(ws'[i]) {
      if i < |ws| - 1 {
        assert ws'[i] == ws[i];
      } else {
        assert ws'[i] == last;
      }
    }
  }

  /** The result of `limit_words` has at most `maxWords` words when
      `maxWords` is positive. */
  lemma LimitWordsBound(text: string, maxWords: nat)
    requires maxWords >= 1
    ensures |Words(LimitWords(text, maxWords))| <= maxWords
  {
    if |Words(text)| > maxWords {
      LimitWordsWords(text, maxWords);
    }
  }

  /** Applying `limit_words` twice gives what applying it once gives. */
  lemma LimitWordsIdempotent(text: string, maxWords: nat)
    ensures LimitWords(LimitWords(text, maxWords), maxWords) == LimitWords(text, maxWords)
  {
    if |Words(text)| > maxWords {
      LimitWordsWords(text, maxWords);
      if maxWords == 0 {
        assert LimitWords(text, 0) == "…";
        assert Join(Words("…")[..0], " ") == "";
      }
    }
  }

  // ---------------------------------------------------------------------
  // paraphrase_with_deepseek and process_entry

  /** What the DeepSeek call produced: an exception (timeout, non-JSON
      body, ...), a JSON body without a non-empty `choices` list, or the
      first choice's `message.content` (the empty string when either key is
      missing). */
  datatype DeepSeekReply = Raised | NoChoices | Choice(content: string)

  /** The most words a paraphrase may have. */
  const ParaphraseWords: nat := 180

  /** The text used when DeepSeek gives nothing usable: the cleaned title
      and body, limited to 180 words. */
  function Fallback(title: string, body: string, unescape: string -> string): (r: string)
    ensures |Words(r)| <= ParaphraseWords
    ensures |Words(CleanTextIntended(title + "\n\n" + body, unescape))| <= ParaphraseWords
      ==> r == CleanTextIntended(title + "\n\n" + body, unescape)
  {
    var r := LimitWords(CleanTextIntended(title + "\n\n" + body, unescape), ParaphraseWords);
    LimitWordsBound(CleanTextIntended(title + "\n\n" + body, unescape), ParaphraseWords);
    r
  }

  /** `paraphrase_with_deepseek`: the cleaned, word-limited reply, or the
      fallback when the call raised or returned no choice. Either way the
      result has at most 180 words, and a failed call never blocks the item. */
  function ParaphraseWithDeepseek(title: string, body: string, reply: DeepSeekReply,
                                  unescape: string -> string): (r: string)
    ensures |Words(r)| <= ParaphraseWords
    ensures !reply.Choice? ==> r == Fallback(title, body, unescape)
  {
    match reply
    case Choice(content) =>
      LimitWordsBound(CleanTextIntended(content, unescape), ParaphraseWords);
      LimitWords(CleanTextIntended(content, unescape), ParaphraseWords)
    case _ => Fallback(title, body, unescape)
  }

  /** A feed entry: its optional `title`, `link`, `summary` and
      `description` attributes, the text `get_full_article` extracted from
      the linked page ("" on any failure) and the DeepSeek reply for it. */
  datatype FeedEntry = FeedEntry(title: Option<string>, link: Option<string>,
                                 summary: Option<string>, description: Option<string>,
                                 article: string, reply: DeepSeekReply)

  /** The default title of an entry without one. */
  const UntitledTitle := "Без названия"

  /** `getattr(entry, "link", "")`. */
  function EntryLink(e: FeedEntry): string {
    e.link.GetOr("")
  }

  /** The title and body `process_entry` passes on: a missing title becomes
      "Без названия"; an empty article falls back to the summary attribute,
      and to the description only when there is no summary attribute. */
  function EntryTitleAndBody(e: FeedEntry): (tb: (string, string))
    ensures e.title.None? ==> tb.0 == UntitledTitle
    ensures e.title.Some? ==> tb.0 == e.title.value
    ensures e.article != "" ==> tb.1 == e.article
    ensures e.article == "" && e.summary.Some? ==> tb.1 == e.summary.value
    ensures e.article == "" && e.summary.None? && e.description.Some? ==> tb.1 == e.description.value
    ensures e.article == "" && e.summary.None? && e.description.None? ==> tb.1 == ""
  {
    var title := e.title.GetOr(UntitledTitle);
    var body := if e.article != "" then e.article else e.summary.GetOr(e.description.GetOr(""));
    (title, body)
  }

  /** `process_entry`: the paraphrase of the entry's title and body. */
  function ProcessEntry(e: FeedEntry, unescape: string -> string): (text: string)
    ensures |Words(text)| <= ParaphraseWords
  {
    var tb := EntryTitleAndBody(e);
    ParaphraseWithDeepseek(tb.0, tb.1, e.reply, unescape)
  }

  // ---------------------------------------------------------------------
  // parse_feed_and_process

  /** One call of `send_news_to_admin(news_text, link)`. */
  datatype Dispatch = Dispatch(text: string, link: string)

  /** `process_entry` as a function value, handed to the loops that
      dispatch entries. */
  function Paraphraser(unescape: string -> string): FeedEntry -> string {
    e => ProcessEntry(e, unescape)
  }

  /** The dispatch of one entry: none when its link is already in `sent`,
      else its paraphrase with its link. */
  function EntryDispatches(e: FeedEntry, sent: set<string>, paraphrase: FeedEntry -> string): (ds: seq<Dispatch>)
    ensures |ds| <= 1
    ensures ds == [] <==> EntryLink(e) in sent
    ensures ds != [] ==> ds[0].link == EntryLink(e)
  {
    if EntryLink(e) in sent then [] else [Dispatch(paraphrase(e), EntryLink(e))]
  }

  /** The dispatches for `entries`, in order: one per entry whose link is
      not in `sent`. */
  function Unsent(entries: seq<FeedEntry>, sent: set<string>, paraphrase: FeedEntry -> string): (ds: seq<Dispatch>)
    ensures |ds| <= |entries|
    ensures forall i :: 0 <= i < |ds| ==> ds[i].link !in sent
    decreases |entries|
  {
    if entries == [] then []
    else
      Unsent(entries[..|entries| - 1], sent, paraphrase) + EntryDispatches(entries[|entries| - 1], sent, paraphrase)
  }

  /** One more entry adds its dispatch exactly when its link is unsent. */
  lemma UnsentStep(window: seq<FeedEntry>, i: nat, sent: set<string>, paraphrase: FeedEntry -> string)
    requires i < |window|
    ensures Unsent(window[..i + 1], sent, paraphrase)
            == Unsent(window[..i], sent, paraphrase) + EntryDispatches(window[i], sent, paraphrase)
  {
    assert window[..i + 1][..i] == window[..i];
    assert window[..i + 1][i] == window[i];
  }

  /** `parse_feed_and_process(url, limit)` over the parsed `entries`: looks
      at no more than the first `limit` entries, hands each one whose link is
      not yet in `news_sent` to `send_news_to_admin`, and returns how many it
      handed on, which is at most `limit`. */
  method ParseFeedAndProcess(db: Database.NewsStore, entries: seq<FeedEntry>, limit: nat,
                             unescape: string -> string)
    returns (processedCount: nat, dispatched: seq<Dispatch>)
    ensures dispatched == Unsent(Take(entries, limit), db.sent, Paraphraser(unescape))
    ensures processedCount == |dispatched| <= limit
    ensures forall i :: 0 <= i < |dispatched| ==> !db.IsNewsSent(dispatched[i].link)
  {
    var window := Take(entries, limit);
    processedCount, dispatched := 0, [];
    var i := 0;
    while i < |window|
      invariant 0 <= i <= |window|
      invariant dispatched == Unsent(window[..i], db.sent, Paraphraser(unescape))
      invariant processedCount == |dispatched|
    {
      var entry := window[i];
      var link := EntryLink(entry);
      UnsentStep(window, i, db.sent, Paraphraser(unescape));
      if !db.IsNewsSent(link) {
        var newsText := ProcessEntry(entry, unescape);
        assert newsText == Paraphraser(unescape)(entry);
        dispatched := dispatched + [Dispatch(newsText, link)];
        processedCount := processedCount + 1;
      }
      i := i + 1;
    }
    assert window[..i] == window;
  }
}
