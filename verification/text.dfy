/** The chat-output helpers of `pie/utils/text.py`: cutting text into
    messages (`split`, `split_lines`), the boolean keyword parser and the
    `@`-escaping half of `sanitise`. */
module Text {
  import opened Results
  import opened Strings

  function Min(a: int, b: int): int { if a <= b then a else b }

  // ---------------------------------------------------------------- split

  /** `split(string, limit)`: consecutive chunks of `limit` characters, the
      last one possibly shorter. Gluing the chunks back gives the input. */
  function Split(s: string, limit: int): (chunks: seq<string>)
    requires limit > 0
    ensures forall i :: 0 <= i < |chunks| ==> 0 < |chunks[i]| <= limit
    ensures forall i :: 0 <= i < |chunks| - 1 ==> |chunks[i]| == limit
    ensures |s| == 0 <==> |chunks| == 0
    decreases |s|
  {
    if |s| == 0 then []
    else if |s| <= limit then [s]
    else
      assert s == s[..limit] + s[limit..];
      [s[..limit]] + Split(s[limit..], limit)
  }

  /** Gluing the chunks back together gives the text. */
  lemma {:induction false} SplitRoundTrip(s: string, limit: int)
    requires limit > 0
    ensures Concat(Split(s, limit)) == s
    decreases |s|
  {
    if |s| > limit {
      SplitRoundTrip(s[limit..], limit);
      assert s == s[..limit] + s[limit..];
    } else if |s| > 0 {
      assert Concat([s]) == s + Concat([]);
    }
  }

  /** The number of chunks is the number of start offsets
      `0, limit, 2*limit, ...` below `|s|` that the source's
      `range(0, len(string), limit)` produces. */
  lemma {:induction false} SplitCount(s: string, limit: int)
    requires limit > 0
    ensures var n := |Split(s, limit)|;
            |s| > 0 ==> (n - 1) * limit < |s| <= n * limit
    decreases |s|
  {
    if |s| > limit {
      SplitCount(s[limit..], limit);
      var n := |Split(s[limit..], limit)|;
      assert |Split(s, limit)| == n + 1;
      assert (n + 1) * limit == n * limit + limit;
    }
  }

  /** The chunk at position `i` is the slice `s[i*limit : i*limit + limit]`
      of the source's list comprehension. */
  lemma SplitChunkAt(s: string, limit: int, i: nat)
    requires limit > 0
    requires i < |Split(s, limit)|
    ensures i * limit < |s|
    ensures Split(s, limit)[i] == s[i * limit .. Min(i * limit + limit, |s|)]
  {
    SplitChunkAtOffset(s, limit, i);
    OffsetIsProduct(i, limit);
  }

  /** `i * limit`, counted up one chunk at a time. */
  function Offset(i: nat, limit: nat): nat
  {
    if i == 0 then 0 else Offset(i - 1, limit) + limit
  }

  lemma {:induction false} OffsetIsProduct(i: nat, limit: nat)
    ensures Offset(i, limit) == i * limit
  {
    if i > 0 {
      OffsetIsProduct(i - 1, limit);
      MulPred(i, limit);
    }
  }

  lemma {:induction false} SplitChunkAtOffset(s: string, limit: int, i: nat)
    requires limit > 0
    requires i < |Split(s, limit)|
    ensures Offset(i, limit) < |s|
    ensures Split(s, limit)[i] == s[Offset(i, limit) .. Min(Offset(i, limit) + limit, |s|)]
    decreases |s|
  {
    if i > 0 {
      assert |s| > limit;
      var rest := s[limit..];
      var tail := Split(rest, limit);
      assert Split(s, limit) == [s[..limit]] + tail;
      var o := Offset(i - 1, limit);
      assert Offset(i, limit) == o + limit;
      SplitChunkAtOffset(rest, limit, i - 1);
      assert |rest| == |s| - limit;
      ShiftChunk(s, limit, o);
    }
  }

  lemma MulPred(i: int, limit: int)
    ensures i * limit == (i - 1) * limit + limit
  {
  }

  /** A chunk of the remainder after the first chunk is a chunk of the
      whole text, `limit` characters further on. */
  lemma ShiftChunk(s: string, limit: int, j: nat)
    requires 0 < limit < |s| && j < |s| - limit
    ensures s[limit..][j .. Min(j + limit, |s| - limit)] == s[j + limit .. Min(j + limit + limit, |s|)]
  {
  }

  // ---------------------------------------------------------- split_lines

  /** The text a page accumulates from its lines: each line followed by a
      newline (`page += line + "\n"`). */
  function LinesText(g: seq<string>): string
  {
    if |g| == 0 then "" else g[0] + "\n" + LinesText(g[1..])
  }

  /** The loop of `split_lines`. `group` holds the lines added to the
      current page since it was last flushed, so the page text is
      `LinesText(group)`; before a line is added, a page that has already
      reached `limit` characters is flushed. The result lists the line
      groups of all pages, the unfinished one last. */
  function PackLines(lines: seq<string>, limit: int, group: seq<string>): (groups: seq<seq<string>>)
    ensures |groups| >= 1
    decreases |lines|
  {
    if |lines| == 0 then
      [group]
    else if |LinesText(group)| >= limit then
      var rest := PackLines(lines[1..], limit, [lines[0]]);
      [group] + rest
    else
      var rest := PackLines(lines[1..], limit, group + [lines[0]]);
      rest
  }

  /** Paging keeps every line, in order: the pages' lines, read one page
      after the other, are the lines given. */
  lemma {:induction false} PackLinesKeepsLines(lines: seq<string>, limit: int, group: seq<string>)
    ensures Flatten(PackLines(lines, limit, group)) == group + lines
    decreases |lines|
  {
    if |lines| == 0 {
      assert Flatten([group]) == group + Flatten([]);
      assert group + lines == group;
    } else if |LinesText(group)| >= limit {
      var rest := PackLines(lines[1..], limit, [lines[0]]);
      PackLinesKeepsLines(lines[1..], limit, [lines[0]]);
      assert ([group] + rest)[1..] == rest;
      assert [lines[0]] + lines[1..] == lines;
    } else {
      PackLinesKeepsLines(lines[1..], limit, group + [lines[0]]);
      assert group + [lines[0]] + lines[1..] == group + lines;
    }
  }

  /** `split_lines(lines, limit)`: each page is its lines' text with the
      surrounding newlines stripped. */
  function SplitLines(lines: seq<string>, limit: int): (pages: seq<string>)
    ensures |pages| >= 1
    ensures lines == [] ==> pages == [""]
  {
    var groups := PackLines(lines, limit, []);
    seq(|groups|, i requires 0 <= i < |groups| => Strip(LinesText(groups[i]), Newline))
  }

  /** A page is flushed only after its text has reached `limit`
      characters: every page but the last had at least `limit` characters
      before its newlines were stripped. */
  lemma {:induction false} PackLinesFlushedPagesAreFull(lines: seq<string>, limit: int, group: seq<string>)
    ensures forall i :: 0 <= i < |PackLines(lines, limit, group)| - 1 ==>
              |LinesText(PackLines(lines, limit, group)[i])| >= limit
    decreases |lines|
  {
    if |lines| == 0 {
    } else if |LinesText(group)| >= limit {
      PackLinesFlushedPagesAreFull(lines[1..], limit, [lines[0]]);
      var rest := PackLines(lines[1..], limit, [lines[0]]);
      var groups := PackLines(lines, limit, group);
      assert groups == [group] + rest;
      forall i | 0 < i < |groups|
        ensures groups[i] == rest[i - 1]
      {
      }
    } else {
      PackLinesFlushedPagesAreFull(lines[1..], limit, group + [lines[0]]);
    }
  }

  /** Pages are filled greedily: while a page is below `limit` characters
      it takes the next line, so every proper prefix of a page's lines is
      shorter than `limit`. */
  lemma {:induction false} PackLinesGreedy(lines: seq<string>, limit: int, group: seq<string>)
    requires forall j :: 0 < j < |group| ==> |LinesText(group[..j])| < limit
    ensures forall i, j :: 0 <= i < |PackLines(lines, limit, group)| && 0 < j < |PackLines(lines, limit, group)[i]| ==>
              |LinesText(PackLines(lines, limit, group)[i][..j])| < limit
    decreases |lines|
  {
    if |lines| == 0 {
    } else if |LinesText(group)| >= limit {
      PackLinesGreedy(lines[1..], limit, [lines[0]]);
      var rest := PackLines(lines[1..], limit, [lines[0]]);
      var groups := PackLines(lines, limit, group);
      assert groups == [group] + rest;
      forall i | 0 < i < |groups|
        ensures groups[i] == rest[i - 1]
      {
      }
    } else {
      var next := group + [lines[0]];
      forall j | 0 < j < |next|
        ensures |LinesText(next[..j])| < limit
      {
        assert next[..j] == group[..j];
      }
      PackLinesGreedy(lines[1..], limit, next);
    }
  }

  /** With a positive limit no page is empty once there is a line. */
  lemma {:induction false} PackLinesNonEmpty(lines: seq<string>, limit: int, group: seq<string>)
    requires limit > 0
    requires |group| > 0 || |lines| > 0
    ensures forall i :: 0 <= i < |PackLines(lines, limit, group)| ==> |PackLines(lines, limit, group)[i]| > 0
    decreases |lines|
  {
    if |lines| == 0 {
    } else if |LinesText(group)| >= limit {
      PackLinesNonEmpty(lines[1..], limit, [lines[0]]);
      var rest := PackLines(lines[1..], limit, [lines[0]]);
      var groups := PackLines(lines, limit, group);
      assert groups == [group] + rest;
      forall i | 0 < i < |groups|
        ensures groups[i] == rest[i - 1]
      {
      }
    } else {
      PackLinesNonEmpty(lines[1..], limit, group + [lines[0]]);
    }
  }

  /** A line that is neither empty nor holds a newline. */
  predicate PlainLine(l: string)
  {
    |l| > 0 && '\n' !in l
  }

  lemma {:induction false} LinesTextIsJoin(g: seq<string>)
    requires |g| > 0
    ensures LinesText(g) == Join(g, "\n") + "\n"
    decreases |g|
  {
    if |g| > 1 {
      LinesTextIsJoin(g[1..]);
    }
  }

  lemma {:induction false} JoinPlainEnds(g: seq<string>)
    requires |g| > 0
    requires forall k :: 0 <= k < |g| ==> PlainLine(g[k])
    ensures var j := Join(g, "\n");
            |j| > 0 && j[0] != '\n' && j[|j| - 1] != '\n'
    decreases |g|
  {
    if |g| > 1 {
      JoinPlainEnds(g[1..]);
      var j := Join(g, "\n");
      var r := Join(g[1..], "\n");
      assert j == g[0] + "\n" + r;
      assert j[0] == g[0][0];
      assert j[|j| - 1] == r[|r| - 1];
    } else {
      assert g[0][0] in g[0];
      assert g[0][|g[0]| - 1] in g[0];
    }
  }

  /** Stripping the newlines around a page of plain lines leaves exactly
      the lines joined by newlines. */
  lemma StripPage(g: seq<string>)
    requires |g| > 0
    requires forall k :: 0 <= k < |g| ==> PlainLine(g[k])
    ensures Strip(LinesText(g), Newline) == Join(g, "\n")
  {
    LinesTextIsJoin(g);
    JoinPlainEnds(g);
    StripFinalNewline(Join(g, "\n"));
  }

  /** A newline after text that neither starts nor ends with one is all
      that stripping newlines removes. */
  lemma StripFinalNewline(x: string)
    requires |x| > 0 && x[0] != '\n' && x[|x| - 1] != '\n'
    ensures Strip(x + "\n", Newline) == x
  {
    assert "" + x == x;
    assert AllIn("\n", Newline) by {
      assert "\n"[0] == '\n';
    }
    StripWrapped("", x, "\n", Newline);
  }

  function JoinEach(groups: seq<seq<string>>, sep: string): (r: seq<string>)
    ensures |r| == |groups|
  {
    if |groups| == 0 then [] else [Join(groups[0], sep)] + JoinEach(groups[1..], sep)
  }

  lemma {:induction false} JoinAppend(a: seq<string>, b: seq<string>, sep: string)
    requires |a| > 0 && |b| > 0
    ensures Join(a + b, sep) == Join(a, sep) + sep + Join(b, sep)
    decreases |a|
  {
    if |a| == 1 {
      assert a + b == [a[0]] + b;
      assert (a + b)[1..] == b;
    } else {
      assert (a + b)[1..] == a[1..] + b;
      JoinAppend(a[1..], b, sep);
    }
  }

  lemma {:induction false} JoinFlatten(groups: seq<seq<string>>, sep: string)
    requires forall i :: 0 <= i < |groups| ==> |groups[i]| > 0
    ensures Join(JoinEach(groups, sep), sep) == Join(Flatten(groups), sep)
    decreases |groups|
  {
    if |groups| > 1 {
      JoinFlatten(groups[1..], sep);
      FlattenNonEmpty(groups[1..]);
      JoinAppend(groups[0], Flatten(groups[1..]), sep);
    } else if |groups| == 1 {
      assert Flatten(groups) == groups[0] + [];
      assert groups[0] + [] == groups[0];
    }
  }

  lemma {:induction false} FlattenNonEmpty(groups: seq<seq<string>>)
    requires |groups| > 0 && |groups[0]| > 0
    ensures |Flatten(groups)| > 0
  {
  }

  /** No line is ever cut: when no line is empty or holds a newline and the
      limit is positive, joining the pages with newlines gives back the
      lines joined with newlines. */
  lemma SplitLinesKeepsLines(lines: seq<string>, limit: int)
    requires limit > 0
    requires forall k :: 0 <= k < |lines| ==> PlainLine(lines[k])
    ensures Join(SplitLines(lines, limit), "\n") == Join(lines, "\n")
  {
    if |lines| > 0 {
      var groups := PackLines(lines, limit, []);
      PackLinesNonEmpty(lines, limit, []);
      PackLinesKeepsLines(lines, limit, []);
      assert [] + lines == lines;
      assert Flatten(groups) == lines;
      PagesJoinGroups(lines, limit);
      JoinFlatten(groups, "\n");
    }
  }

  /** Each page of plain lines is its group's lines joined by newlines. */
  lemma PagesJoinGroups(lines: seq<string>, limit: int)
    requires limit > 0 && |lines| > 0
    requires forall k :: 0 <= k < |lines| ==> PlainLine(lines[k])
    ensures SplitLines(lines, limit) == JoinEach(PackLines(lines, limit, []), "\n")
  {
    var groups := PackLines(lines, limit, []);
    PackLinesNonEmpty(lines, limit, []);
    PackLinesKeepsLines(lines, limit, []);
    assert [] + lines == lines;
    var pages := SplitLines(lines, limit);
    forall i | 0 <= i < |groups|
      ensures pages[i] == JoinEach(groups, "\n")[i]
    {
      FlattenContains(groups, i);
      assert |groups[i]| > 0;
      StripPage(groups[i]);
      JoinEachAt(groups, "\n", i);
    }
  }

  lemma {:induction false} FlattenContains(groups: seq<seq<string>>, i: nat)
    requires i < |groups|
    ensures forall k :: 0 <= k < |groups[i]| ==> groups[i][k] in Flatten(groups)
    decreases i
  {
    if i > 0 {
      FlattenContains(groups[1..], i - 1);
    }
  }

  lemma {:induction false} JoinEachAt(groups: seq<seq<string>>, sep: string, i: nat)
    requires i < |groups|
    ensures JoinEach(groups, sep)[i] == Join(groups[i], sep)
    decreases i
  {
    if i > 0 {
      JoinEachAt(groups[1..], sep, i - 1);
    }
  }

  /** With a limit of zero or less the empty first page is flushed before
      the first line, so the first page is always empty. */
  lemma SplitLinesNonPositiveLimit(lines: seq<string>, limit: int)
    requires limit <= 0 && |lines| > 0
    ensures var pages := SplitLines(lines, limit);
            |pages| >= 2 && pages[0] == ""
  {
    var groups := PackLines(lines, limit, []);
    assert groups == [[]] + PackLines(lines[1..], limit, [lines[0]]);
  }

  // ----------------------------------------------------------- parse_bool

  /** `s` spells `word` up to ASCII case. */
  predicate SpellsIgnoringCase(s: string, word: string)
  {
    |s| == |word| && forall i :: 0 <= i < |s| ==> LowerChar(s[i]) == word[i]
  }

  predicate IsTrueWord(s: string)
  {
    SpellsIgnoringCase(s, "1") || SpellsIgnoringCase(s, "true") || SpellsIgnoringCase(s, "yes")
  }

  predicate IsFalseWord(s: string)
  {
    SpellsIgnoringCase(s, "0") || SpellsIgnoringCase(s, "false") || SpellsIgnoringCase(s, "no")
  }

  /** `parse_bool(string)`: the lower-cased text is looked up in the
      keyword tuples; anything else gives `None`. */
  function ParseBool(s: string): (r: Option<bool>)
    ensures r == Some(true) <==> IsTrueWord(s)
    ensures r == Some(false) <==> IsFalseWord(s)
    ensures r == None <==> !IsTrueWord(s) && !IsFalseWord(s)
  {
    var l := Lower(s);
    assert forall w :: l == w <==> SpellsIgnoringCase(s, w);
    if l in ["1", "true", "yes"] then Some(true)
    else if l in ["0", "false", "no"] then Some(false)
    else None
  }

  /** Case does not matter: texts equal up to ASCII case parse alike. */
  lemma ParseBoolIgnoresCase(s: string, t: string)
    requires Lower(s) == Lower(t)
    ensures ParseBool(s) == ParseBool(t)
  {
    assert forall w :: SpellsIgnoringCase(s, w) <==> SpellsIgnoringCase(t, w);
  }

  /** Round trip: the words Python prints for a boolean parse back to it. */
  lemma ParseBoolOfPrinted(b: bool)
    ensures ParseBool(if b then "True" else "False") == Some(b)
  {
  }

  // ------------------------------------------------ sanitise(escape=False)

  /** The zero-width space `sanitise` puts after every `@`. */
  const ZeroWidthSpace: char := '\U{200B}'

  /** `string.replace("@", "@​")`. */
  function TagEscape(s: string): (r: string)
    ensures forall i :: 0 <= i < |r| && r[i] == '@' ==> i + 1 < |r| && r[i + 1] == ZeroWidthSpace
    decreases |s|
  {
    if |s| == 0 then ""
    else if s[0] == '@' then ['@', ZeroWidthSpace] + TagEscape(s[1..])
    else [s[0]] + TagEscape(s[1..])
  }

  /** Inverse of `TagEscape`: drops the zero-width space after each `@`. */
  function TagUnescape(r: string): string
    decreases |r|
  {
    if |r| == 0 then ""
    else if r[0] == '@' && |r| >= 2 && r[1] == ZeroWidthSpace then "@" + TagUnescape(r[2..])
    else [r[0]] + TagUnescape(r[1..])
  }

  /** Escaping loses nothing: unescaping gives the original text back. */
  lemma {:induction false} TagEscapeRoundTrip(s: string)
    ensures TagUnescape(TagEscape(s)) == s
    decreases |s|
  {
    if |s| > 0 {
      TagEscapeRoundTrip(s[1..]);
      var r := TagEscape(s);
      if s[0] == '@' {
        assert r[2..] == TagEscape(s[1..]);
      } else {
        assert r[1..] == TagEscape(s[1..]);
      }
    }
  }

  /** Length of Python's `s[:limit]`: a negative limit counts from the end. */
  function SliceLength(n: nat, limit: int): (k: nat)
    ensures k <= n
    ensures limit >= 0 ==> k == Min(limit, n)
    ensures limit < 0 ==> k == (if n + limit < 0 then 0 else n + limit)
  {
    if limit >= 0 then (if limit <= n then limit else n)
    else if n + limit < 0 then 0 else n + limit
  }

  /** A negative limit within the length keeps what the non-negative
      limit `n + limit` keeps: all but the last `-limit` characters. */
  lemma SliceLengthNegative(n: nat, limit: int)
    requires limit < 0 && n + limit >= 0
    ensures SliceLength(n, limit) == SliceLength(n, n + limit) == n + limit
  {
  }

  /** `sanitise(string, limit=limit, escape=False, tag_escape=tagEscape)`. */
  function Sanitise(s: string, limit: int, tagEscape: bool): (r: string)
    ensures var full := if tagEscape then TagEscape(s) else s;
            |r| == SliceLength(|full|, limit) && r == full[..|r|]
    ensures limit >= 0 ==> |r| <= limit
    ensures forall i :: 0 <= i < |r| - 1 && tagEscape && r[i] == '@' ==> r[i + 1] == ZeroWidthSpace
  {
    var full := if tagEscape then TagEscape(s) else s;
    full[..SliceLength(|full|, limit)]
  }
}
