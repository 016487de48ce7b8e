/** Python string primitives used by the text utilities and the repository
    metadata parser: whitespace as `str.isspace()` sees it, `strip` with a
    character set, `str.split(sep)`, `str.split()`, `"".join` and ASCII
    lower-casing. */
module Strings {

  /** `str.isspace()` for one character; also what `\s` matches in a `re`
      pattern over `str` and what `str.strip()` / `str.split()` remove:
      tab to carriage return, the four information separators, space,
      next-line, no-break space, ogham space mark, the typographic spaces
      U+2000 to U+200A, the line and paragraph separators, the narrow
      no-break space, the medium mathematical space and the ideographic
      space. */
  predicate IsSpace(c: char)
  {
    || ('\U{0009}' <= c <= '\U{000D}')
    || ('\U{001C}' <= c <= ' ')
    || c == '\U{0085}' || c == '\U{00A0}' || c == '\U{1680}'
    || ('\U{2000}' <= c <= '\U{200A}')
    || c == '\U{2028}' || c == '\U{2029}' || c == '\U{202F}' || c == '\U{205F}' || c == '\U{3000}'
  }

  predicate AllSpace(s: string)
  {
    forall i :: 0 <= i < |s| ==> IsSpace(s[i])
  }

  predicate NoSpace(s: string)
  {
    forall i :: 0 <= i < |s| ==> !IsSpace(s[i])
  }

  /** The character sets the source passes to `str.strip`. */
  datatype CharClass =
    | Whitespace    // str.strip()
    | Newline       // str.strip("\n")
    | SpaceOrQuote  // str.strip(" \"'")

  predicate InClass(c: char, cls: CharClass)
  {
    match cls
    case Whitespace => IsSpace(c)
    case Newline => c == '\n'
    case SpaceOrQuote => c == ' ' || c == '"' || c == '\''
  }

  predicate AllIn(s: string, cls: CharClass)
  {
    forall i :: 0 <= i < |s| ==> InClass(s[i], cls)
  }

  /** Number of leading class characters. */
  function LeadCount(s: string, cls: CharClass): (n: nat)
    ensures n <= |s| && AllIn(s[..n], cls)
    ensures n == |s| || !InClass(s[n], cls)
  {
    if |s| > 0 && InClass(s[0], cls) then
      var n := LeadCount(s[1..], cls);
      assert s[..n + 1] == [s[0]] + s[1..][..n];
      n + 1
    else 0
  }

  /** Number of trailing class characters. */
  function TrailCount(s: string, cls: CharClass): (n: nat)
    ensures n <= |s| && AllIn(s[|s| - n..], cls)
    ensures n == |s| || !InClass(s[|s| - n - 1], cls)
  {
    if |s| > 0 && InClass(s[|s| - 1], cls) then
      var p := s[..|s| - 1];
      var n := TrailCount(p, cls);
      assert s[|s| - (n + 1)..] == p[|p| - n..] + [s[|s| - 1]];
      n + 1
    else 0
  }

  /** Drops the longest prefix of class characters. */
  function TrimLeft(s: string, cls: CharClass): (r: string)
    ensures |r| <= |s| && r == s[|s| - |r|..]
    ensures |r| == 0 || !InClass(r[0], cls)
    ensures AllIn(s[..|s| - |r|], cls)
  {
    s[LeadCount(s, cls)..]
  }

  /** What `TrimLeft` drops is a run of class characters in front of what
      it keeps. */
  lemma TrimLeftSplit(s: string, cls: CharClass)
    ensures AllIn(s[..|s| - |TrimLeft(s, cls)|], cls)
    ensures s == s[..|s| - |TrimLeft(s, cls)|] + TrimLeft(s, cls)
  {
  }

  /** Drops the longest suffix of class characters. */
  function TrimRight(s: string, cls: CharClass): (r: string)
    ensures |r| <= |s| && r == s[..|r|]
    ensures |r| == 0 || !InClass(r[|r| - 1], cls)
    ensures AllIn(s[|r|..], cls)
  {
    s[..|s| - TrailCount(s, cls)]
  }

  /** `str.strip(chars)`: both ends; `StripSplit` says where the result
      lies in the input. */
  function Strip(s: string, cls: CharClass): (r: string)
    ensures |r| == 0 || (!InClass(r[0], cls) && !InClass(r[|r| - 1], cls))
  {
    TrimRight(TrimLeft(s, cls), cls)
  }

  /** The stripped string is what is left between the longest run of class
      characters in front (`LeadCount`) and a run of class characters
      behind; since it does not end with one, that run is the longest too. */
  lemma StripSplit(s: string, cls: CharClass)
    ensures LeadCount(s, cls) + |Strip(s, cls)| <= |s|
    ensures Strip(s, cls) == s[LeadCount(s, cls)..LeadCount(s, cls) + |Strip(s, cls)|]
    ensures AllIn(s[LeadCount(s, cls) + |Strip(s, cls)|..], cls)
  {
    StripSlice(s, cls);
    StripTrail(s, cls);
  }

  lemma StripSlice(s: string, cls: CharClass)
    ensures LeadCount(s, cls) + |Strip(s, cls)| <= |s|
    ensures Strip(s, cls) == s[LeadCount(s, cls)..LeadCount(s, cls) + |Strip(s, cls)|]
  {
    var l := TrimLeft(s, cls);
    var r := TrimRight(l, cls);
    assert Strip(s, cls) == r;
    SliceOfSuffix(s, LeadCount(s, cls), l, r);
  }

  lemma StripTrail(s: string, cls: CharClass)
    requires LeadCount(s, cls) + |Strip(s, cls)| <= |s|
    ensures AllIn(s[LeadCount(s, cls) + |Strip(s, cls)|..], cls)
  {
    var l := TrimLeft(s, cls);
    SliceOfSuffix(s, LeadCount(s, cls), l, TrimRight(l, cls));
    assert AllIn(l[|TrimRight(l, cls)|..], cls);
  }

  /** A prefix `r` of the suffix `l` of `s` from `i` on is a slice of `s`. */
  lemma SliceOfSuffix<T>(s: seq<T>, i: nat, l: seq<T>, r: seq<T>)
    requires i <= |s| && l == s[i..]
    requires |r| <= |l| && r == l[..|r|]
    ensures i + |r| <= |s| && r == s[i..i + |r|] && l[|r|..] == s[i + |r|..]
  {
  }

  /** Stripping leaves nothing exactly when every character is stripped. */
  lemma StripEmpty(s: string, cls: CharClass)
    ensures Strip(s, cls) == "" <==> AllIn(s, cls)
  {
    StripSplit(s, cls);
    var r := Strip(s, cls);
    var i := LeadCount(s, cls);
    if r == "" {
      assert s == s[..i] + s[i..];
    } else {
      assert r[0] == s[i];
    }
  }

  /** Stripping a string that neither starts nor ends with a class character
      returns it unchanged. */
  lemma StripNoop(s: string, cls: CharClass)
    requires |s| == 0 || (!InClass(s[0], cls) && !InClass(s[|s| - 1], cls))
    ensures Strip(s, cls) == s
  {
  }

  /** A run of class characters in front of a string that does not start
      with one is exactly what `TrimLeft` removes. */
  lemma {:induction false} TrimLeftPrefix(w: string, x: string, cls: CharClass)
    requires AllIn(w, cls)
    requires |x| == 0 || !InClass(x[0], cls)
    ensures TrimLeft(w + x, cls) == x
  {
    LeadCountPrefix(w, x, cls);
    assert (w + x)[|w|..] == x;
  }

  lemma LeadCountPrefix(w: string, x: string, cls: CharClass)
    requires AllIn(w, cls)
    requires |x| == 0 || !InClass(x[0], cls)
    ensures LeadCount(w + x, cls) == |w|
  {
    var s := w + x;
    assert s[..|w|] == w;
    assert |x| > 0 ==> s[|w|] == x[0];
    LeadCountIs(s, |w|, cls);
  }

  /** The leading run is determined by where it stops. */
  lemma {:induction false} LeadCountIs(s: string, n: nat, cls: CharClass)
    requires n <= |s| && AllIn(s[..n], cls)
    requires n == |s| || !InClass(s[n], cls)
    ensures LeadCount(s, cls) == n
    decreases n
  {
    if n > 0 {
      assert s[..n][0] == s[0];
      var t := s[1..];
      assert t[..n - 1] == s[..n][1..];
      AllInSlice(s[..n], 1, n, cls);
      assert n - 1 == |t| || t[n - 1] == s[n];
      LeadCountIs(t, n - 1, cls);
    }
  }

  lemma AllInSlice(s: string, i: nat, j: nat, cls: CharClass)
    requires i <= j <= |s| && AllIn(s, cls)
    ensures AllIn(s[i..j], cls)
  {
    forall k | 0 <= k < j - i ensures InClass(s[i..j][k], cls) {
      assert s[i..j][k] == s[i + k];
    }
  }

  /** Mirror image of `TrimLeftPrefix` for the right end. */
  lemma {:induction false} TrimRightSuffix(x: string, w: string, cls: CharClass)
    requires AllIn(w, cls)
    requires |x| == 0 || !InClass(x[|x| - 1], cls)
    ensures TrimRight(x + w, cls) == x
  {
    TrailCountSuffix(x, w, cls);
    assert (x + w)[..|x|] == x;
  }

  lemma TrailCountSuffix(x: string, w: string, cls: CharClass)
    requires AllIn(w, cls)
    requires |x| == 0 || !InClass(x[|x| - 1], cls)
    ensures TrailCount(x + w, cls) == |w|
  {
    var s := x + w;
    assert s[|s| - |w|..] == w;
    assert |x| > 0 ==> s[|s| - |w| - 1] == x[|x| - 1];
    TrailCountIs(s, |w|, cls);
  }

  /** The trailing run is determined by where it starts. */
  lemma {:induction false} TrailCountIs(s: string, n: nat, cls: CharClass)
    requires n <= |s| && AllIn(s[|s| - n..], cls)
    requires n == |s| || !InClass(s[|s| - n - 1], cls)
    ensures TrailCount(s, cls) == n
    decreases n
  {
    if n > 0 {
      var tail := s[|s| - n..];
      assert tail[n - 1] == s[|s| - 1];
      var p := s[..|s| - 1];
      assert p[|p| - (n - 1)..] == tail[..n - 1];
      AllInSlice(tail, 0, n - 1, cls);
      assert n - 1 == |p| || p[|p| - (n - 1) - 1] == s[|s| - n - 1];
      TrailCountIs(p, n - 1, cls);
    }
  }

  /** `Strip` removes exactly the class-character padding around a string
      whose own ends are not class characters. */
  lemma StripWrapped(pre: string, n: string, post: string, cls: CharClass)
    requires AllIn(pre, cls) && AllIn(post, cls)
    requires |n| > 0 && !InClass(n[0], cls) && !InClass(n[|n| - 1], cls)
    ensures Strip(pre + n + post, cls) == n
  {
    assert pre + n + post == pre + (n + post);
    TrimLeftPrefix(pre, n + post, cls);
    TrimRightSuffix(n, post, cls);
  }

  /** `"".join(parts)`. */
  function Concat(parts: seq<string>): string
  {
    if |parts| == 0 then "" else parts[0] + Concat(parts[1..])
  }

  lemma {:induction false} ConcatAppend(a: seq<string>, b: seq<string>)
    ensures Concat(a + b) == Concat(a) + Concat(b)
    decreases |a|
  {
    if |a| == 0 {
      assert a + b == b;
    } else {
      assert (a + b)[1..] == a[1..] + b;
      ConcatAppend(a[1..], b);
    }
  }

  /** All elements of all groups, in order. */
  function Flatten(groups: seq<seq<string>>): seq<string>
  {
    if |groups| == 0 then [] else groups[0] + Flatten(groups[1..])
  }

  /** `sep.join(parts)`. */
  function Join(parts: seq<string>, sep: string): string
  {
    if |parts| == 0 then ""
    else if |parts| == 1 then parts[0]
    else parts[0] + sep + Join(parts[1..], sep)
  }

  /** Joining one more part adds the separator and the part. */
  lemma {:induction false} JoinSnoc(parts: seq<string>, last: string, sep: string)
    requires |parts| > 0
    ensures Join(parts + [last], sep) == Join(parts, sep) + sep + last
  {
    if |parts| > 1 {
      JoinSnoc(parts[1..], last, sep);
      assert (parts + [last])[1..] == parts[1..] + [last];
    }
  }

  /** Index of the first occurrence of `c`. */
  function IndexOf(s: string, c: char): (i: nat)
    requires c in s
    ensures i < |s| && s[i] == c && c !in s[..i]
  {
    if s[0] == c then 0
    else
      assert s == [s[0]] + s[1..];
      var j := IndexOf(s[1..], c);
      assert s[..j + 1] == [s[0]] + s[1..][..j];
      j + 1
  }

  /** `IndexOf` finds the position of the first occurrence. */
  lemma {:induction false} IndexOfAt(s: string, c: char, j: nat)
    requires j < |s| && s[j] == c && c !in s[..j]
    ensures IndexOf(s, c) == j
    decreases j
  {
    if j > 0 {
      assert s[0] == s[..j][0];
      assert s[1..][..j - 1] == s[..j][1..];
      IndexOfAt(s[1..], c, j - 1);
    }
  }

  /** `s.split(sep)` for a one-character separator: every occurrence cuts,
      so empty pieces are kept and there is always at least one piece. */
  function SplitOn(s: string, sep: char): (parts: seq<string>)
    ensures |parts| >= 1
    ensures forall k :: 0 <= k < |parts| ==> sep !in parts[k]
    ensures Join(parts, [sep]) == s
    decreases |s|
  {
    if sep !in s then [s]
    else
      var i := IndexOf(s, sep);
      var rest := SplitOn(s[i + 1..], sep);
      assert s == s[..i] + [sep] + s[i + 1..];
      [s[..i]] + rest
  }

  /** Splitting a separator-joined list on the separator gives the list
      back, provided no element contains the separator. */
  lemma {:induction false} SplitOnJoin(parts: seq<string>, sep: char)
    requires |parts| >= 1
    requires forall k :: 0 <= k < |parts| ==> sep !in parts[k]
    ensures SplitOn(Join(parts, [sep]), sep) == parts
    decreases |parts|
  {
    if |parts| > 1 {
      var p := parts[0];
      var rest := Join(parts[1..], [sep]);
      var s := Join(parts, [sep]);
      assert s == p + [sep] + rest;
      assert s[|p|] == sep;
      assert sep !in s[..|p|] by { assert s[..|p|] == p; }
      IndexOfAt(s, sep, |p|);
      var i := IndexOf(s, sep);
      assert s[..i] == p;
      assert s[i + 1..] == rest;
      SplitOnJoin(parts[1..], sep);
    }
  }

  /** Length of the leading run of non-whitespace characters. */
  function WordEnd(s: string): (n: nat)
    ensures n <= |s| && NoSpace(s[..n])
    ensures n == |s| || IsSpace(s[n])
    ensures |s| > 0 && !IsSpace(s[0]) ==> n > 0
  {
    if |s| == 0 || IsSpace(s[0]) then 0
    else
      var n := WordEnd(s[1..]);
      assert s[..n + 1] == [s[0]] + s[1..][..n];
      n + 1
  }

  /** The characters of `s` that are not whitespace, in order. */
  function NonSpace(s: string): string
  {
    if |s| == 0 then ""
    else if IsSpace(s[0]) then NonSpace(s[1..])
    else [s[0]] + NonSpace(s[1..])
  }

  lemma {:induction false} NonSpaceAppend(a: string, b: string)
    ensures NonSpace(a + b) == NonSpace(a) + NonSpace(b)
    decreases |a|
  {
    if |a| == 0 {
      assert a + b == b;
    } else {
      assert (a + b)[1..] == a[1..] + b;
      NonSpaceAppend(a[1..], b);
    }
  }

  lemma {:induction false} NonSpaceOfAllSpace(s: string)
    requires AllSpace(s)
    ensures NonSpace(s) == ""
    decreases |s|
  {
    if |s| > 0 {
      NonSpaceOfAllSpace(s[1..]);
    }
  }

  lemma {:induction false} NonSpaceOfNoSpace(s: string)
    requires NoSpace(s)
    ensures NonSpace(s) == s
    decreases |s|
  {
    if |s| > 0 {
      NonSpaceOfNoSpace(s[1..]);
    }
  }

  /** `s.split()`: the maximal runs of non-whitespace characters. No word
      is empty or holds whitespace. */
  function Words(s: string): (ws: seq<string>)
    ensures forall k :: 0 <= k < |ws| ==> |ws[k]| > 0 && NoSpace(ws[k])
    decreases |s|
  {
    if |s| == 0 then []
    else if IsSpace(s[0]) then Words(s[1..])
    else
      var n := WordEnd(s);
      [s[..n]] + Words(s[n..])
  }

  /** The words, glued back together, are exactly the non-whitespace text:
      splitting loses the whitespace and nothing else. */
  lemma {:induction false} WordsKeepText(s: string)
    ensures Concat(Words(s)) == NonSpace(s)
    decreases |s|
  {
    if |s| > 0 {
      if IsSpace(s[0]) {
        WordsKeepText(s[1..]);
      } else {
        var n := WordEnd(s);
        NonSpaceOfWord(s, n);
        WordsKeepText(s[n..]);
      }
    }
  }

  lemma NonSpaceOfWord(s: string, n: nat)
    requires n <= |s| && NoSpace(s[..n])
    ensures NonSpace(s) == s[..n] + NonSpace(s[n..])
  {
    assert s == s[..n] + s[n..];
    NonSpaceAppend(s[..n], s[n..]);
    NonSpaceOfNoSpace(s[..n]);
  }

  /** Splitting words joined by single spaces gives the words back. */
  lemma {:induction false} WordsOfJoin(ws: seq<string>)
    requires forall k :: 0 <= k < |ws| ==> |ws[k]| > 0 && NoSpace(ws[k])
    ensures Words(Join(ws, " ")) == ws
    decreases |ws|
  {
    if |ws| == 1 {
      var w := ws[0];
      WordEndOfWord(w, "");
      assert w + "" == w;
      assert w[|w|..] == "";
    } else if |ws| > 1 {
      var w := ws[0];
      var rest := Join(ws[1..], " ");
      var s := w + (" " + rest);
      assert Join(ws, " ") == s;
      WordEndOfWord(w, " " + rest);
      assert s[..|w|] == w;
      assert s[|w|..] == " " + rest;
      assert (" " + rest)[1..] == rest;
      WordsOfJoin(ws[1..]);
    }
  }

  lemma {:induction false} WordEndOfWord(w: string, tail: string)
    requires NoSpace(w)
    requires |tail| == 0 || IsSpace(tail[0])
    ensures WordEnd(w + tail) == |w|
    decreases |w|
  {
    if |w| > 0 {
      assert (w + tail)[1..] == w[1..] + tail;
      WordEndOfWord(w[1..], tail);
    }
  }

  /** ASCII lower-casing, character by character. */
  function LowerChar(c: char): char
  {
    if 'A' <= c <= 'Z' then (c as int + 32) as char else c
  }

  /** ASCII lower-casing: the result holds no capital letter, every capital
      letter becomes its small letter, and every other character is kept. */
  function Lower(s: string): (r: string)
    ensures |r| == |s|
    ensures forall i :: 0 <= i < |s| ==> r[i] == LowerChar(s[i])
    ensures forall i :: 0 <= i < |r| ==> !('A' <= r[i] <= 'Z')
    ensures forall i :: 0 <= i < |s| && 'A' <= s[i] <= 'Z' ==> r[i] as int == s[i] as int + 32
    ensures forall i :: 0 <= i < |s| && !('A' <= s[i] <= 'Z') ==> r[i] == s[i]
  {
    seq(|s|, i requires 0 <= i < |s| => LowerChar(s[i]))
  }

  /** Lower-casing twice is lower-casing once. */
  lemma LowerIdempotent(s: string)
    ensures Lower(Lower(s)) == Lower(s)
  {
  }

  /** `s.startswith(prefix)`, compared one character at a time. */
  predicate StartsWith(s: string, prefix: string)
    ensures StartsWith(s, prefix) ==> |prefix| <= |s|
    decreases |prefix|
  {
    |prefix| == 0 || (|s| > 0 && s[0] == prefix[0] && StartsWith(s[1..], prefix[1..]))
  }

  /** `s.startswith(prefix)` exactly when `prefix` is the front of `s`. */
  lemma {:induction false} StartsWithIsPrefix(s: string, prefix: string)
    ensures StartsWith(s, prefix) <==> |prefix| <= |s| && s[..|prefix|] == prefix
    decreases |prefix|
  {
    if |prefix| > 0 && |s| > 0 {
      StartsWithIsPrefix(s[1..], prefix[1..]);
      if |prefix| <= |s| && s[..|prefix|] == prefix {
        assert s[1..][..|prefix| - 1] == s[..|prefix|][1..];
      }
      if |prefix| <= |s| && s[0] == prefix[0] && s[1..][..|prefix| - 1] == prefix[1..] {
        assert s[..|prefix|] == [s[0]] + s[1..][..|prefix| - 1];
        assert prefix == [prefix[0]] + prefix[1..];
      }
    }
  }

  lemma StartsWithConcat(prefix: string, rest: string)
    ensures StartsWith(prefix + rest, prefix)
  {
    StartsWithIsPrefix(prefix + rest, prefix);
    assert (prefix + rest)[..|prefix|] == prefix;
  }
}
