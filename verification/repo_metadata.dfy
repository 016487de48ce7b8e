/** How a module repository describes itself: either a `repo.conf` INI file
    with a `[repository]` section, or (legacy) `__name__ = '…'` and
    `__all__ = (…)` lines in the repository's `__init__.py`.

    The filesystem is abstract: a set of directories, the text lines of
    every file, and for INI files the section/key/value map that
    `configparser` would produce. The two regular expressions of the source
    are replaced by hand-written recognisers that are proved equivalent to
    the grammars the expressions describe. */
module RepoMetadata {
  import opened Results
  import opened Strings

  /** A path as its sequence of components. */
  type Path = seq<string>

  /** A parsed INI file: section -> key -> value. */
  type Ini = map<string, map<string, string>>

  datatype FileSystem = FileSystem(
    dirs: set<Path>,
    files: map<Path, seq<string>>,
    inis: map<Path, Ini>)

  /** Every directory above a file exists. */
  predicate Consistent(fs: FileSystem)
  {
    forall f, k :: f in fs.files && 0 < k < |f| ==> f[..k] in fs.dirs
  }

  /** The messages of `RepositoryMetadataError`, one variant per raise site. */
  datatype MetadataError =
    | ConfMissingName                  // repo.conf without a usable `name`
    | ConfMissingModules               // repo.conf without a usable `modules`
    | MissingName                      // legacy file never declares `__name__`
    | MissingModulesList               // legacy module list is None
    | InvalidModuleLink(entry: string)  // listed module is not a directory
    | InvalidName                      // `__name__` line does not match
    | InvalidModulesSpec               // `__all__` line does not match
    | InvalidModuleName(entry: string)  // list entry is not a valid name
    | MissingInitFile(entry: string)  // module lacks `__init__.py`
    | MissingModuleFile(entry: string)  // module lacks `module.py`

  /** What constructing a `Repository` yields: its facts, an object whose
      facts were never set (legacy path without `__init__.py`), or the
      raised error. */
  datatype Facts =
    | Found(name: string, modules: seq<string>)
    | Unnamed
    | Invalid(error: MetadataError)

  const NamePrefix: string := "__name__"
  const AllPrefix: string := "__all__"

  // ---------------------------------------------------------------------
  // RE_NAME, RE_QUOTE and RE_NAMES as predicates

  predicate NameStartChar(c: char) { 'a' <= c <= 'z' || c == '_' }

  predicate NameChar(c: char) { NameStartChar(c) || '0' <= c <= '9' }

  /** `[a-z_][0-9a-z_]+`: note the `+`, so a name has at least two
      characters. */
  predicate IsName(s: string)
  {
    |s| >= 2 && NameStartChar(s[0]) && forall i :: 1 <= i < |s| ==> NameChar(s[i])
  }

  /** `("|"""|')`. */
  predicate IsQuote(q: string)
  {
    || (|q| == 1 && (q[0] == '"' || q[0] == '\''))
    || (|q| == 3 && q[0] == '"' && q[1] == '"' && q[2] == '"')
  }

  /** One character of the class `[a-z0-9_,\s("|"""|')]`: the group and the
      alternation bars sit inside the brackets, so `(`, `)`, `|` and both
      quote characters are literal members of the class. */
  predicate NamesChar(c: char)
  {
    || 'a' <= c <= 'z' || '0' <= c <= '9' || c == '_' || c == ',' || IsSpace(c)
    || c == '(' || c == ')' || c == '|' || c == '"' || c == '\''
  }

  predicate AllNamesChars(s: string)
  {
    forall i :: 0 <= i < |s| ==> NamesChar(s[i])
  }

  /** The language of `(__name__)(\s*)(=)(\s*)` RE_QUOTE `(` RE_NAME `)`
      RE_QUOTE under `fullmatch`, with `name` the NAME group. The two quotes
      are chosen independently. */
  ghost predicate NameLineOf(line: string, name: string)
  {
    exists w1: string, w2: string, q1: string, q2: string ::
      && AllSpace(w1) && AllSpace(w2) && IsQuote(q1) && IsQuote(q2) && IsName(name)
      && line == NamePrefix + w1 + "=" + w2 + (q1 + name + q2)
  }

  /** The language of `(__all__)(\s*)(=)(\s*)\((` RE_NAMES `)\)` under
      `fullmatch`, with `body` the last group. */
  ghost predicate ModulesLineOf(line: string, body: string)
  {
    exists w1: string, w2: string ::
      && AllSpace(w1) && AllSpace(w2) && |body| > 0 && AllNamesChars(body)
      && line == AllPrefix + w1 + "=" + w2 + ("(" + body + ")")
  }

  // ---------------------------------------------------------------------
  // Recognisers

  /** Length of the opening quote of `t`, 0 when there is none. A name
      never starts with a quote character, so the longest quote is the
      only one that can work. */
  function QuoteOpen(t: string): (o: nat)
    ensures o <= |t| && (o > 0 ==> IsQuote(t[..o]))
  {
    if |t| >= 3 && t[0] == '"' && t[1] == '"' && t[2] == '"' then 3
    else if |t| > 0 && (t[0] == '"' || t[0] == '\'') then 1
    else 0
  }

  /** Length of the closing quote of `u`, 0 when there is none. */
  function QuoteClose(u: string): (c: nat)
    ensures c <= |u| && (c > 0 ==> IsQuote(u[|u| - c..]))
  {
    if |u| >= 3 && u[|u| - 3] == '"' && u[|u| - 2] == '"' && u[|u| - 1] == '"' then 3
    else if |u| > 0 && (u[|u| - 1] == '"' || u[|u| - 1] == '\'') then 1
    else 0
  }

  /** What follows `prefix`, optional whitespace, `=` and optional
      whitespace; None when the line does not start that way. */
  function AfterEquals(line: string, prefix: string): (r: Option<string>)
    ensures r.Some? ==> |r.value| == 0 || !IsSpace(r.value[0])
  {
    if !StartsWith(line, prefix) then None
    else AfterSign(TrimLeft(line[|prefix|..], Whitespace))
  }

  /** What follows a leading `=` and optional whitespace. */
  function AfterSign(a: string): (r: Option<string>)
    ensures r.Some? ==> |r.value| == 0 || !IsSpace(r.value[0])
  {
    if |a| == 0 || a[0] != '=' then None
    else Some(TrimLeft(a[1..], Whitespace))
  }

  lemma AfterSignSound(a: string) returns (w2: string)
    requires AfterSign(a).Some?
    ensures AllIn(w2, Whitespace) && a == "=" + (w2 + AfterSign(a).value)
  {
    var t := TrimLeft(a[1..], Whitespace);
    TrimLeftSplit(a[1..], Whitespace);
    w2 := a[1..][..|a[1..]| - |t|];
    assert a == "=" + a[1..];
  }

  lemma AfterEqualsSound(line: string, prefix: string) returns (w1: string, w2: string)
    requires AfterEquals(line, prefix).Some?
    ensures AllSpace(w1) && AllSpace(w2)
    ensures line == prefix + w1 + "=" + w2 + AfterEquals(line, prefix).value
  {
    StartsWithIsPrefix(line, prefix);
    var s := line[|prefix|..];
    var a := TrimLeft(s, Whitespace);
    TrimLeftSplit(s, Whitespace);
    w1 := s[..|s| - |a|];
    w2 := AfterSignSound(a);
    var t := AfterSign(a).value;
    assert line == prefix + (w1 + ("=" + (w2 + t))) by {
      assert line == line[..|prefix|] + s;
    }
    Reassociate(prefix, w1, w2, t);
  }

  lemma Reassociate(p: string, w1: string, w2: string, t: string)
    ensures p + (w1 + ("=" + (w2 + t))) == p + w1 + "=" + w2 + t
  {
  }

  lemma AfterEqualsComplete(prefix: string, w1: string, w2: string, t: string)
    requires AllSpace(w1) && AllSpace(w2)
    requires |t| == 0 || !IsSpace(t[0])
    ensures AfterEquals(prefix + w1 + "=" + w2 + t, prefix) == Some(t)
  {
    var line := prefix + w1 + "=" + w2 + t;
    var rest := "=" + (w2 + t);
    assert line == prefix + (w1 + rest);
    StartsWithConcat(prefix, w1 + rest);
    assert line[|prefix|..] == w1 + rest;
    TrimLeftPrefix(w1, rest, Whitespace);
    assert rest[1..] == w2 + t;
    TrimLeftPrefix(w2, t, Whitespace);
  }

  /** The NAME between two quotes filling all of `t`. */
  function QuotedName(t: string): (r: Option<string>)
    ensures r.Some? ==> IsName(r.value)
  {
    var o := QuoteOpen(t);
    if o == 0 then None
    else
      var u := t[o..];
      var c := QuoteClose(u);
      if c == 0 then None
      else
        var n := u[..|u| - c];
        if IsName(n) then Some(n) else None
  }

  lemma QuotedNameSound(t: string) returns (q1: string, q2: string)
    requires QuotedName(t).Some?
    ensures IsQuote(q1) && IsQuote(q2) && t == q1 + QuotedName(t).value + q2
  {
    var o := QuoteOpen(t);
    var u := t[o..];
    var c := QuoteClose(u);
    assert QuotedName(t) == Some(u[..|u| - c]);
    q1 := t[..o];
    q2 := u[|u| - c..];
    CutInThree(t, o, |u| - c);
  }

  lemma CutInThree<T>(t: seq<T>, i: nat, k: nat)
    requires i + k <= |t|
    ensures t == t[..i] + t[i..][..k] + t[i..][k..]
  {
    assert t == t[..i] + t[i..];
    assert t[i..] == t[i..][..k] + t[i..][k..];
  }

  lemma QuotedNameComplete(q1: string, n: string, q2: string)
    requires IsQuote(q1) && IsQuote(q2) && IsName(n)
    ensures QuotedName(q1 + n + q2) == Some(n)
  {
    var t := q1 + n + q2;
    assert t == q1 + (n + q2);
    QuoteOpenOf(q1, n + q2);
    assert t[|q1|..] == n + q2;
    QuoteCloseOf(n, q2);
    assert (n + q2)[..|n|] == n;
  }

  /** The NAME group of a `__name__` line, None when the line does not
      match. */
  function ParseNameLine(line: string): (r: Option<string>)
    ensures r.Some? ==> IsName(r.value)
  {
    match AfterEquals(line, NamePrefix)
    case None => None
    case Some(t) => QuotedName(t)
  }

  /** The text between the parentheses filling all of `t`, when it is
      non-empty and made of class characters. */
  function Parenthesised(t: string): (r: Option<string>)
    ensures r.Some? ==> |r.value| > 0 && AllNamesChars(r.value)
    ensures r.Some? ==> t == "(" + r.value + ")"
  {
    if |t| < 3 || t[0] != '(' || t[|t| - 1] != ')' then None
    else
      var body := t[1..|t| - 1];
      if AllNamesChars(body) then Some(body) else None
  }

  /** The body between the parentheses of an `__all__` line, None when the
      line does not match. */
  function ParseModulesLine(line: string): (r: Option<string>)
    ensures r.Some? ==> |r.value| > 0 && AllNamesChars(r.value)
  {
    match AfterEquals(line, AllPrefix)
    case None => None
    case Some(t) => Parenthesised(t)
  }

  lemma QuoteOpenOf(q: string, x: string)
    requires IsQuote(q) && |x| > 0 && NameStartChar(x[0])
    ensures QuoteOpen(q + x) == |q|
  {
    var t := q + x;
    assert t[|q|] == x[0];
    assert forall i :: 0 <= i < |q| ==> t[i] == q[i];
  }

  lemma QuoteCloseOf(x: string, q: string)
    requires IsQuote(q) && |x| > 0 && NameChar(x[|x| - 1])
    ensures QuoteClose(x + q) == |q|
  {
    var u := x + q;
    assert u[|x| - 1] == x[|x| - 1];
    assert forall i :: 0 <= i < |q| ==> u[|x| + i] == q[i];
  }

  /** Every line the recogniser accepts is in the grammar, with the name it
      returns as the NAME group. */
  lemma ParseNameLineSound(line: string)
    requires ParseNameLine(line).Some?
    ensures NameLineOf(line, ParseNameLine(line).value)
  {
    var t := AfterEquals(line, NamePrefix).value;
    var w1, w2 := AfterEqualsSound(line, NamePrefix);
    var q1, q2 := QuotedNameSound(t);
    var n := ParseNameLine(line).value;
    NameLineOfParts(w1, w2, q1, n, q2, t);
  }

  lemma NameLineOfParts(w1: string, w2: string, q1: string, n: string, q2: string, t: string)
    requires AllSpace(w1) && AllSpace(w2) && IsQuote(q1) && IsQuote(q2) && IsName(n)
    requires t == q1 + n + q2
    ensures NameLineOf(NamePrefix + w1 + "=" + w2 + t, n)
  {
  }

  /** Every line of the grammar is accepted, with its NAME group. */
  lemma ParseNameLineComplete(line: string, name: string)
    requires NameLineOf(line, name)
    ensures ParseNameLine(line) == Some(name)
  {
    var w1: string, w2: string, q1: string, q2: string :|
      && AllSpace(w1) && AllSpace(w2) && IsQuote(q1) && IsQuote(q2) && IsName(name)
      && line == NamePrefix + w1 + "=" + w2 + (q1 + name + q2);
    var t := q1 + name + q2;
    assert t[0] == q1[0];
    AfterEqualsComplete(NamePrefix, w1, w2, t);
    QuotedNameComplete(q1, name, q2);
  }

  /** Every line the recogniser accepts is in the grammar, with the body it
      returns as the last group. */
  lemma ParseModulesLineSound(line: string)
    requires ParseModulesLine(line).Some?
    ensures ModulesLineOf(line, ParseModulesLine(line).value)
  {
    var t := AfterEquals(line, AllPrefix).value;
    var w1, w2 := AfterEqualsSound(line, AllPrefix);
    var body := ParseModulesLine(line).value;
    ModulesLineOfParts(w1, w2, body, t);
  }

  lemma ModulesLineOfParts(w1: string, w2: string, body: string, t: string)
    requires AllSpace(w1) && AllSpace(w2) && |body| > 0 && AllNamesChars(body)
    requires t == "(" + body + ")"
    ensures ModulesLineOf(AllPrefix + w1 + "=" + w2 + t, body)
  {
  }

  /** Every line of the grammar is accepted, with its body. */
  lemma ParseModulesLineComplete(line: string, body: string)
    requires ModulesLineOf(line, body)
    ensures ParseModulesLine(line) == Some(body)
  {
    var w1: string, w2: string :|
      && AllSpace(w1) && AllSpace(w2) && |body| > 0 && AllNamesChars(body)
      && line == AllPrefix + w1 + "=" + w2 + ("(" + body + ")");
    var t := "(" + body + ")";
    AfterEqualsComplete(AllPrefix, w1, w2, t);
    assert t[1..|t| - 1] == body;
  }

  // ---------------------------------------------------------------------
  // _regex_get_name and _regex_get_modules

  /** `_regex_get_name`: the name, or `InvalidName`. */
  function GetName(line: string): (r: Result<string, MetadataError>)
    ensures r.Ok? ==> IsName(r.value)
    ensures r.Err? ==> r.error == InvalidName
  {
    match ParseNameLine(line)
    case Some(n) => Ok(n)
    case None => Err(InvalidName)
  }

  /** The entries of a module list: the body cut at every `,`, each piece
      stripped of spaces and quotes, empty pieces dropped. */
  function ModuleNames(body: string): (names: seq<string>)
    ensures forall k :: 0 <= k < |names| ==> Unpadded(names[k])
  {
    Cleaned(SplitOn(body, ','))
  }

  /** Non-empty, with no space or quote at either end. */
  predicate Unpadded(s: string)
  {
    |s| > 0 && !InClass(s[0], SpaceOrQuote) && !InClass(s[|s| - 1], SpaceOrQuote)
  }

  function Cleaned(pieces: seq<string>): (names: seq<string>)
    ensures |names| <= |pieces|
    ensures forall k :: 0 <= k < |names| ==> Unpadded(names[k])
  {
    if |pieces| == 0 then []
    else
      var n := Strip(pieces[0], SpaceOrQuote);
      var rest := Cleaned(pieces[1..]);
      if |n| == 0 then rest
      else
        ConsUnpadded(n, rest);
        [n] + rest
  }

  lemma ConsUnpadded(n: string, rest: seq<string>)
    requires Unpadded(n)
    requires forall k :: 0 <= k < |rest| ==> Unpadded(rest[k])
    ensures forall k :: 0 <= k < |rest| + 1 ==> Unpadded(([n] + rest)[k])
  {
    assert forall k :: 1 <= k < |rest| + 1 ==> ([n] + rest)[k] == rest[k - 1];
  }

  /** A list written as names wrapped in any space/quote padding and
      separated by commas reads back as exactly those names, in order. */
  lemma ModuleNamesRoundTrip(names: seq<string>, pre: seq<string>, post: seq<string>)
    requires |pre| == |names| == |post|
    requires forall k :: 0 <= k < |names| ==>
               IsName(names[k]) && AllIn(pre[k], SpaceOrQuote) && AllIn(post[k], SpaceOrQuote)
    ensures ModuleNames(Join(seq(|names|, k requires 0 <= k < |names| => pre[k] + names[k] + post[k]), ",")) == names
  {
    var pieces := seq(|names|, k requires 0 <= k < |names| => pre[k] + names[k] + post[k]);
    if |names| == 0 {
      assert Join(pieces, ",") == "";
      assert SplitOn("", ',') == [""];
    } else {
      forall k | 0 <= k < |pieces| ensures ',' !in pieces[k]
      {
        assert pieces[k] == pre[k] + names[k] + post[k];
        assert ',' !in names[k] by {
          forall i | 0 <= i < |names[k]| ensures names[k][i] != ',' {
            if i > 0 { assert NameChar(names[k][i]); }
          }
        }
      }
      SplitOnJoin(pieces, ',');
      CleanedWrapped(names, pre, post, pieces);
    }
  }

  /** Cleaning works piece by piece: the cleaned list of two lists of
      pieces is their cleaned lists one after the other. */
  lemma {:induction false} CleanedAppend(p: seq<string>, q: seq<string>)
    ensures Cleaned(p + q) == Cleaned(p) + Cleaned(q)
    decreases |p|
  {
    if |p| > 0 {
      var x, tail := p[0], p[1..];
      SplitHead(p, q);
      CleanedCons(x, tail + q);
      CleanedAppend(tail, q);
      CleanedCons(x, tail);
      Associative(CleanedPiece(x), Cleaned(tail), Cleaned(q));
    } else {
      assert p + q == q;
    }
  }

  lemma SplitHead<T>(p: seq<T>, q: seq<T>)
    requires |p| > 0
    ensures p == [p[0]] + p[1..] && p + q == [p[0]] + (p[1..] + q)
  {
  }

  lemma Associative<T>(a: seq<T>, b: seq<T>, c: seq<T>)
    ensures a + (b + c) == (a + b) + c
  {
  }

  /** What one piece contributes: its stripped name, or nothing. */
  function CleanedPiece(x: string): seq<string>
  {
    var n := Strip(x, SpaceOrQuote);
    if |n| == 0 then [] else [n]
  }

  lemma CleanedCons(x: string, rest: seq<string>)
    ensures Cleaned([x] + rest) == CleanedPiece(x) + Cleaned(rest)
  {
    assert ([x] + rest)[0] == x && ([x] + rest)[1..] == rest;
  }

  /** One piece is dropped when it is nothing but spaces and quotes, and
      otherwise kept, stripped. */
  lemma CleanedOne(x: string)
    ensures AllIn(x, SpaceOrQuote) ==> Cleaned([x]) == []
    ensures !AllIn(x, SpaceOrQuote) ==> Cleaned([x]) == [Strip(x, SpaceOrQuote)]
  {
    StripEmpty(x, SpaceOrQuote);
    assert [x][1..] == [];
  }

  /** The module list of any body: its comma-separated pieces, cleaned. */
  lemma ModuleNamesOfPieces(pieces: seq<string>)
    requires |pieces| >= 1
    requires forall k :: 0 <= k < |pieces| ==> ',' !in pieces[k]
    ensures ModuleNames(Join(pieces, ",")) == Cleaned(pieces)
  {
    SplitOnJoin(pieces, ',');
  }

  /** A trailing comma, as in the one-element tuple `("mod",)`, opens a
      last piece of padding only, which is dropped. */
  lemma ModuleNamesTrailingComma(names: seq<string>, pre: seq<string>, post: seq<string>, pad: string)
    requires |pre| == |names| == |post| && |names| > 0
    requires forall k :: 0 <= k < |names| ==>
               IsName(names[k]) && AllIn(pre[k], SpaceOrQuote) && AllIn(post[k], SpaceOrQuote)
    requires AllIn(pad, SpaceOrQuote)
    ensures ModuleNames(Join(seq(|names|, k requires 0 <= k < |names| => pre[k] + names[k] + post[k]), ",") + "," + pad)
              == names
  {
    var pieces := seq(|names|, k requires 0 <= k < |names| => pre[k] + names[k] + post[k]);
    NoCommaPieces(names, pre, post);
    JoinSnoc(pieces, pad, ",");
    assert ',' !in pad by {
      forall i | 0 <= i < |pad| ensures pad[i] != ',' { assert InClass(pad[i], SpaceOrQuote); }
    }
    var all := pieces + [pad];
    assert forall k :: 0 <= k < |all| ==> ',' !in all[k] by {
      forall k | 0 <= k < |all| ensures ',' !in all[k] {
        if k < |pieces| { assert all[k] == pieces[k]; }
      }
    }
    ModuleNamesOfPieces(all);
    CleanedAppend(pieces, [pad]);
    CleanedOne(pad);
    CleanedWrapped(names, pre, post, pieces);
  }

  /** Padded names hold no comma. */
  lemma NoCommaPieces(names: seq<string>, pre: seq<string>, post: seq<string>)
    requires |pre| == |names| == |post|
    requires forall k :: 0 <= k < |names| ==>
               IsName(names[k]) && AllIn(pre[k], SpaceOrQuote) && AllIn(post[k], SpaceOrQuote)
    ensures forall k :: 0 <= k < |names| ==> ',' !in pre[k] + names[k] + post[k]
  {
    forall k | 0 <= k < |names| ensures ',' !in pre[k] + names[k] + post[k]
    {
      assert ',' !in names[k] by {
        forall i | 0 <= i < |names[k]| ensures names[k][i] != ',' {
          if i > 0 { assert NameChar(names[k][i]); }
        }
      }
      assert ',' !in pre[k] by {
        forall i | 0 <= i < |pre[k]| ensures pre[k][i] != ',' { assert InClass(pre[k][i], SpaceOrQuote); }
      }
      assert ',' !in post[k] by {
        forall i | 0 <= i < |post[k]| ensures post[k][i] != ',' { assert InClass(post[k][i], SpaceOrQuote); }
      }
    }
  }

  lemma {:induction false} CleanedWrapped(names: seq<string>, pre: seq<string>, post: seq<string>, pieces: seq<string>)
    requires |pre| == |names| == |post| == |pieces|
    requires forall k :: 0 <= k < |names| ==>
               && IsName(names[k]) && AllIn(pre[k], SpaceOrQuote) && AllIn(post[k], SpaceOrQuote)
               && pieces[k] == pre[k] + names[k] + post[k]
    ensures Cleaned(pieces) == names
    decreases |names|
  {
    if |names| > 0 {
      var n := names[0];
      assert NameChar(n[|n| - 1]);
      StripWrapped(pre[0], n, post[0], SpaceOrQuote);
      CleanedWrapped(names[1..], pre[1..], post[1..], pieces[1..]);
    }
  }

  /** The checks `_regex_get_modules` makes of one listed name. */
  predicate ModuleOk(fs: FileSystem, path: Path, name: string)
  {
    && IsName(name)
    && path + [name, "__init__.py"] in fs.files
    && path + [name, "module.py"] in fs.files
  }

  /** The error raised for a name that fails `ModuleOk`, checks in source
      order (`ModuleErrorOrder`). */
  function ModuleError(fs: FileSystem, path: Path, name: string): (e: MetadataError)
    ensures LineError(e)
  {
    if !IsName(name) then InvalidModuleName(name)
    else if path + [name, "__init__.py"] !in fs.files then MissingInitFile(name)
    else MissingModuleFile(name)
  }

  /** The name pattern is checked first, then the init file, then the
      module file. */
  lemma ModuleErrorOrder(fs: FileSystem, path: Path, name: string)
    ensures ModuleError(fs, path, name) == InvalidModuleName(name) <==> !IsName(name)
    ensures ModuleError(fs, path, name) == MissingInitFile(name) <==>
      IsName(name) && path + [name, "__init__.py"] !in fs.files
    ensures ModuleError(fs, path, name) == MissingModuleFile(name) <==>
      IsName(name) && path + [name, "__init__.py"] in fs.files
    ensures !ModuleOk(fs, path, name) && ModuleError(fs, path, name) == MissingModuleFile(name) ==>
      path + [name, "module.py"] !in fs.files
  {
  }

  /** The first failing name's error, or None when every name passes. */
  function FirstModuleError(fs: FileSystem, path: Path, names: seq<string>): (e: Option<MetadataError>)
    ensures e.None? <==> forall k :: 0 <= k < |names| ==> ModuleOk(fs, path, names[k])
    ensures e.Some? ==> LineError(e.value)
  {
    if |names| == 0 then None
    else if !ModuleOk(fs, path, names[0]) then Some(ModuleError(fs, path, names[0]))
    else FirstModuleError(fs, path, names[1..])
  }

  /** The error reported is that of the first name that fails. */
  lemma {:induction false} FirstModuleErrorIsFirst(fs: FileSystem, path: Path, names: seq<string>) returns (k: nat)
    requires FirstModuleError(fs, path, names).Some?
    ensures k < |names| && !ModuleOk(fs, path, names[k])
    ensures FirstModuleError(fs, path, names).value == ModuleError(fs, path, names[k])
    ensures forall j :: 0 <= j < k ==> ModuleOk(fs, path, names[j])
  {
    if ModuleOk(fs, path, names[0]) {
      var k' := FirstModuleErrorIsFirst(fs, path, names[1..]);
      assert forall j :: 1 <= j < |names| ==> names[j] == names[1..][j - 1];
      k := k' + 1;
    } else {
      k := 0;
    }
  }

  /** Every name passes the checks of `_regex_get_modules`. */
  predicate ModulesOk(fs: FileSystem, path: Path, names: seq<string>)
  {
    forall k :: 0 <= k < |names| ==> ModuleOk(fs, path, names[k])
  }

  /** `_regex_get_modules`. */
  function GetModules(fs: FileSystem, path: Path, line: string): (r: Result<seq<string>, MetadataError>)
    ensures r.Ok? ==> ModulesOk(fs, path, r.value)
    ensures r.Err? ==> LineError(r.error)
  {
    match ParseModulesLine(line)
    case None => Err(InvalidModulesSpec)
    case Some(body) =>
      var names := ModuleNames(body);
      match FirstModuleError(fs, path, names)
      case Some(e) => Err(e)
      case None => Ok(names)
  }

  /** `_regex_get_modules` is all-or-nothing: a line that matches yields
      all of its entries, in order, exactly when every entry passes the
      checks; otherwise the first bad entry is reported. */
  lemma GetModulesAllOrNothing(fs: FileSystem, path: Path, line: string, body: string)
    requires ParseModulesLine(line) == Some(body)
    ensures GetModules(fs, path, line) == Ok(ModuleNames(body)) <==> ModulesOk(fs, path, ModuleNames(body))
    ensures GetModules(fs, path, line).Err? ==>
              exists k :: 0 <= k < |ModuleNames(body)|
                && GetModules(fs, path, line).error == ModuleError(fs, path, ModuleNames(body)[k])
                && !ModuleOk(fs, path, ModuleNames(body)[k])
                && forall j :: 0 <= j < k ==> ModuleOk(fs, path, ModuleNames(body)[j])
  {
    var names := ModuleNames(body);
    if FirstModuleError(fs, path, names).Some? {
      var k := FirstModuleErrorIsFirst(fs, path, names);
    }
  }

  /** A line that does not match raises the invalid-specification error. */
  lemma GetModulesRejectsLine(fs: FileSystem, path: Path, line: string)
    requires ParseModulesLine(line).None?
    ensures GetModules(fs, path, line) == Err(InvalidModulesSpec)
  {
  }

  // ---------------------------------------------------------------------
  // set_facts (repo.conf)

  /** `config.get(section, key, fallback=None)`. */
  function IniGet(ini: Ini, section: string, key: string): Option<string>
  {
    if section in ini && key in ini[section] then Some(ini[section][key]) else None
  }

  /** `config.read(conf)`: the parsed file. A file the filesystem holds no
      parse for reads as an empty configuration. In the source a file that
      `configparser` cannot parse raises an error that aborts the whole
      scan instead; that failure is not part of this model. */
  function ParsedIni(fs: FileSystem, conf: Path): Ini
  {
    if conf in fs.inis then fs.inis[conf] else map[]
  }

  /** `[m.strip() for m in modules.split()]`: the `strip` has nothing
      left to remove, so the names are the whitespace-separated words. */
  function ConfModules(modules: string): (names: seq<string>)
    ensures forall k :: 0 <= k < |names| ==> |names[k]| > 0 && NoSpace(names[k])
    ensures names == Words(modules)
  {
    var ws := Words(modules);
    var names := seq(|ws|, k requires 0 <= k < |ws| => Strip(ws[k], Whitespace));
    assert names == ws by {
      forall k | 0 <= k < |ws| ensures names[k] == ws[k] {
        StripNoop(ws[k], Whitespace);
      }
    }
    names
  }

  /** The `repo.conf` branch of `Repository.set_facts`, given the parsed
      file. A missing or empty value is an error; `modules` is split on
      whitespace. */
  function SetFactsConf(ini: Ini): (r: Facts)
    ensures r == Invalid(ConfMissingName) <==> IniGet(ini, "repository", "name") in {None, Some("")}
    ensures r == Invalid(ConfMissingModules) <==>
              IniGet(ini, "repository", "name") !in {None, Some("")}
              && IniGet(ini, "repository", "modules") in {None, Some("")}
    ensures r.Found? <==>
              IniGet(ini, "repository", "name") !in {None, Some("")}
              && IniGet(ini, "repository", "modules") !in {None, Some("")}
    ensures r.Found? ==>
              && Some(r.name) == IniGet(ini, "repository", "name")
              && (forall k :: 0 <= k < |r.modules| ==> |r.modules[k]| > 0 && NoSpace(r.modules[k]))
              && r.modules == Words(IniGet(ini, "repository", "modules").value)
  {
    var name := IniGet(ini, "repository", "name");
    if name.None? || name.value == "" then Invalid(ConfMissingName)
    else
      var modules := IniGet(ini, "repository", "modules");
      if modules.None? || modules.value == "" then Invalid(ConfMissingModules)
      else Found(name.value, ConfModules(modules.value))
  }

  /** `Repository.set_facts`: read `repo.conf` when it is a file, otherwise
      fall back to the legacy `__init__.py` declarations. */
  function SetFacts(fs: FileSystem, path: Path): (r: Facts)
    ensures path + ["repo.conf"] in fs.files ==> r == SetFactsConf(ParsedIni(fs, path + ["repo.conf"]))
    ensures path + ["repo.conf"] !in fs.files ==> r == SetFactsLegacy(fs, path)
    ensures r.Found? ==> |r.name| > 0
    ensures r.Unnamed? ==> path + ["__init__.py"] !in fs.files
  {
    var conf := path + ["repo.conf"];
    if conf !in fs.files then SetFactsLegacy(fs, path)
    else SetFactsConf(ParsedIni(fs, conf))
  }

  /** A `repo.conf` whose `modules` value is the module names separated by
      single spaces yields exactly those names. */
  lemma SetFactsConfRoundTrip(fs: FileSystem, path: Path, name: string, modules: seq<string>)
    requires path + ["repo.conf"] in fs.files
    requires |name| > 0 && |modules| > 0
    requires forall k :: 0 <= k < |modules| ==> |modules[k]| > 0 && NoSpace(modules[k])
    requires IniGet(ParsedIni(fs, path + ["repo.conf"]), "repository", "name") == Some(name)
    requires IniGet(ParsedIni(fs, path + ["repo.conf"]), "repository", "modules") == Some(Join(modules, " "))
    ensures SetFacts(fs, path) == Found(name, modules)
  {
    JoinNonEmpty(modules, " ");
    WordsOfJoin(modules);
    ConfFound(ParsedIni(fs, path + ["repo.conf"]), name, Join(modules, " "));
  }

  lemma ConfFound(ini: Ini, name: string, modules: string)
    requires IniGet(ini, "repository", "name") == Some(name) && |name| > 0
    requires IniGet(ini, "repository", "modules") == Some(modules) && |modules| > 0
    ensures SetFactsConf(ini) == Found(name, Words(modules))
  {
  }

  lemma JoinNonEmpty(parts: seq<string>, sep: string)
    requires |parts| > 0 && |parts[0]| > 0
    ensures |Join(parts, sep)| > 0
  {
  }

  // ---------------------------------------------------------------------
  // set_facts_legacy (__init__.py)

  /** What one line of `__init__.py` does to the scan state. */
  datatype Update = Keep | SetName(name: string) | SetModules(modules: seq<string>)

  /** One line, read: its update or the error it raises. */
  type LineRead = Result<Update, MetadataError>

  /** One iteration of the legacy loop: the stripped line is ignored
      unless it contains `=`; a `__name__` line sets the name and an
      `__all__` line the module list, either raising when it does not
      parse. (No line starts with both prefixes, so the two `if`s of the
      loop are exclusive.) */
  function ReadLine(fs: FileSystem, path: Path, raw: string): (r: LineRead)
    ensures UpdateValid(fs, path, r)
  {
    var line := Strip(raw, Whitespace);
    if '=' !in line then Ok(Keep)
    else if StartsWith(line, NamePrefix) then
      match GetName(line)
      case Ok(n) => Ok(SetName(n))
      case Err(e) => Err(e)
    else if StartsWith(line, AllPrefix) then
      match GetModules(fs, path, line)
      case Ok(ms) => Ok(SetModules(ms))
      case Err(e) => Err(e)
    else Ok(Keep)
  }

  /** The errors a single line can raise. */
  predicate LineError(e: MetadataError)
  {
    e.InvalidName? || e.InvalidModulesSpec? || e.InvalidModuleName? || e.MissingInitFile? || e.MissingModuleFile?
  }

  predicate UpdateValid(fs: FileSystem, path: Path, r: LineRead)
  {
    && (r.Err? ==> LineError(r.error))
    && (r.Ok? && r.value.SetName? ==> IsName(r.value.name))
    && (r.Ok? && r.value.SetModules? ==> ModulesOk(fs, path, r.value.modules))
  }

  /** Every line of a file, read. */
  function ReadAll(fs: FileSystem, path: Path, lines: seq<string>): (rs: seq<LineRead>)
    ensures |rs| == |lines|
  {
    if |lines| == 0 then []
    else [ReadLine(fs, path, lines[0])] + ReadAll(fs, path, lines[1..])
  }

  /** Every read line is one `ReadLine` can produce. */
  lemma {:induction false} ReadAllValid(fs: FileSystem, path: Path, lines: seq<string>)
    ensures forall i :: 0 <= i < |lines| ==> UpdateValid(fs, path, ReadAll(fs, path, lines)[i])
  {
    if |lines| > 0 {
      var r := ReadLine(fs, path, lines[0]);
      var rest := ReadAll(fs, path, lines[1..]);
      ReadAllValid(fs, path, lines[1..]);
      ConsValid(fs, path, r, rest);
    }
  }

  lemma ConsValid(fs: FileSystem, path: Path, r: LineRead, rest: seq<LineRead>)
    requires UpdateValid(fs, path, r)
    requires forall i :: 0 <= i < |rest| ==> UpdateValid(fs, path, rest[i])
    ensures forall i :: 0 <= i < |rest| + 1 ==> UpdateValid(fs, path, ([r] + rest)[i])
  {
    assert forall i :: 1 <= i < |rest| + 1 ==> ([r] + rest)[i] == rest[i - 1];
  }

  /** Line `i` is read on its own. */
  lemma {:induction false} ReadAllAt(fs: FileSystem, path: Path, lines: seq<string>, i: nat)
    requires i < |lines|
    ensures ReadAll(fs, path, lines)[i] == ReadLine(fs, path, lines[i])
  {
    if i > 0 {
      ReadAllAt(fs, path, lines[1..], i - 1);
    }
  }

  predicate SetsName(r: LineRead) { r.Ok? && r.value.SetName? }

  predicate SetsModules(r: LineRead) { r.Ok? && r.value.SetModules? }

  /** The two local variables of the loop. `module_names` is typed as a
      possibly-absent list to keep the source's `is None` check. */
  datatype LegacyState = LegacyState(name: Option<string>, modules: Option<seq<string>>)

  const LegacyStart: LegacyState := LegacyState(None, Some([]))

  function Apply(st: LegacyState, u: Update): LegacyState
  {
    match u
    case Keep => st
    case SetName(n) => st.(name := Some(n))
    case SetModules(ms) => st.(modules := Some(ms))
  }

  predicate StateValid(fs: FileSystem, path: Path, st: LegacyState)
  {
    && (st.name.Some? ==> IsName(st.name.value))
    && (st.modules.Some? ==> ModulesOk(fs, path, st.modules.value))
  }

  /** The loop over the lines of `__init__.py`; the first line that raises
      ends it. */
  function Scan(rs: seq<LineRead>, st: LegacyState): (r: Result<LegacyState, MetadataError>)
    ensures r.Ok? && st.modules.Some? ==> r.value.modules.Some?
    decreases |rs|
  {
    if |rs| == 0 then Ok(st)
    else
      match rs[0]
      case Err(e) => Err(e)
      case Ok(u) => Scan(rs[1..], Apply(st, u))
  }

  /** The scan succeeds exactly when every line reads cleanly; otherwise it
      fails with the error of the first line that does not. */
  lemma {:induction false} ScanStopsAtFirstError(rs: seq<LineRead>, st: LegacyState) returns (i: nat)
    ensures Scan(rs, st).Ok? <==> forall k :: 0 <= k < |rs| ==> rs[k].Ok?
    ensures Scan(rs, st).Err? ==>
              && i < |rs| && rs[i] == Err(Scan(rs, st).error)
              && forall j :: 0 <= j < i ==> rs[j].Ok?
    decreases |rs|
  {
    i := 0;
    if |rs| > 0 && rs[0].Ok? {
      var j := ScanStopsAtFirstError(rs[1..], Apply(st, rs[0].value));
      assert forall k :: 1 <= k < |rs| ==> rs[k] == rs[1..][k - 1];
      i := j + 1;
    }
  }

  /** A failed scan reports one of the errors a line can raise. */
  lemma ScanErrorIsLineError(fs: FileSystem, path: Path, rs: seq<LineRead>, st: LegacyState)
    requires forall i :: 0 <= i < |rs| ==> UpdateValid(fs, path, rs[i])
    ensures Scan(rs, st).Err? ==> LineError(Scan(rs, st).error)
  {
    var first := ScanStopsAtFirstError(rs, st);
    if Scan(rs, st).Err? {
      assert UpdateValid(fs, path, rs[first]);
    }
  }

  /** Valid lines keep the scan state valid. */
  lemma {:induction false} ScanValid(fs: FileSystem, path: Path, rs: seq<LineRead>, st: LegacyState)
    requires forall i :: 0 <= i < |rs| ==> UpdateValid(fs, path, rs[i])
    requires StateValid(fs, path, st) && Scan(rs, st).Ok?
    ensures StateValid(fs, path, Scan(rs, st).value)
    decreases |rs|
  {
    if |rs| > 0 {
      assert UpdateValid(fs, path, rs[0]);
      ScanValid(fs, path, rs[1..], Apply(st, rs[0].value));
    }
  }

  /** The last `__name__` line wins. */
  lemma {:induction false} ScanLastNameWins(rs: seq<LineRead>, st: LegacyState, i: nat)
    requires Scan(rs, st).Ok?
    requires i < |rs| && SetsName(rs[i])
    requires forall j :: i < j < |rs| ==> !SetsName(rs[j])
    ensures Scan(rs, st).value.name == Some(rs[i].value.name)
    decreases |rs|
  {
    var st1 := Apply(st, rs[0].value);
    assert forall j :: 1 <= j < |rs| ==> rs[j] == rs[1..][j - 1];
    if i == 0 {
      ScanKeepsName(rs[1..], st1);
    } else {
      ScanLastNameWins(rs[1..], st1, i - 1);
    }
  }

  /** Without a `__name__` line the name stays what it was. */
  lemma {:induction false} ScanKeepsName(rs: seq<LineRead>, st: LegacyState)
    requires Scan(rs, st).Ok?
    requires forall j :: 0 <= j < |rs| ==> !SetsName(rs[j])
    ensures Scan(rs, st).value.name == st.name
    decreases |rs|
  {
    if |rs| > 0 {
      assert !SetsName(rs[0]);
      ScanKeepsName(rs[1..], Apply(st, rs[0].value));
    }
  }

  /** The last `__all__` line wins. */
  lemma {:induction false} ScanLastModulesWin(rs: seq<LineRead>, st: LegacyState, i: nat)
    requires Scan(rs, st).Ok?
    requires i < |rs| && SetsModules(rs[i])
    requires forall j :: i < j < |rs| ==> !SetsModules(rs[j])
    ensures Scan(rs, st).value.modules == Some(rs[i].value.modules)
    decreases |rs|
  {
    var st1 := Apply(st, rs[0].value);
    assert forall j :: 1 <= j < |rs| ==> rs[j] == rs[1..][j - 1];
    if i == 0 {
      ScanKeepsModules(rs[1..], st1);
    } else {
      ScanLastModulesWin(rs[1..], st1, i - 1);
    }
  }

  /** Without an `__all__` line the module list stays what it was. */
  lemma {:induction false} ScanKeepsModules(rs: seq<LineRead>, st: LegacyState)
    requires Scan(rs, st).Ok?
    requires forall j :: 0 <= j < |rs| ==> !SetsModules(rs[j])
    ensures Scan(rs, st).value.modules == st.modules
    decreases |rs|
  {
    if |rs| > 0 {
      assert !SetsModules(rs[0]);
      ScanKeepsModules(rs[1..], Apply(st, rs[0].value));
    }
  }

  /** The lines of `lines` that contain `=` once stripped. */
  function WithEquals(lines: seq<string>): (r: seq<string>)
    ensures |r| <= |lines|
  {
    if |lines| == 0 then []
    else if '=' in Strip(lines[0], Whitespace) then [lines[0]] + WithEquals(lines[1..])
    else WithEquals(lines[1..])
  }

  /** Lines without `=` have no effect on the scan. */
  lemma {:induction false} ScanIgnoresLinesWithoutEquals(fs: FileSystem, path: Path, lines: seq<string>, st: LegacyState)
    ensures Scan(ReadAll(fs, path, lines), st) == Scan(ReadAll(fs, path, WithEquals(lines)), st)
    decreases |lines|
  {
    if |lines| > 0 {
      var rs := ReadAll(fs, path, lines);
      assert rs[1..] == ReadAll(fs, path, lines[1..]);
      var w := WithEquals(lines);
      if '=' in Strip(lines[0], Whitespace) {
        var wrs := ReadAll(fs, path, w);
        assert w == [lines[0]] + WithEquals(lines[1..]);
        assert wrs[0] == rs[0];
        assert wrs[1..] == ReadAll(fs, path, WithEquals(lines[1..]));
        match rs[0]
        case Err(e) =>
        case Ok(u) => ScanIgnoresLinesWithoutEquals(fs, path, lines[1..], Apply(st, u));
      } else {
        assert rs[0] == Ok(Keep);
        ScanIgnoresLinesWithoutEquals(fs, path, lines[1..], st);
      }
    }
  }

  /** The first listed module that is not a directory. */
  function FirstMissingDir(fs: FileSystem, path: Path, modules: seq<string>): (m: Option<string>)
    ensures m.None? <==> forall k :: 0 <= k < |modules| ==> path + [modules[k]] in fs.dirs
    ensures m.Some? ==> m.value in modules && path + [m.value] !in fs.dirs
  {
    if |modules| == 0 then None
    else if path + [modules[0]] !in fs.dirs then Some(modules[0])
    else FirstMissingDir(fs, path, modules[1..])
  }

  /** What `set_facts_legacy` does once the loop has finished. */
  function LegacyFacts(fs: FileSystem, path: Path, scan: Result<LegacyState, MetadataError>): (r: Facts)
    ensures r.Found? ==> scan.Ok? && scan.value.name == Some(r.name) && scan.value.modules == Some(r.modules)
  {
    match scan
    case Err(e) => Invalid(e)
    case Ok(st) =>
      if st.name.None? then Invalid(MissingName)
      else if st.modules.None? then Invalid(MissingModulesList)
      else
        match FirstMissingDir(fs, path, st.modules.value)
        case Some(m) => Invalid(InvalidModuleLink(m))
        case None => Found(st.name.value, st.modules.value)
  }

  /** `Repository.set_facts_legacy`. */
  function SetFactsLegacy(fs: FileSystem, path: Path): (r: Facts)
    ensures r.Unnamed? <==> path + ["__init__.py"] !in fs.files
    ensures r.Found? ==> IsName(r.name) && ModulesOk(fs, path, r.modules)
  {
    var init := path + ["__init__.py"];
    if init !in fs.files then Unnamed
    else
      var rs := ReadAll(fs, path, fs.files[init]);
      var scan := Scan(rs, LegacyStart);
      if scan.Ok? then
        ReadAllValid(fs, path, fs.files[init]);
        ScanValid(fs, path, rs, LegacyStart);
        LegacyFacts(fs, path, scan)
      else LegacyFacts(fs, path, scan)
  }

  /** With `__init__.py` present, the legacy facts are the loop's result
      put through the final checks. */
  lemma SetFactsLegacyIsScan(fs: FileSystem, path: Path)
    requires path + ["__init__.py"] in fs.files
    ensures var rs := ReadAll(fs, path, fs.files[path + ["__init__.py"]]);
            && SetFactsLegacy(fs, path) == LegacyFacts(fs, path, Scan(rs, LegacyStart))
            && forall i :: 0 <= i < |rs| ==> UpdateValid(fs, path, rs[i])
  {
    ReadAllValid(fs, path, fs.files[path + ["__init__.py"]]);
  }

  /** A missing name is reported exactly when every line reads cleanly and
      none of them is a `__name__` line. */
  lemma LegacyMissingName(fs: FileSystem, path: Path)
    requires path + ["__init__.py"] in fs.files
    ensures var rs := ReadAll(fs, path, fs.files[path + ["__init__.py"]]);
            SetFactsLegacy(fs, path) == Invalid(MissingName) <==>
              forall i :: 0 <= i < |rs| ==> rs[i].Ok? && !SetsName(rs[i])
  {
    SetFactsLegacyIsScan(fs, path);
    ScanMissingName(fs, path, ReadAll(fs, path, fs.files[path + ["__init__.py"]]));
  }

  lemma ScanMissingName(fs: FileSystem, path: Path, rs: seq<LineRead>)
    requires forall i :: 0 <= i < |rs| ==> UpdateValid(fs, path, rs[i])
    ensures LegacyFacts(fs, path, Scan(rs, LegacyStart)) == Invalid(MissingName) <==>
              forall i :: 0 <= i < |rs| ==> rs[i].Ok? && !SetsName(rs[i])
  {
    var r := Scan(rs, LegacyStart);
    var first := ScanStopsAtFirstError(rs, LegacyStart);
    ScanErrorIsLineError(fs, path, rs, LegacyStart);
    if r.Ok? {
      if forall i :: 0 <= i < |rs| ==> !SetsName(rs[i]) {
        ScanKeepsName(rs, LegacyStart);
      } else {
        var i :| 0 <= i < |rs| && SetsName(rs[i]);
        var last := LastSetsName(rs, i);
        ScanLastNameWins(rs, LegacyStart, last);
      }
    }
  }

  /** The position of the last `__name__` line at or after `i`. */
  lemma {:induction false} LastSetsName(rs: seq<LineRead>, i: nat) returns (last: nat)
    requires i < |rs| && SetsName(rs[i])
    ensures i <= last < |rs| && SetsName(rs[last])
    ensures forall j :: last < j < |rs| ==> !SetsName(rs[j])
    decreases |rs| - i
  {
    if exists j :: i < j < |rs| && SetsName(rs[j]) {
      var j :| i < j < |rs| && SetsName(rs[j]);
      last := LastSetsName(rs, j);
    } else {
      last := i;
    }
  }

  /** A file that names the repository but has no `__all__` line yields an
      empty module list, not an error. */
  lemma LegacyWithoutModuleList(fs: FileSystem, path: Path)
    requires path + ["__init__.py"] in fs.files
    requires var rs := ReadAll(fs, path, fs.files[path + ["__init__.py"]]);
             && (forall i :: 0 <= i < |rs| ==> rs[i].Ok? && !SetsModules(rs[i]))
             && (exists i :: 0 <= i < |rs| && SetsName(rs[i]))
    ensures SetFactsLegacy(fs, path).Found? && SetFactsLegacy(fs, path).modules == []
  {
    SetFactsLegacyIsScan(fs, path);
    ScanWithoutModuleList(fs, path, ReadAll(fs, path, fs.files[path + ["__init__.py"]]));
  }

  lemma ScanWithoutModuleList(fs: FileSystem, path: Path, rs: seq<LineRead>)
    requires forall i :: 0 <= i < |rs| ==> rs[i].Ok? && !SetsModules(rs[i])
    requires exists i :: 0 <= i < |rs| && SetsName(rs[i])
    ensures LegacyFacts(fs, path, Scan(rs, LegacyStart)).Found?
    ensures LegacyFacts(fs, path, Scan(rs, LegacyStart)).modules == []
  {
    var _ := ScanStopsAtFirstError(rs, LegacyStart);
    var i :| 0 <= i < |rs| && SetsName(rs[i]);
    var last := LastSetsName(rs, i);
    ScanLastNameWins(rs, LegacyStart, last);
    ScanKeepsModules(rs, LegacyStart);
  }

  /** The `module_names is None` check never fires: the list starts as `[]`
      and is only ever replaced by another list. */
  lemma LegacyModuleListCheckIsDead(fs: FileSystem, path: Path)
    ensures SetFactsLegacy(fs, path) != Invalid(MissingModulesList)
  {
    var init := path + ["__init__.py"];
    if init in fs.files {
      SetFactsLegacyIsScan(fs, path);
      var rs := ReadAll(fs, path, fs.files[init]);
      ScanErrorIsLineError(fs, path, rs, LegacyStart);
      ScanModulesNeverMissing(fs, path, Scan(rs, LegacyStart));
    }
  }

  lemma ScanModulesNeverMissing(fs: FileSystem, path: Path, scan: Result<LegacyState, MetadataError>)
    requires scan.Ok? ==> scan.value.modules.Some?
    requires scan.Err? ==> LineError(scan.error)
    ensures LegacyFacts(fs, path, scan) != Invalid(MissingModulesList)
  {
  }

  /** On a consistent filesystem the `is_dir` check never fires either:
      every listed module already has an `__init__.py` inside it. */
  lemma LegacyLinkCheckIsDead(fs: FileSystem, path: Path, m: string)
    requires Consistent(fs)
    ensures SetFactsLegacy(fs, path) != Invalid(InvalidModuleLink(m))
  {
    var init := path + ["__init__.py"];
    if init in fs.files {
      SetFactsLegacyIsScan(fs, path);
      var rs := ReadAll(fs, path, fs.files[init]);
      var r := Scan(rs, LegacyStart);
      ScanErrorIsLineError(fs, path, rs, LegacyStart);
      if r.Ok? {
        ScanValid(fs, path, rs, LegacyStart);
        if r.value.modules.Some? {
          NoMissingDir(fs, path, r.value.modules.value);
        }
      }
    }
  }

  lemma NoMissingDir(fs: FileSystem, path: Path, ms: seq<string>)
    requires Consistent(fs)
    requires ModulesOk(fs, path, ms)
    ensures FirstMissingDir(fs, path, ms).None?
  {
    forall k | 0 <= k < |ms| ensures path + [ms[k]] in fs.dirs {
      var f := path + [ms[k], "__init__.py"];
      assert f in fs.files;
      assert f[..|path| + 1] == path + [ms[k]];
    }
  }
}
