/**
 * Command discovery and registration: the `npm -l` listing is parsed into
 * command names, each name is folded into a method identifier, and the
 * names are recorded in the command registry (`NPM.commands`) while a
 * method per identifier is registered on the shared prototype.
 */
module Discovery {
  import opened Text

  // ---------------------------------------------------------------------------
  // Parsing the listing
  // ---------------------------------------------------------------------------

  /** The characters the listing is split on: the class `[\n|\r]`, which includes `|`. */
  const LineBreaks: set<char> := {'\n', '|', '\r'}

  /** A character of the class `[\w|\-]`. */
  predicate IsNameChar(c: char) {
    IsWordChar(c) || c == '|' || c == '-'
  }

  lemma NameCharIsNotSpace(c: char)
    requires IsNameChar(c)
    ensures !IsSpace(c)
  {
  }

  /** The length of the longest prefix of `s` made of name characters. */
  function NameRun(s: string): (n: nat)
    ensures n <= |s|
    ensures forall i :: 0 <= i < n ==> IsNameChar(s[i])
    ensures n < |s| ==> !IsNameChar(s[n])
  {
    if s != [] && IsNameChar(s[0]) then 1 + NameRun(s[1..]) else 0
  }

  /**
   * What `/^\s{4}([\w|\-]+)\s/.exec(line)[0]` yields, or `''` when there is no
   * match. Name characters are never whitespace, so the greedy run cannot give
   * back characters to let `\s` match: the run is the longest one.
   */
  function WholeMatch(line: string): (m: string)
    ensures m != [] <==> exists name :: Listed(line, name)
    ensures m != [] ==> 5 < |m| <= |line| && m == line[..|m|] && AllSpace(m[..4]) && IsSpace(m[|m| - 1])
  {
    MatchesIffListed(line);
    if |line| >= 4 && AllSpace(line[..4]) then
      var n := NameRun(line[4..]);
      if n >= 1 && 4 + n < |line| && IsSpace(line[4 + n]) then line[..4 + n + 1] else ""
    else ""
  }

  /**
   * The per-line step of the pipeline: the trimmed whole match, or `''`. A
   * line yields a name exactly when it lists one, and then it yields that
   * name; a line that lists nothing yields `''`.
   */
  function ParseLine(line: string): (r: string)
    ensures r != [] ==> Listed(line, r)
    ensures forall name :: Listed(line, name) ==> r == name
  {
    TrimmedMatch(line);
    Trim(WholeMatch(line))
  }

  /**
   * The declarative reading of the pattern: `line` lists `name` when it starts
   * with four whitespace characters, then `name` (a non-empty run of name
   * characters), then a whitespace character.
   */
  predicate Listed(line: string, name: string) {
    && 4 + |name| < |line|
    && AllSpace(line[..4])
    && name != []
    && (forall i :: 0 <= i < |name| ==> IsNameChar(name[i]))
    && line[4..4 + |name|] == name
    && IsSpace(line[4 + |name|])
  }

  /** `lines.map(ParseLine)`. */
  function ParseLines(lines: seq<string>): seq<string> {
    Map(ParseLine, lines)
  }

  /** `.filter(Boolean)` on strings: the non-empty ones, in order. */
  function KeepNonEmpty(xs: seq<string>): (r: seq<string>)
    ensures |r| <= |xs|
    ensures forall x :: x in r ==> x != [] && x in xs
    ensures forall i :: 0 <= i < |xs| && xs[i] != [] ==> xs[i] in r
  {
    if xs == [] then []
    else (if xs[0] != [] then [xs[0]] else []) + KeepNonEmpty(xs[1..])
  }

  /**
   * The discovered command names: split, match each line, trim, drop the
   * empty ones. Every discovered name is non-empty, made of `[\w|\-]`
   * characters, and contains none of `\n`, `|`, `\r`, since those split the
   * listing into lines.
   */
  function Discover(listing: string): (r: seq<string>)
    ensures forall x :: x in r ==> WellFormedName(x)
  {
    NamesFromLines(Split(listing, LineBreaks));
    KeepNonEmpty(ParseLines(Split(listing, LineBreaks)))
  }

  /** The pattern matches when the line has the indent, a run of name characters, and a space after it. */
  predicate Matches(line: string) {
    |line| > 4 && AllSpace(line[..4]) && 1 <= NameRun(line[4..]) && 4 + NameRun(line[4..]) < |line|
    && IsSpace(line[4 + NameRun(line[4..])])
  }

  /** On a matching line, the run after the four leading spaces is a listed name, and the trimmed match is that name. */
  lemma MatchedName(line: string)
    requires Matches(line)
    ensures var name := line[4..4 + NameRun(line[4..])];
      Listed(line, name) && Trim(WholeMatch(line)) == name
  {
    var name := line[4..4 + NameRun(line[4..])];
    assert WholeMatch(line) == line[..4 + |name| + 1];
    RunListed(line);
    PaddedName(line, name);
  }

  /** On a matching line, the run after the four leading spaces is a listed name. */
  lemma RunListed(line: string)
    requires Matches(line)
    ensures Listed(line, line[4..4 + NameRun(line[4..])])
  {
    var name := line[4..4 + NameRun(line[4..])];
    assert forall i :: 0 <= i < |name| ==> IsNameChar(name[i]) by {
      forall i | 0 <= i < |name| ensures IsNameChar(name[i]) {
        assert name[i] == line[4..][i];
      }
    }
  }

  /** The pattern matches exactly the lines that list some name. */
  lemma MatchesIffListed(line: string)
    ensures Matches(line) <==> exists name :: Listed(line, name)
  {
    if Matches(line) {
      RunListed(line);
    }
    forall name | Listed(line, name) ensures Matches(line) {
      ListedMatches(line, name);
    }
  }

  /** The run ends at the first character that is not a name character. */
  lemma {:induction false} NameRunStops(s: string, m: nat)
    requires m < |s| && !IsNameChar(s[m])
    requires forall i :: 0 <= i < m ==> IsNameChar(s[i])
    ensures NameRun(s) == m
  {
    if m > 0 {
      assert forall i :: 0 <= i < m - 1 ==> s[1..][i] == s[i + 1];
      NameRunStops(s[1..], m - 1);
    }
  }

  /** A line that lists `name` matches the pattern, with `name` as its run. */
  lemma ListedMatches(line: string, name: string)
    requires Listed(line, name)
    ensures Matches(line) && name == line[4..4 + NameRun(line[4..])]
  {
    var m := |name|;
    var tail := line[4..];
    assert forall i :: 0 <= i < m ==> tail[i] == name[i];
    assert tail[m] == line[4 + m];
    NameRunStops(tail, m);
  }

  /** Trimming a four-space indent, a name and one space leaves the name. */
  lemma PaddedName(line: string, name: string)
    requires 4 + |name| < |line| && name != [] && line[4..4 + |name|] == name
    requires AllSpace(line[..4]) && IsSpace(line[4 + |name|])
    requires forall i :: 0 <= i < |name| ==> IsNameChar(name[i])
    ensures Trim(line[..4 + |name| + 1]) == name
  {
    var m := |name|;
    var indent, gap := line[..4], [line[4 + m]];
    SliceAround(line, 4, 4 + m);
    NameCharIsNotSpace(name[0]);
    NameCharIsNotSpace(name[m - 1]);
    assert AllSpace(gap);
    TrimOfPadded(indent, name, gap);
  }

  lemma SliceAround(s: string, i: nat, j: nat)
    requires i <= j < |s|
    ensures s[..j + 1] == s[..i] + s[i..j] + [s[j]]
  {
  }

  /** The trimmed whole match is the name the line lists, or `''` when it lists none. */
  lemma TrimmedMatch(line: string)
    ensures var r := Trim(WholeMatch(line));
      (r != [] ==> Listed(line, r)) && forall name :: Listed(line, name) ==> r == name
  {
    if Matches(line) {
      MatchedName(line);
    } else {
      MatchesIffListed(line);
      assert AllSpace(WholeMatch(line));
    }
    forall name | Listed(line, name) ensures Trim(WholeMatch(line)) == name {
      ListedMatches(line, name);
      MatchedName(line);
    }
  }

  lemma ParseLinesConcat(a: seq<string>, b: seq<string>)
    ensures ParseLines(a + b) == ParseLines(a) + ParseLines(b)
  {
    MapConcat(ParseLine, a, b);
  }

  lemma {:induction false} KeepNonEmptyConcat(a: seq<string>, b: seq<string>)
    ensures KeepNonEmpty(a + b) == KeepNonEmpty(a) + KeepNonEmpty(b)
  {
    if a == [] {
      assert a + b == b;
    } else {
      assert (a + b)[0] == a[0] && (a + b)[1..] == a[1..] + b;
      KeepNonEmptyConcat(a[1..], b);
    }
  }

  /** A single string is kept exactly when it is non-empty. */
  lemma KeepNonEmptySingle(x: string)
    ensures KeepNonEmpty([x]) == if x == [] then [] else [x]
  {
    assert [x][1..] == [];
  }

  /**
   * Discovery works line by line: the names of two listings joined by a line
   * break are the names of the first followed by those of the second, in
   * order and without removing duplicates.
   */
  lemma DiscoverConcat(a: string, c: char, b: string)
    requires c in LineBreaks
    ensures Discover(a + [c] + b) == Discover(a) + Discover(b)
  {
    SplitAt(a, c, b, LineBreaks);
    ParseLinesConcat(Split(a, LineBreaks), Split(b, LineBreaks));
    KeepNonEmptyConcat(ParseLines(Split(a, LineBreaks)), ParseLines(Split(b, LineBreaks)));
  }

  /** A single line (no break characters) contributes its listed name, or nothing. */
  lemma DiscoverLine(line: string)
    requires NoneOf(line, LineBreaks)
    ensures ParseLine(line) != [] ==> Discover(line) == [ParseLine(line)] && Listed(line, ParseLine(line))
    ensures ParseLine(line) == [] ==> Discover(line) == [] && forall name :: !Listed(line, name)
  {
    SplitNone(line, LineBreaks);
    assert ParseLines([line]) == [ParseLine(line)];
  }

  /** A command name as discovery produces it: non-empty, of `[\w|\-]` characters, free of line breaks. */
  predicate WellFormedName(name: string) {
    name != [] && (forall i :: 0 <= i < |name| ==> IsNameChar(name[i])) && NoneOf(name, LineBreaks)
  }

  lemma {:induction false} NamesFromLines(lines: seq<string>)
    requires forall k :: 0 <= k < |lines| ==> NoneOf(lines[k], LineBreaks)
    ensures forall x :: x in KeepNonEmpty(ParseLines(lines)) ==> WellFormedName(x)
  {
    if lines != [] {
      var parsed := ParseLines(lines);
      assert parsed[0] == ParseLine(lines[0]);
      assert parsed[1..] == ParseLines(lines[1..]);
      NamesFromLines(lines[1..]);
      LineNameWellFormed(lines[0]);
    }
  }

  /** The name a single line yields is well formed. */
  lemma LineNameWellFormed(line: string)
    requires NoneOf(line, LineBreaks)
    ensures ParseLine(line) != [] ==> WellFormedName(ParseLine(line))
  {
    var name := ParseLine(line);
    if name != [] {
      assert NoneOf(name, LineBreaks) by {
        forall i | 0 <= i < |name| ensures name[i] !in LineBreaks {
          assert name[i] == line[4 + i];
        }
      }
    }
  }

  lemma IndentedLineShape(indent: string, name: string, gap: char, desc: string)
    requires |indent| == 4 && AllSpace(indent) && NoneOf(indent, LineBreaks)
    requires WellFormedName(name) && IsSpace(gap) && gap !in LineBreaks && NoneOf(desc, LineBreaks)
    ensures Listed(indent + name + [gap] + desc, name)
    ensures NoneOf(indent + name + [gap] + desc, LineBreaks)
  {
    var line := indent + name + [gap] + desc;
    assert line[..4] == indent && line[4..4 + |name|] == name && line[4 + |name|] == gap;
    forall i | 0 <= i < |line| ensures line[i] !in LineBreaks {
      if i < 4 { assert line[i] == indent[i]; }
      else if i < 4 + |name| { assert line[i] == name[i - 4]; }
      else if i > 4 + |name| { assert line[i] == desc[i - 5 - |name|]; }
    }
  }

  /** A line of four whitespace characters, a name, a whitespace character and any description lists that name. */
  lemma IndentedLineListed(indent: string, name: string, gap: char, desc: string)
    requires |indent| == 4 && AllSpace(indent) && NoneOf(indent, LineBreaks)
    requires WellFormedName(name) && IsSpace(gap) && gap !in LineBreaks && NoneOf(desc, LineBreaks)
    ensures Discover(indent + name + [gap] + desc) == [name]
  {
    var line := indent + name + [gap] + desc;
    IndentedLineShape(indent, name, gap, desc);
    DiscoverLine(line);
  }

  lemma ShallowNotListed(indent: string, rest: string, name: string)
    requires |indent| < 4 && rest != [] && !IsSpace(rest[0])
    ensures !Listed(indent + rest, name)
  {
    var line := indent + rest;
    if |line| > 4 {
      assert line[..4][|indent|] == rest[0];
    }
  }

  /** A line indented by fewer than four whitespace characters lists nothing. */
  lemma ShallowLineSkipped(indent: string, rest: string)
    requires |indent| < 4 && NoneOf(indent + rest, LineBreaks)
    requires rest != [] && !IsSpace(rest[0])
    ensures Discover(indent + rest) == []
  {
    DiscoverLine(indent + rest);
    ShallowNotListed(indent, rest, ParseLine(indent + rest));
  }

  /**
   * A command line indented by four spaces, a line break, then a line
   * indented by two spaces: only the first command is discovered.
   */
  lemma ListingExample(indent: string, name: string, desc: string, shallow: string, other: string)
    requires |indent| == 4 && AllSpace(indent) && NoneOf(indent, LineBreaks)
    requires |shallow| == 2 && AllSpace(shallow) && NoneOf(shallow, LineBreaks)
    requires WellFormedName(name) && NoneOf(desc, LineBreaks)
    requires NoneOf(other, LineBreaks) && other != [] && !IsSpace(other[0])
    ensures Discover((indent + name + [' '] + desc) + ['\n'] + (shallow + other)) == [name]
  {
    IndentedLineListed(indent, name, ' ', desc);
    NoneOfConcat(shallow, other, LineBreaks);
    ShallowLineSkipped(shallow, other);
    NameThenNothing(indent + name + [' '] + desc, shallow + other, name);
  }

  lemma NameThenNothing(a: string, b: string, name: string)
    requires Discover(a) == [name] && Discover(b) == []
    ensures Discover(a + ['\n'] + b) == [name]
  {
    DiscoverConcat(a, '\n', b);
  }

  // ---------------------------------------------------------------------------
  // Folding a command name into a method identifier
  // ---------------------------------------------------------------------------

  /**
   * The method identifier of a command name, read left to right: each hyphen
   * is removed and the character after it upper-cased; a hyphen directly after
   * a hyphen is itself removed in turn, and a trailing hyphen disappears.
   */
  function MethodIdentifier(name: string): (id: string)
    ensures '-' !in id
    decreases |name|
  {
    if name == [] then []
    else if name[0] != '-' then [name[0]] + MethodIdentifier(name[1..])
    else if |name| == 1 then []
    else if name[1] == '-' then MethodIdentifier(name[1..])
    else [Upper(name[1])] + MethodIdentifier(name[2..])
  }

  /** A hyphen-free prefix passes through unchanged. */
  lemma {:induction false} IdentifierOfPlainPrefix(a: string, b: string)
    requires '-' !in a
    ensures MethodIdentifier(a + b) == a + MethodIdentifier(b)
  {
    if a != [] {
      assert (a + b)[0] == a[0] && (a + b)[1..] == a[1..] + b;
      IdentifierOfPlainPrefix(a[1..], b);
    } else {
      assert a + b == b;
    }
  }

  /** A name without hyphens is its own method identifier. */
  lemma IdentifierOfPlain(name: string)
    requires '-' !in name
    ensures MethodIdentifier(name) == name
  {
    IdentifierOfPlainPrefix(name, []);
    assert name + [] == name;
  }

  /** Folding removes exactly the hyphens: the identifier is shorter by their number. */
  lemma {:induction false} IdentifierLength(name: string)
    ensures |MethodIdentifier(name)| == |name| - Count(name, '-')
    decreases |name|
  {
    if name == [] {
    } else if name[0] != '-' {
      IdentifierLength(name[1..]);
    } else if |name| == 1 {
    } else if name[1] == '-' {
      IdentifierLength(name[1..]);
    } else {
      IdentifierLength(name[2..]);
      assert name[1..][0] == name[1] && name[1..][1..] == name[2..];
    }
  }

  /** The character after a removed hyphen is upper-cased, and the rest is folded on its own. */
  lemma IdentifierUppercasesAfterHyphen(a: string, c: char, b: string)
    requires '-' !in a && c != '-'
    ensures MethodIdentifier(a + ['-', c] + b) == a + [Upper(c)] + MethodIdentifier(b)
  {
    IdentifierOfPlainPrefix(a, ['-', c] + b);
    assert a + ['-', c] + b == a + (['-', c] + b);
    assert (['-', c] + b)[2..] == b;
  }

  /** Folding is idempotent. */
  lemma IdentifierIdempotent(name: string)
    ensures MethodIdentifier(MethodIdentifier(name)) == MethodIdentifier(name)
  {
    IdentifierOfPlain(MethodIdentifier(name));
  }

  /** `dist-tag` becomes `distTag`. */
  lemma DistTagExample()
    ensures MethodIdentifier("dist-tag") == "distTag"
  {
    var pre, rest := "dist", "ag";
    assert "dist-tag" == pre + ['-', 't'] + rest;
    IdentifierUppercasesAfterHyphen(pre, 't', rest);
    IdentifierOfPlain(rest);
    assert pre + [Upper('t')] + rest == "distTag";
  }

  /**
   * One round of the folding loop does not change the method identifier: for
   * `name == pre + "-" + rest` with `pre` hyphen-free, the round yields
   * `pre`, then the first character of `rest` upper-cased, then the remainder.
   */
  lemma FoldStep(pre: string, rest: string)
    requires '-' !in pre
    ensures MethodIdentifier(pre + UpperString(rest[..if rest == [] then 0 else 1]) + rest[if rest == [] then 0 else 1..])
         == MethodIdentifier(pre + ['-'] + rest)
  {
    if rest == [] {
      FoldStepAtEnd(pre);
    } else if rest[0] == '-' {
      FoldStepHyphen(pre, rest[1..]);
      assert rest == ['-'] + rest[1..];
    } else {
      FoldStepLetter(pre, rest[0], rest[1..]);
      assert rest == [rest[0]] + rest[1..];
    }
  }

  /** A trailing hyphen is dropped. */
  lemma FoldStepAtEnd(pre: string)
    requires '-' !in pre
    ensures MethodIdentifier(pre + UpperString([]) + []) == MethodIdentifier(pre + ['-'] + [])
  {
    assert pre + UpperString([]) + [] == pre + [];
    IdentifierOfPlainPrefix(pre, []);
    IdentifierOfPlainPrefix(pre, ['-']);
    assert pre + ['-'] + [] == pre + ['-'];
  }

  /** A hyphen after the hyphen stays, to be removed by the next round. */
  lemma FoldStepHyphen(pre: string, r: string)
    requires '-' !in pre
    ensures MethodIdentifier(pre + UpperString(['-']) + r) == MethodIdentifier(pre + ['-'] + (['-'] + r))
  {
    assert UpperString(['-']) == ['-'];
    assert pre + ['-'] + (['-'] + r) == pre + (['-', '-'] + r);
    assert pre + ['-'] + r == pre + (['-'] + r);
    IdentifierOfPlainPrefix(pre, ['-', '-'] + r);
    IdentifierOfPlainPrefix(pre, ['-'] + r);
    HyphenHyphen(r);
  }

  /** Any other character after the hyphen is upper-cased in its place. */
  lemma FoldStepLetter(pre: string, c: char, r: string)
    requires '-' !in pre && c != '-'
    ensures MethodIdentifier(pre + UpperString([c]) + r) == MethodIdentifier(pre + ['-'] + ([c] + r))
  {
    assert UpperString([c]) == [Upper(c)];
    assert pre + ['-'] + ([c] + r) == pre + ['-', c] + r;
    IdentifierUppercasesAfterHyphen(pre, c, r);
    assert '-' !in pre + [Upper(c)];
    IdentifierOfPlainPrefix(pre + [Upper(c)], r);
  }

  lemma HyphenHyphen(r: string)
    ensures MethodIdentifier(['-', '-'] + r) == MethodIdentifier(['-'] + r)
  {
    assert (['-', '-'] + r)[1..] == ['-'] + r;
  }

  /** The round the loop body performs on the first hyphen, at `index`, keeps the identifier and shortens the name. */
  lemma FoldRound(name: string, index: int)
    requires index == IndexOf(name, '-') && index != -1
    ensures var next := name[..index] + UpperString(Slice(name, index + 1, index + 2)) + Slice(name, index + 2, |name| + 2);
      MethodIdentifier(next) == MethodIdentifier(name) && |next| == |name| - 1
  {
    var rest := name[index + 1..];
    assert name == name[..index] + ['-'] + rest;
    FoldSlices(name, index);
    FoldStep(name[..index], rest);
  }

  /** The two slices of the loop body, in terms of the text after the hyphen. */
  lemma FoldSlices(name: string, index: nat)
    requires index < |name|
    ensures var rest := name[index + 1..]; var k := if rest == [] then 0 else 1;
      Slice(name, index + 1, index + 2) == rest[..k] && Slice(name, index + 2, |name| + 2) == rest[k..]
  {
  }

  /**
   * The folding loop: while a hyphen is left, splice out the first one and
   * upper-case the character after it. Each round shortens the name by one.
   */
  method FoldMethodName(cmd: string) returns (name: string)
    ensures name == MethodIdentifier(cmd)
    ensures '-' !in name
    ensures |name| == |cmd| - Count(cmd, '-')
  {
    name := cmd;
    var index := IndexOf(name, '-');
    IdentifierLength(cmd);
    while index != -1
      invariant index == IndexOf(name, '-')
      invariant MethodIdentifier(name) == MethodIdentifier(cmd)
      decreases |name|
    {
      var next := name[..index] + UpperString(Slice(name, index + 1, index + 2)) + Slice(name, index + 2, |name| + 2);
      FoldRound(name, index);
      name := next;
      index := IndexOf(name, '-');
    }
    IdentifierOfPlain(name);
  }

  // ---------------------------------------------------------------------------
  // Registration
  // ---------------------------------------------------------------------------

  /**
   * The method table after registering `names` in order on top of `table`:
   * each name is stored under its method identifier, so a later name with
   * the same identifier replaces an earlier one. Every name gets bound and
   * no identifier bound before is lost.
   */
  function Register(table: map<string, string>, names: seq<string>): (r: map<string, string>)
    ensures table.Keys <= r.Keys
    ensures forall j :: 0 <= j < |names| ==> MethodIdentifier(names[j]) in r
    decreases |names|
  {
    if names == [] then table
    else
      var last := names[|names| - 1];
      var init := names[..|names| - 1];
      assert names == init + [last];
      Register(table, init)[MethodIdentifier(last) := last]
  }

  /** An identifier is bound after registration exactly when it was bound before or some name folds to it. */
  lemma {:induction false} RegisterBinds(table: map<string, string>, names: seq<string>, id: string)
    ensures id in Register(table, names) <==>
      id in table || exists j :: 0 <= j < |names| && MethodIdentifier(names[j]) == id
    decreases |names|
  {
    if names != [] {
      var n := |names| - 1;
      var init := names[..n];
      RegisterBinds(table, init, id);
      assert Register(table, names) == Register(table, init)[MethodIdentifier(names[n]) := names[n]];
      if MethodIdentifier(names[n]) != id {
        FoldsToInPrefix(names, init, id);
      }
    }
  }

  /** When the last name does not fold to `id`, some name folds to it exactly when some earlier one does. */
  lemma FoldsToInPrefix(names: seq<string>, init: seq<string>, id: string)
    requires names != [] && init == names[..|names| - 1] && MethodIdentifier(names[|names| - 1]) != id
    ensures (exists j :: 0 <= j < |names| && MethodIdentifier(names[j]) == id) <==>
      (exists j :: 0 <= j < |init| && MethodIdentifier(init[j]) == id)
  {
    assert forall j :: 0 <= j < |init| ==> init[j] == names[j];
  }

  /** An identifier no name folds to keeps its old binding. */
  lemma {:induction false} RegisterKeeps(table: map<string, string>, names: seq<string>, id: string)
    requires id in table
    requires forall j :: 0 <= j < |names| ==> MethodIdentifier(names[j]) != id
    ensures id in Register(table, names) && Register(table, names)[id] == table[id]
    decreases |names|
  {
    if names != [] {
      var n := |names| - 1;
      var init := names[..n];
      assert forall j :: 0 <= j < |init| ==> init[j] == names[j];
      RegisterKeeps(table, init, id);
    }
  }

  /** The last name that folds to an identifier is the one bound to it. */
  lemma {:induction false} RegisterLastWins(table: map<string, string>, names: seq<string>, j: nat)
    requires j < |names|
    requires forall l :: j < l < |names| ==> MethodIdentifier(names[l]) != MethodIdentifier(names[j])
    ensures MethodIdentifier(names[j]) in Register(table, names)
    ensures Register(table, names)[MethodIdentifier(names[j])] == names[j]
    decreases |names|
  {
    var n := |names| - 1;
    if j < n {
      var init := names[..n];
      assert forall l :: j < l < |init| ==> init[l] == names[l];
      assert init[j] == names[j];
      RegisterLastWins(table, init, j);
      assert Register(table, names) == Register(table, init)[MethodIdentifier(names[n]) := names[n]];
    }
  }

  /**
   * Looking up an identifier after registration: it is bound exactly when it
   * was bound before or some name folds to it; the last such name wins, and
   * an identifier no name folds to keeps its old binding.
   */
  lemma RegisterLookup(table: map<string, string>, names: seq<string>, id: string)
    ensures id in Register(table, names) <==>
      id in table || exists j :: 0 <= j < |names| && MethodIdentifier(names[j]) == id
    ensures (forall j :: 0 <= j < |names| ==> MethodIdentifier(names[j]) != id) && id in table ==>
      Register(table, names)[id] == table[id]
    ensures forall j :: (0 <= j < |names| && MethodIdentifier(names[j]) == id &&
      (forall l :: j < l < |names| ==> MethodIdentifier(names[l]) != id)) ==> Register(table, names)[id] == names[j]
  {
    RegisterBinds(table, names, id);
    if (forall j :: 0 <= j < |names| ==> MethodIdentifier(names[j]) != id) && id in table {
      RegisterKeeps(table, names, id);
    }
    forall j | 0 <= j < |names| && MethodIdentifier(names[j]) == id &&
      (forall l :: j < l < |names| ==> MethodIdentifier(names[l]) != id)
      ensures Register(table, names)[id] == names[j]
    {
      RegisterLastWins(table, names, j);
    }
  }

  /**
   * The static state shared by every instance (the `NPM` function object): the
   * binary location, the ordered command registry `NPM.commands`, and the
   * method table standing for the methods defined on the prototype, keyed by
   * method identifier and naming the command each one runs.
   */
  class Registry {
    var binary: string
    var commands: seq<string>
    var methods: map<string, string>

    /** Module initialisation: the binary is located, the registry starts empty and the listing is registered. */
    constructor (binary: string, listing: string)
      ensures this.binary == binary
      ensures commands == Discover(listing)
      ensures methods == Register(map[], Discover(listing))
    {
      this.binary := binary;
      commands := [];
      methods := map[];
      new;
      RegisterAll(Discover(listing));
    }

    /**
     * The `forEach` over the discovered names: fold each name, register a
     * method under the identifier, and push the name onto the registry.
     */
    method RegisterAll(names: seq<string>)
      modifies this
      ensures binary == old(binary)
      ensures commands == old(commands) + names
      ensures methods == Register(old(methods), names)
    {
      for i := 0 to |names|
        invariant binary == old(binary)
        invariant commands == old(commands) + names[..i]
        invariant methods == Register(old(methods), names[..i])
      {
        var id := FoldMethodName(names[i]);
        assert names[..i + 1][..i] == names[..i];
        methods := methods[id := names[i]];
        commands := commands + [names[i]];
      }
      assert names[..|names|] == names;
    }
  }
}
