/**
 * Node's `path.join` on POSIX, which `cd` uses: the non-empty arguments are
 * joined with `/`, and the result is normalised by resolving its segments on
 * a stack (`''` and `.` are dropped, `..` removes the segment before it).
 */
module Paths {
  import opened Text

  const Slash: set<char> := {'/'}

  /** A segment that normalisation keeps as it is. */
  predicate Plain(seg: string) {
    seg != "" && seg != "." && seg != ".." && NoneOf(seg, Slash)
  }

  predicate AllPlain(st: seq<string>) {
    forall i :: 0 <= i < |st| ==> Plain(st[i])
  }

  /**
   * One segment of `normalizeString`: `''` and `.` change nothing; `..` pops
   * the last segment unless it is itself `..`, and otherwise is kept only
   * when the path may climb above its start (relative paths).
   */
  function Step(stack: seq<string>, seg: string, allowAboveRoot: bool): seq<string> {
    if seg == "" || seg == "." then stack
    else if seg == ".." then
      if stack != [] && stack[|stack| - 1] != ".." then stack[..|stack| - 1]
      else if allowAboveRoot then stack + [".."]
      else stack
    else stack + [seg]
  }

  /** The segments `segs` resolved, left to right, on top of `stack`. */
  function Resolve(stack: seq<string>, segs: seq<string>, allowAboveRoot: bool): seq<string>
    decreases |segs|
  {
    if segs == [] then stack else Resolve(Step(stack, segs[0], allowAboveRoot), segs[1..], allowAboveRoot)
  }

  /** The segments of a stack written out with `/` between them. */
  function JoinSegments(st: seq<string>): string
    decreases |st|
  {
    if st == [] then ""
    else if |st| == 1 then st[0]
    else JoinSegments(st[..|st| - 1]) + "/" + st[|st| - 1]
  }

  /** The canonical absolute path of a stack of segments; `/` for the empty stack. */
  function Absolute(st: seq<string>): string {
    "/" + JoinSegments(st)
  }

  /**
   * `path.posix.normalize(p)`: never empty (`.` stands for the current
   * directory), an absolute path stays absolute, and a trailing slash is kept.
   */
  function Normalize(p: string): (r: string)
    ensures r != ""
    ensures p != "" && p[0] == '/' ==> r[0] == '/'
    ensures p != "" && p[|p| - 1] == '/' ==> r[|r| - 1] == '/'
  {
    if p == "" then "."
    else
      var absolute := p[0] == '/';
      var trailing := p[|p| - 1] == '/';
      var body := JoinSegments(Resolve([], Split(p, Slash), !absolute));
      if body == "" then (if absolute then "/" else if trailing then "./" else ".")
      else (if absolute then "/" else "") + body + (if trailing then "/" else "")
  }

  /** `path.posix.join(base, dir)`: an absolute base stays absolute whatever `dir` is. */
  function Join(base: string, dir: string): (r: string)
    ensures base != "" && base[0] == '/' ==> r != "" && r[0] == '/'
  {
    var joined := if base == "" then dir else if dir == "" then base else base + "/" + dir;
    if joined == "" then "." else Normalize(joined)
  }

  // ---------------------------------------------------------------------------
  // Lemmas
  // ---------------------------------------------------------------------------

  lemma {:induction false} ResolveConcat(stack: seq<string>, a: seq<string>, b: seq<string>, allow: bool)
    ensures Resolve(stack, a + b, allow) == Resolve(Resolve(stack, a, allow), b, allow)
    decreases |a|
  {
    if a != [] {
      assert (a + b)[0] == a[0] && (a + b)[1..] == a[1..] + b;
      ResolveConcat(Step(stack, a[0], allow), a[1..], b, allow);
    } else {
      assert a + b == b;
    }
  }

  /** Plain segments are pushed as they are. */
  lemma {:induction false} ResolvePlain(stack: seq<string>, segs: seq<string>, allow: bool)
    requires AllPlain(segs)
    ensures Resolve(stack, segs, allow) == stack + segs
    decreases |segs|
  {
    if segs != [] {
      ResolvePlain(stack + [segs[0]], segs[1..], allow);
      assert stack + [segs[0]] + segs[1..] == stack + segs;
    }
  }

  /** Resolving an absolute path leaves only plain segments: no `''`, `.` or `..` survives. */
  lemma {:induction false} ResolveKeepsPlain(stack: seq<string>, segs: seq<string>)
    requires AllPlain(stack)
    requires forall k :: 0 <= k < |segs| ==> NoneOf(segs[k], Slash)
    ensures AllPlain(Resolve(stack, segs, false))
    decreases |segs|
  {
    if segs != [] {
      var next := Step(stack, segs[0], false);
      assert AllPlain(next);
      ResolveKeepsPlain(next, segs[1..]);
    }
  }

  lemma {:induction false} JoinSegmentsNonEmpty(st: seq<string>)
    requires AllPlain(st) && st != []
    ensures JoinSegments(st) != ""
    decreases |st|
  {
    if |st| > 1 {
      JoinSegmentsNonEmpty(st[..|st| - 1]);
    }
  }

  /** Splitting the written-out segments at `/` gives the segments back. */
  lemma {:induction false} SplitJoinSegments(st: seq<string>)
    requires AllPlain(st) && st != []
    ensures Split(JoinSegments(st), Slash) == st
    decreases |st|
  {
    if |st| == 1 {
      SplitNone(st[0], Slash);
    } else {
      var init, last := st[..|st| - 1], st[|st| - 1];
      assert AllPlain(init) by {
        forall i | 0 <= i < |init| ensures Plain(init[i]) { assert init[i] == st[i]; }
      }
      SplitJoinSegments(init);
      SplitAt(JoinSegments(init), '/', last, Slash);
      assert JoinSegments(st) == JoinSegments(init) + ['/'] + last;
      SplitNone(last, Slash);
      assert init + [last] == st;
    }
  }

  /** The segments of a canonical absolute path resolve back to its stack. */
  lemma ResolveAbsolute(st: seq<string>)
    requires AllPlain(st)
    ensures Resolve([], Split(Absolute(st), Slash), false) == st
  {
    assert Absolute(st) == [] + ['/'] + JoinSegments(st);
    SplitAt([], '/', JoinSegments(st), Slash);
    assert Split([], Slash) == [[]];
    if st == [] {
      assert Split(Absolute(st), Slash) == [[], []];
      assert Resolve([], [[], []], false) == Resolve([], [[]], false) == [];
    } else {
      SplitJoinSegments(st);
      ResolveConcat([], [[]], st, false);
      ResolvePlain([], st, false);
    }
  }

  /**
   * `cd` from a canonical absolute directory: the argument's segments are
   * resolved on top of the directory's own, and the result is again a
   * canonical absolute directory. An absolute argument does not replace the
   * directory: its leading `/` only contributes an empty segment.
   */
  lemma JoinOntoAbsolute(st: seq<string>, dir: string)
    requires AllPlain(st) && dir != [] && dir[|dir| - 1] != '/'
    ensures AllPlain(Resolve(st, Split(dir, Slash), false))
    ensures Join(Absolute(st), dir) == Absolute(Resolve(st, Split(dir, Slash), false))
  {
    var joined := Absolute(st) + "/" + dir;
    var r := Resolve(st, Split(dir, Slash), false);
    SplitAt(Absolute(st), '/', dir, Slash);
    ResolveConcat([], Split(Absolute(st), Slash), Split(dir, Slash), false);
    ResolveAbsolute(st);
    assert Resolve([], Split(joined, Slash), false) == r;
    ResolveKeepsPlain(st, Split(dir, Slash));
    if r != [] {
      JoinSegmentsNonEmpty(r);
    }
    assert joined[0] == '/' && joined[|joined| - 1] == dir[|dir| - 1];
  }

  /** Entering a plain sub-directory appends it. */
  lemma JoinPlain(st: seq<string>, seg: string)
    requires AllPlain(st) && Plain(seg)
    ensures Join(Absolute(st), seg) == Absolute(st + [seg])
  {
    JoinOntoAbsolute(st, seg);
    SplitNone(seg, Slash);
    ResolvePlain(st, [seg], false);
  }

  /** An absolute argument is appended, as a relative one would be: `/a` joined with `/b` is `/a/b`. */
  lemma JoinAbsoluteArgument(st: seq<string>, seg: string)
    requires AllPlain(st) && Plain(seg)
    ensures Join(Absolute(st), "/" + seg) == Absolute(st + [seg])
  {
    JoinOntoAbsolute(st, "/" + seg);
    assert "/" + seg == [] + ['/'] + seg;
    SplitAt([], '/', seg, Slash);
    SplitNone(seg, Slash);
    assert Split("/" + seg, Slash) == [[], seg];
    assert Resolve(st, [[], seg], false) == Resolve(st, [seg], false);
    ResolvePlain(st, [seg], false);
  }

  lemma SplitParent(seg: string)
    requires Plain(seg)
    ensures Split("../" + seg, Slash) == ["..", seg]
  {
    assert "../" + seg == ".." + ['/'] + seg;
    SplitAt("..", '/', seg, Slash);
    SplitNone("..", Slash);
    SplitNone(seg, Slash);
  }

  /** `../name` replaces the last segment by `name`; at the root, `..` is dropped. */
  lemma JoinParent(st: seq<string>, seg: string)
    requires AllPlain(st) && Plain(seg)
    ensures Join(Absolute(st), "../" + seg) == Absolute((if st == [] then [] else st[..|st| - 1]) + [seg])
  {
    JoinOntoAbsolute(st, "../" + seg);
    SplitParent(seg);
    var up := Step(st, "..", false);
    assert Resolve(st, ["..", seg], false) == Resolve(up, [seg], false);
    ResolvePlain(up, [seg], false);
  }

  /** Chained `cd`: entering `sub` and then `../other` is entering `other`. */
  lemma CdChain(st: seq<string>, sub: string, other: string)
    requires AllPlain(st) && Plain(sub) && Plain(other)
    ensures Join(Join(Absolute(st), sub), "../" + other) == Join(Absolute(st), other)
  {
    JoinPlain(st, sub);
    assert AllPlain(st + [sub]);
    JoinParent(st + [sub], other);
    assert (st + [sub])[..|st|] == st;
    JoinPlain(st, other);
  }
}
