/**
  `isPathInRoot` exactly as api.php writes it: the canonical paths come
  from a `realpath` oracle when it succeeds; otherwise a hand-rolled
  fallback makes the path absolute, replaces "/./" by "/" in one pass and
  then loops while `strpos($p, '/../')` is truthy, each turn rewriting the
  leftmost match of the regex `/[^/]+/\.\./` into "/". The verdict is a raw
  string-prefix test.

  The loop is modelled without fuel: every rewrite strictly shortens the
  string, and when the guard holds but the regex finds no match the
  rewrite is the identity, so the loop turns forever; that end state is
  reported as `Spins`.
 */
module Containment {
  import opened PhpBuiltins

  const DotSegment := "/./"
  const ParentSegment := "/../"

  /** The first '/' at or after `k`, or `|s|` when there is none. */
  function NextSlash(s: string, k: nat): (j: nat)
    requires k <= |s|
    decreases |s| - k
    ensures k <= j <= |s|
    ensures j < |s| ==> s[j] == '/'
    ensures forall m :: k <= m < j ==> s[m] != '/'
  {
    if k == |s| || s[k] == '/' then k else NextSlash(s, k + 1)
  }

  /** The regex `/[^/]+/\.\./` matches at `a`: a '/', a non-empty run of
      non-'/' characters (greedy, so it runs to the next '/'), then "/../". */
  predicate MatchesAt(s: string, a: nat) {
    a < |s| && s[a] == '/' &&
    var j := NextSlash(s, a + 1);
    j > a + 1 && OccursAt(s, ParentSegment, j)
  }

  /** The leftmost match at or after `from`. */
  function LeftmostFrom(s: string, from: nat): (r: Option<nat>)
    decreases |s| - from
    ensures r.Some? ==> from <= r.value && MatchesAt(s, r.value)
    ensures r.Some? ==> forall a: nat :: from <= a < r.value ==> !MatchesAt(s, a)
    ensures r.None? ==> forall a: nat :: from <= a ==> !MatchesAt(s, a)
  {
    if from >= |s| then None
    else if MatchesAt(s, from) then Some(from)
    else LeftmostFrom(s, from + 1)
  }

  /** `preg_replace('#/[^/]+/\.\./#', '/', $s, 1)` when it finds a match. */
  function CollapseOnce(s: string): (r: Option<string>)
    ensures r.Some? <==> exists a: nat :: MatchesAt(s, a)
    ensures r.Some? ==> |r.value| < |s|
    ensures r.Some? ==>
      var a := LeftmostFrom(s, 0).value;
      var j := NextSlash(s, a + 1);
      // the leftmost "/seg/../" is replaced by "/", nothing else changes
      && a + 1 < j
      && OccursAt(s, ParentSegment, j)
      && |r.value| == |s| - (j + |ParentSegment| - a) + 1
      && r.value[..a] == s[..a]
      && r.value[a] == '/'
      && r.value[a + 1..] == s[j + |ParentSegment|..]
      && (forall m :: a + 1 <= m < j ==> s[m] != '/')
  {
    match LeftmostFrom(s, 0)
    case None => None
    case Some(a) =>
      var j := NextSlash(s, a + 1);
      Some(s[..a] + "/" + s[j + |ParentSegment|..])
  }

  /** The loop body as PHP runs it: without a match `preg_replace` returns
      its subject unchanged. */
  function PregReplaceOnce(s: string): string {
    ValueOr(CollapseOnce(s), s)
  }

  /** The loop guard `strpos($p, '/../')`: an integer is truthy unless 0,
      and `false` is falsy, so the guard is "the FIRST occurrence is at an
      index above 0". */
  predicate Guard(s: string) {
    Strpos(s, ParentSegment).Some? && Strpos(s, ParentSegment).value > 0
  }

  datatype LoopEnd = Exits(path: string) | Spins(path: string)

  /** The collapse loop, run to its end. */
  function RunCollapse(s: string): (r: LoopEnd)
    decreases |s|
    ensures |r.path| <= |s|
    ensures r.Exits? ==> !Guard(r.path)
    ensures r.Spins? ==> Guard(r.path) && PregReplaceOnce(r.path) == r.path
  {
    if !Guard(s) then Exits(s)
    else
      match CollapseOnce(s)
      case None => Spins(s)
      case Some(t) => RunCollapse(t)
  }

  /** The absolute form the fallback starts from (api.php:424-427). */
  function Absolute(path: string, root: string): string {
    if |path| > 0 && path[0] == '/' then path else root + "/" + path
  }

  /** The fallback normaliser (api.php:424-432). */
  function Fallback(path: string, root: string): LoopEnd {
    RunCollapse(ReplaceAll(Absolute(path, root), DotSegment, "/"))
  }

  datatype Verdict = Allowed | Denied | Hangs

  /** `isPathInRoot($path, $root)`; `realPath` and `realRoot` are what
      `realpath` returned, `None` standing for `false`. */
  function IsPathInRoot(path: string, root: string, realPath: Option<string>, realRoot: Option<string>): Verdict {
    var normalised := if realPath.Some? then Exits(realPath.value) else Fallback(path, root);
    if normalised.Spins? then Hangs
    else if Strpos(normalised.path, ValueOr(realRoot, root)) == Some(0) then Allowed
    else Denied
  }

  /** The verdict is a raw string-prefix test on the normalised strings, and
      the only other outcome is the non-terminating fallback. */
  lemma IsPathInRootIsRawPrefix(path: string, root: string, realPath: Option<string>, realRoot: Option<string>)
    ensures realPath.Some? ==>
      (IsPathInRoot(path, root, realPath, realRoot) == Allowed <==> ValueOr(realRoot, root) <= realPath.value)
    ensures realPath.Some? ==> IsPathInRoot(path, root, realPath, realRoot) != Hangs
    ensures realPath.None? && Fallback(path, root).Exits? ==>
      (IsPathInRoot(path, root, realPath, realRoot) == Allowed <==> ValueOr(realRoot, root) <= Fallback(path, root).path)
    ensures IsPathInRoot(path, root, realPath, realRoot) == Hangs <==> realPath.None? && Fallback(path, root).Spins?
  {
    if realPath.Some? {
      StrposZeroIffPrefix(realPath.value, ValueOr(realRoot, root));
    } else {
      StrposZeroIffPrefix(Fallback(path, root).path, ValueOr(realRoot, root));
    }
  }

  /** The root itself is accepted. */
  lemma RootIsInRoot(root: string)
    ensures IsPathInRoot(root, root, Some(root), Some(root)) == Allowed
  {
    StrposZeroIffPrefix(root, root);
  }

  /** A sibling directory sharing the root as a string prefix is accepted. */
  lemma SiblingIsAccepted()
    ensures IsPathInRoot("/data/root-evil/x", "/data/root", Some("/data/root-evil/x"), Some("/data/root")) == Allowed
  {
    StrposZeroIffPrefix("/data/root-evil/x", "/data/root");
  }

  /** The single "/./" pass leaves "/./" behind in "/././", and the collapse
      then treats "." as a segment that a ".." cancels: a path whose real
      location is "/x" normalises to "/r/x" and is accepted under root "/r". */
  lemma DotSegmentEscapes()
    ensures ReplaceAll("/r/././../x", DotSegment, "/") == "/r/./../x"
    ensures Fallback("/r/././../x", "/r") == Exits("/r/x")
    ensures IsPathInRoot("/r/././../x", "/r", None, Some("/r")) == Allowed
  {
    assert ReplaceAll("/r/././../x", DotSegment, "/") == "/r/./../x";
    var t := "/r/./../x";
    assert LeftmostFrom(t, 0) == Some(2);
    assert NextSlash(t, 3) == 4;
    assert t[..2] + "/" + t[8..] == "/r/x";
    assert CollapseOnce(t) == Some("/r/x");
    assert RunCollapse("/r/x") == Exits("/r/x");
  }

  /** A "/../" right after an empty segment never collapses: the request
      path "/../x" under root "/r" (so "/r//../x") makes the loop spin. */
  lemma EmptySegmentHangs()
    ensures Fallback("/r//../x", "/r") == Spins("/r//../x")
    ensures IsPathInRoot("/r//../x", "/r", None, Some("/r")) == Hangs
  {
    assert ReplaceAll("/r//../x", DotSegment, "/") == "/r//../x";
    assert RunCollapse("/r//../x") == Spins("/r//../x");
  }

  /** When the guard holds and every "/../" follows a '/', no rewrite fires
      and the loop never ends. */
  lemma EveryParentAfterSlashSpins(s: string)
    requires Guard(s)
    requires forall j: nat :: OccursAt(s, ParentSegment, j) ==> j > 0 && s[j - 1] == '/'
    ensures RunCollapse(s) == Spins(s)
  {
  }

  /** A "/../" after an empty segment is still collapsed when it is itself
      followed by "../": the regex takes ".." for the segment. */
  lemma EmptySegmentCanStillExit()
    ensures RunCollapse("x//../../") == Exits("x//")
  {
    var s := "x//../../";
    assert LeftmostFrom(s, 0) == Some(2);
    assert NextSlash(s, 3) == 5;
    assert s[..2] + "/" + s[9..] == "x//";
    assert CollapseOnce(s) == Some("x//");
    assert RunCollapse("x//") == Exits("x//");
  }

  /** On exit the FIRST "/../" is at index 0 or there is none, yet a later
      one may survive behind a leading "/../". */
  lemma LeadingParentHidesLater()
    ensures RunCollapse("/../a/../") == Exits("/../a/../")
    ensures OccursAt("/../a/../", ParentSegment, 5)
  {
    assert Strpos("/../a/../", ParentSegment) == Some(0);
  }
}
