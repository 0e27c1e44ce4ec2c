/**
  The containment check as it is evidently meant to work: the fallback
  normaliser resolves "." and ".." segment by segment (so it always
  terminates and never lets a "." absorb a ".."), and containment asks
  that the root be a whole-segment prefix of the path: the path equals the
  root or continues it with a '/'.
 */
module Canonical {
  import opened PhpBuiltins
  import Containment

  predicate NoSlash(w: string) {
    forall i :: 0 <= i < |w| ==> w[i] != '/'
  }

  /** A segment that names a real directory entry. */
  predicate CleanSegment(w: string) {
    w != "" && w != "." && w != ".." && NoSlash(w)
  }

  predicate Clean(segs: seq<string>) {
    forall i :: 0 <= i < |segs| ==> CleanSegment(segs[i])
  }

  /** `explode('/', $s)`: the pieces between slashes, empty ones included. */
  function Split(s: string): (r: seq<string>)
    ensures |r| >= 1
    ensures AllNoSlash(r)
  {
    if s == [] then [""]
    else
      var rest := Split(s[1..]);
      if s[0] == '/' then [""] + rest else [[s[0]] + rest[0]] + rest[1..]
  }

  /** Each segment preceded by a '/'. */
  function Cat(segs: seq<string>): string {
    if segs == [] then "" else "/" + segs[0] + Cat(segs[1..])
  }

  /** The absolute path with the given segments; "/" for none. */
  function Join(segs: seq<string>): string {
    if segs == [] then "/" else Cat(segs)
  }

  /** One segment applied to the stack of resolved segments: "" and "."
      stay put, ".." goes up (never above "/"), a name goes down. */
  function Step(stack: seq<string>, x: string): (r: seq<string>)
    requires Clean(stack) && NoSlash(x)
    ensures Clean(r)
  {
    if x == "" || x == "." then stack
    else if x == ".." then (if stack == [] then [] else stack[..|stack| - 1])
    else stack + [x]
  }

  function Resolve(segs: seq<string>, stack: seq<string>): (r: seq<string>)
    requires AllNoSlash(segs) && Clean(stack)
    ensures Clean(r)
    decreases |segs|
  {
    if segs == [] then stack
    else Resolve(segs[1..], Step(stack, segs[0]))
  }

  /** The resolved segments of a path read as absolute. */
  function Segments(p: string): seq<string> {
    Resolve(Split(p), [])
  }

  /** The corrected fallback normaliser. */
  function Canon(p: string): string {
    Join(Segments(p))
  }

  /** Whole-segment containment of `p` in `r`. */
  predicate UnderRoot(r: string, p: string) {
    p == r || (if r != "" && r[|r| - 1] == '/' then r <= p else r + "/" <= p)
  }

  /** The corrected `isPathInRoot`: a verdict for every input. */
  function InRootFixed(path: string, root: string, realPath: Option<string>, realRoot: Option<string>): bool {
    var p := ValueOr(realPath, Canon(Containment.Absolute(path, root)));
    var r := ValueOr(realRoot, Canon(root));
    UnderRoot(r, p)
  }

  lemma {:induction false} SplitNoSlash(w: string)
    requires NoSlash(w)
    ensures Split(w) == [w]
    decreases |w|
  {
    if w != [] {
      SplitNoSlash(w[1..]);
      assert [w[0]] + w[1..] == w;
    }
  }

  /** `explode` distributes over a '/'. */
  lemma {:induction false} SplitConcat(a: string, b: string)
    ensures Split(a + "/" + b) == Split(a) + Split(b)
    decreases |a|
  {
    var s := a + "/" + b;
    if a == [] {
      assert s == "/" + b;
      assert s[1..] == b;
    } else {
      assert s[1..] == a[1..] + "/" + b;
      SplitConcat(a[1..], b);
    }
  }

  predicate AllNoSlash(segs: seq<string>) {
    forall i :: 0 <= i < |segs| ==> NoSlash(segs[i])
  }

  /** Splitting a joined path gives back its segments. */
  lemma {:induction false} SplitCat(x: string, xs: seq<string>)
    requires NoSlash(x) && AllNoSlash(xs)
    ensures Split(x + Cat(xs)) == [x] + xs
    decreases |xs|
  {
    if xs == [] {
      assert x + Cat(xs) == x;
      SplitNoSlash(x);
    } else {
      assert x + Cat(xs) == x + "/" + (xs[0] + Cat(xs[1..]));
      SplitConcat(x, xs[0] + Cat(xs[1..]));
      SplitNoSlash(x);
      SplitCat(xs[0], xs[1..]);
    }
  }

  /** Clean segments are taken over as they are. */
  lemma {:induction false} ResolveClean(segs: seq<string>, stack: seq<string>)
    requires Clean(segs) && Clean(stack)
    ensures AllNoSlash(segs)
    ensures Resolve(segs, stack) == stack + segs
    decreases |segs|
  {
    if segs != [] {
      var next := stack + [segs[0]];
      assert CleanSegment(segs[0]);
      assert Step(stack, segs[0]) == next;
      assert Clean(next) by {
        forall i | 0 <= i < |next| ensures CleanSegment(next[i]) {
          if i < |stack| {
            assert next[i] == stack[i];
          }
        }
      }
      assert Clean(segs[1..]) by {
        forall i | 0 <= i < |segs[1..]| ensures CleanSegment(segs[1..][i]) {
          assert segs[1..][i] == segs[i + 1];
        }
      }
      ResolveClean(segs[1..], next);
      assert stack + [segs[0]] + segs[1..] == stack + segs;
    }
  }

  /** A path built from clean segments resolves to those segments. */
  lemma SegmentsOfJoin(segs: seq<string>)
    requires Clean(segs)
    ensures Segments(Join(segs)) == segs
  {
    if segs == [] {
      assert Join(segs) == "" + "/" + "";
      SplitConcat("", "");
      assert Split(Join(segs)) == ["", ""];
      assert Resolve(["", ""], []) == [];
    } else {
      assert Join(segs) == "" + Cat(segs);
      SplitCat("", segs);
      ResolveClean(segs, []);
    }
  }

  /** The corrected normaliser yields only real names and is idempotent. */
  lemma CanonIsCanonical(p: string)
    ensures Clean(Segments(p))
    ensures Segments(Canon(p)) == Segments(p)
    ensures Canon(Canon(p)) == Canon(p)
  {
    SegmentsOfJoin(Segments(p));
  }

  /** `r` is a prefix of `p` ending at a segment boundary of `p`. */
  predicate Below(r: string, p: string) {
    r <= p && (|p| == |r| || p[|r|] == '/')
  }

  lemma UnderRootIsBelow(r: string, p: string)
    requires r == [] || r[|r| - 1] != '/'
    ensures UnderRoot(r, p) <==> Below(r, p)
  {
    if Below(r, p) && p != r {
      assert p[..|r| + 1] == r + "/";
    }
  }

  lemma BelowCommonPrefix(w: string, r: string, p: string)
    ensures Below(w + r, w + p) <==> Below(r, p)
  {
    if r <= p {
      assert w + r <= w + p;
    }
    if w + r <= w + p {
      assert r == (w + r)[|w|..] && (w + p)[|w|..|w + r|] == p[..|r|];
    }
    if |w + p| > |w + r| {
      assert (w + p)[|w + r|] == p[|r|];
    }
  }

  lemma CatShape(segs: seq<string>)
    ensures Cat(segs) == [] || Cat(segs)[0] == '/'
  {
  }

  /** Two paths that agree up to a segment boundary agree on their first segment. */
  lemma SameFirstSegment(x: string, u: string, y: string, v: string)
    requires CleanSegment(x) && CleanSegment(y)
    requires u == [] || u[0] == '/'
    requires v == [] || v[0] == '/'
    requires Below("/" + x + u, "/" + y + v)
    ensures x == y
  {
    var P := "/" + x + u;
    var Q := "/" + y + v;
    var k1, k2 := 1 + |x|, 1 + |y|;
    // both strings have their second '/' (or their end) at the same place
    assert k1 == |Q| || Q[k1] == '/' by {
      if k1 < |P| {
        assert P[k1] == u[0];
      }
    }
    assert k2 == |Q| || Q[k2] == '/' by {
      if k2 < |Q| {
        assert Q[k2] == v[0];
      }
    }
    assert forall i :: 1 <= i < k1 ==> P[i] == x[i - 1];
    assert forall i :: 1 <= i < k2 ==> Q[i] == y[i - 1];
    assert |x| == |y|;
    forall i | 0 <= i < |x| ensures x[i] == y[i] {
      assert P[1 + i] == x[i] && Q[1 + i] == y[i];
    }
  }

  /** On joined clean segments, string containment at a boundary is exactly
      segment-list prefix. */
  lemma {:induction false} CatBelowIffPrefix(a: seq<string>, b: seq<string>)
    requires Clean(a) && Clean(b)
    ensures Below(Cat(a), Cat(b)) <==> a <= b
    decreases |a|
  {
    if a == [] {
      CatShape(b);
    } else if b == [] {
      assert |Cat(a)| > 0;
    } else {
      var x, y := a[0], b[0];
      var u, v := Cat(a[1..]), Cat(b[1..]);
      assert Cat(a) == "/" + x + u;
      assert Cat(b) == "/" + y + v;
      CatShape(a[1..]);
      CatShape(b[1..]);
      CatBelowIffPrefix(a[1..], b[1..]);
      if Below(Cat(a), Cat(b)) {
        SameFirstSegment(x, u, y, v);
        BelowCommonPrefix("/" + x, u, v);
        assert a == [x] + a[1..] && b == [x] + b[1..];
      }
      if a <= b {
        assert x == y && a[1..] <= b[1..];
        BelowCommonPrefix("/" + x, u, v);
      }
    }
  }

  /** Containment of one canonical path in another is segment-list prefix:
      a sibling sharing a string prefix is never inside. */
  lemma UnderRootIffSegmentPrefix(a: seq<string>, b: seq<string>)
    requires Clean(a) && Clean(b)
    ensures UnderRoot(Join(a), Join(b)) <==> a <= b
  {
    if a == [] {
      CatShape(b);
      assert Join(b)[0] == '/';
      assert "/" <= Join(b);
    } else {
      var r := Cat(a);
      assert |r| >= 2 && r[|r| - 1] != '/' by {
        CatLast(a);
      }
      UnderRootIsBelow(r, Join(b));
      if b == [] {
        assert !Below(r, "/");
      } else {
        CatBelowIffPrefix(a, b);
      }
    }
  }

  lemma {:induction false} CatLast(a: seq<string>)
    requires Clean(a) && a != []
    ensures |Cat(a)| >= 2 && Cat(a)[|Cat(a)| - 1] != '/'
    decreases |a|
  {
    if a[1..] == [] {
      assert Cat(a) == "/" + a[0];
    } else {
      CatLast(a[1..]);
      assert Cat(a) == "/" + a[0] + Cat(a[1..]);
    }
  }

  /** Without `realpath`, the corrected check accepts exactly the paths whose
      resolved segments extend the root's resolved segments. */
  lemma InRootFixedIffSegmentPrefix(path: string, root: string)
    ensures InRootFixed(path, root, None, None) <==>
      Segments(root) <= Segments(Containment.Absolute(path, root))
  {
    UnderRootIffSegmentPrefix(Segments(root), Segments(Containment.Absolute(path, root)));
  }

  /** The root itself is inside. */
  lemma FixedAcceptsRoot(root: string)
    requires |root| > 0 && root[0] == '/'
    ensures InRootFixed(root, root, None, None)
  {
    InRootFixedIffSegmentPrefix(root, root);
  }

  /** The sibling "/data/root-evil" is not inside "/data/root". */
  lemma FixedRejectsSibling()
    ensures !InRootFixed("/data/root-evil/x", "/data/root", Some("/data/root-evil/x"), Some("/data/root"))
  {
    var p, r := "/data/root-evil/x", "/data/root";
    assert p != r;
    assert (r + "/")[10] == '/' && p[10] == '-';
    assert !(r + "/" <= p);
    assert !UnderRoot(r, p);
  }

  lemma CatOfShortSibling()
    ensures Cat(["a", "r-old"]) == "/a/r-old"
  {
  }

  lemma ResolveShortSibling()
    ensures Resolve(["", "a", "r-old"], []) == ["a", "r-old"]
  {
  }

  lemma CanonOfShortSibling()
    ensures Canon("/a/r-old") == "/a/r-old"
  {
    CatOfShortSibling();
    SegmentsOfCat(["a", "r-old"], "/a/r-old");
    ResolveShortSibling();
  }

  /** The sibling "/a/r-old" is not inside "/a/r". */
  lemma RejectsSiblingOfShortRoot()
    ensures !InRootFixed("/a/r-old", "/a/r", None, Some("/a/r"))
  {
    CanonOfShortSibling();
    assert Containment.Absolute("/a/r-old", "/a/r") == "/a/r-old";
    assert ("/a/r" + "/")[4] == '/' && "/a/r-old"[4] == '-';
  }

  /** The segments of a path written as `Cat(segs)`. */
  lemma SegmentsOfCat(segs: seq<string>, p: string)
    requires AllNoSlash(segs) && p == Cat(segs)
    ensures Segments(p) == Resolve([""] + segs, [])
  {
    assert p == "" + Cat(segs);
    SplitCat("", segs);
  }

  lemma CatOfDotEscape()
    ensures Cat(["r", ".", ".", "..", "x"]) == "/r/././../x"
  {
  }

  lemma ResolveDotEscape()
    ensures Resolve(["", "r", ".", ".", "..", "x"], []) == ["x"]
  {
  }

  lemma SegmentsOfDotEscape()
    ensures Segments("/r/././../x") == ["x"]
  {
    CatOfDotEscape();
    SegmentsOfCat(["r", ".", ".", "..", "x"], "/r/././../x");
    ResolveDotEscape();
  }

  /** "/r/././../x" resolves to "/x", outside "/r". */
  lemma FixedRejectsDotEscape()
    ensures Canon("/r/././../x") == "/x"
    ensures !InRootFixed("/r/././../x", "/r", None, Some("/r"))
  {
    SegmentsOfDotEscape();
    assert Canon("/r/././../x") == "/x";
    assert Containment.Absolute("/r/././../x", "/r") == "/r/././../x";
  }

  lemma CatOfEmptySegment()
    ensures Cat(["r", "", "..", "x"]) == "/r//../x"
  {
  }

  lemma ResolveEmptySegment()
    ensures Resolve(["", "r", "", "..", "x"], []) == ["x"]
  {
  }

  lemma SegmentsOfEmptySegment()
    ensures Segments("/r//../x") == ["x"]
  {
    CatOfEmptySegment();
    SegmentsOfCat(["r", "", "..", "x"], "/r//../x");
    ResolveEmptySegment();
  }

  /** "/r//../x" resolves to "/x" as well, and the corrected loop cannot spin. */
  lemma FixedRejectsEmptySegment()
    ensures Canon("/r//../x") == "/x"
    ensures !InRootFixed("/r//../x", "/r", None, Some("/r"))
  {
    SegmentsOfEmptySegment();
    assert Canon("/r//../x") == "/x";
    assert Containment.Absolute("/r//../x", "/r") == "/r//../x";
  }

  lemma CatOfInnerParent()
    ensures Cat(["r", "a", "..", "b"]) == "/r/a/../b"
  {
  }

  lemma ResolveInnerParent()
    ensures Resolve(["", "r", "a", "..", "b"], []) == ["r", "b"]
  {
  }

  lemma SegmentsOfInnerParent()
    ensures Segments("/r/a/../b") == ["r", "b"]
  {
    CatOfInnerParent();
    SegmentsOfCat(["r", "a", "..", "b"], "/r/a/../b");
    ResolveInnerParent();
  }

  /** A ".." that stays below the root is still accepted. */
  lemma FixedAcceptsInnerParent()
    ensures Canon("/r/a/../b") == "/r/b"
    ensures InRootFixed("/r/a/../b", "/r", None, Some("/r"))
  {
    SegmentsOfInnerParent();
    assert Canon("/r/a/../b") == "/r/b";
    assert Containment.Absolute("/r/a/../b", "/r") == "/r/a/../b";
    assert "/r/" <= "/r/b";
  }
}
