/**
  The PHP string builtins that api.php leans on, stated over `string`
  (a sequence of characters standing for PHP's byte strings):
  `strpos`, `str_replace`, `stripos`, `empty()` on a string, the
  truthiness of a string, `dirname` and `basename` (POSIX flavour).
 */
module PhpBuiltins {

  /** A builtin's answer, where `None` stands for PHP's `false`. */
  datatype Option<T> = None | Some(value: T)

  /** `$x === false ? $fallback : $x` */
  function ValueOr<T>(x: Option<T>, fallback: T): T {
    if x.Some? then x.value else fallback
  }

  /** `pat[k..]` matches `s` at `i + k`, compared character by character. */
  predicate CharsMatch(s: string, pat: string, i: nat, k: nat)
    requires i + |pat| <= |s|
    decreases |pat| - k
  {
    k >= |pat| || (s[i + k] == pat[k] && CharsMatch(s, pat, i, k + 1))
  }

  /** `pat` occurs in `s` starting at index `i`. */
  predicate OccursAt(s: string, pat: string, i: nat) {
    i + |pat| <= |s| && CharsMatch(s, pat, i, 0)
  }

  lemma {:induction false} CharsMatchIffSlice(s: string, pat: string, i: nat, k: nat)
    requires i + |pat| <= |s| && k <= |pat|
    ensures CharsMatch(s, pat, i, k) <==> s[i + k..i + |pat|] == pat[k..]
    decreases |pat| - k
  {
    if k < |pat| {
      CharsMatchIffSlice(s, pat, i, k + 1);
      assert s[i + k..i + |pat|] == [s[i + k]] + s[i + k + 1..i + |pat|];
      assert pat[k..] == [pat[k]] + pat[k + 1..];
    }
  }

  /** The character-wise occurrence test is slice equality. */
  lemma OccursAtIffSlice(s: string, pat: string, i: nat)
    ensures OccursAt(s, pat, i) <==> i + |pat| <= |s| && s[i..i + |pat|] == pat
  {
    if i + |pat| <= |s| {
      CharsMatchIffSlice(s, pat, i, 0);
    }
  }

  /** The first index at or after `from` where `pat` occurs, if any. */
  function FindFrom(s: string, pat: string, from: nat): (r: Option<nat>)
    decreases |s| - from
    ensures r.Some? ==> from <= r.value && OccursAt(s, pat, r.value)
    ensures r.Some? ==> forall j: nat :: from <= j < r.value ==> !OccursAt(s, pat, j)
    ensures r.None? ==> forall j: nat :: from <= j ==> !OccursAt(s, pat, j)
  {
    if from + |pat| > |s| then None
    else if OccursAt(s, pat, from) then Some(from)
    else FindFrom(s, pat, from + 1)
  }

  /** PHP `strpos($s, $pat)`: the first occurrence, `None` standing for `false`.
      An empty needle is found at 0, as in PHP 8. */
  function Strpos(s: string, pat: string): Option<nat> {
    FindFrom(s, pat, 0)
  }

  /** `strpos(...) !== false` */
  predicate Contains(s: string, pat: string) {
    Strpos(s, pat).Some?
  }

  /** `strpos($s, $pat) === 0` holds exactly when `pat` is a raw prefix of `s`. */
  lemma StrposZeroIffPrefix(s: string, pat: string)
    ensures Strpos(s, pat) == Some(0) <==> pat <= s
  {
    OccursAtIffSlice(s, pat, 0);
    if pat <= s {
      assert s[0..|pat|] == pat;
    }
  }

  /** `Contains` is the existence of an occurrence, in both directions. */
  lemma ContainsIffOccurs(s: string, pat: string)
    ensures Contains(s, pat) <==> exists i: nat :: OccursAt(s, pat, i)
  {
    if exists i: nat :: OccursAt(s, pat, i) {
      var i: nat :| OccursAt(s, pat, i);
      assert !(Strpos(s, pat).None?);
    }
  }

  /** PHP `str_replace($pat, $rep, $s)`: scan left to right, replace every
      occurrence, resume the scan after the replaced text (no overlaps, no rescan). */
  function ReplaceAll(s: string, pat: string, rep: string): string
    requires |pat| > 0
  {
    ReplaceFrom(s, pat, rep, 0)
  }

  /** `str_replace` on the part of `s` from index `i` on. */
  function ReplaceFrom(s: string, pat: string, rep: string, i: nat): string
    requires |pat| > 0 && i <= |s|
    decreases |s| - i
  {
    if i + |pat| > |s| then s[i..]
    else if OccursAt(s, pat, i) then rep + ReplaceFrom(s, pat, rep, i + |pat|)
    else [s[i]] + ReplaceFrom(s, pat, rep, i + 1)
  }

  lemma {:induction false} ReplaceFromNoOccurrence(s: string, pat: string, rep: string, i: nat)
    requires |pat| > 0 && i <= |s|
    requires forall j: nat :: i <= j ==> !OccursAt(s, pat, j)
    ensures ReplaceFrom(s, pat, rep, i) == s[i..]
    decreases |s| - i
  {
    if i + |pat| <= |s| {
      ReplaceFromNoOccurrence(s, pat, rep, i + 1);
      assert s[i..] == [s[i]] + s[i + 1..];
    }
  }

  /** Without an occurrence of the search string, `str_replace` changes nothing. */
  lemma ReplaceAllNoOccurrence(s: string, pat: string, rep: string)
    requires |pat| > 0
    requires !Contains(s, pat)
    ensures ReplaceAll(s, pat, rep) == s
  {
    ReplaceFromNoOccurrence(s, pat, rep, 0);
  }

  /** ASCII lower-casing, as PHP 8.2+ `stripos` folds case. */
  function LowerChar(c: char): char {
    if 'A' <= c <= 'Z' then (c as int + 32) as char else c
  }

  function Lower(s: string): (r: string)
    ensures |r| == |s|
    ensures forall i :: 0 <= i < |s| ==> r[i] == LowerChar(s[i])
  {
    seq(|s|, i requires 0 <= i < |s| => LowerChar(s[i]))
  }

  /** `stripos($hay, $needle) !== false` */
  predicate ContainsIgnoringCase(hay: string, needle: string) {
    Contains(Lower(hay), Lower(needle))
  }

  /** PHP `empty($s)` for a string: the empty string and "0" are empty. */
  predicate Empty(s: string) {
    s == "" || s == "0"
  }

  /** Trailing '/' characters removed. */
  function TrimSlashes(s: string): (r: string)
    ensures r <= s
    ensures r == [] || r[|r| - 1] != '/'
    ensures forall i :: |r| <= i < |s| ==> s[i] == '/'
  {
    if s != [] && s[|s| - 1] == '/' then TrimSlashes(s[..|s| - 1]) else s
  }

  /** The trailing run of non-'/' characters removed. */
  function DropComponent(s: string): (r: string)
    ensures r <= s
    ensures r == [] || r[|r| - 1] == '/'
    ensures forall i :: |r| <= i < |s| ==> s[i] != '/'
  {
    if s != [] && s[|s| - 1] != '/' then DropComponent(s[..|s| - 1]) else s
  }

  /** PHP `dirname($p)` on a POSIX system. */
  function Dirname(p: string): string {
    if p == "" then ""
    else
      var a := TrimSlashes(p);
      if a == "" then "/"
      else
        var b := DropComponent(a);
        if b == "" then "."
        else
          var c := TrimSlashes(b);
          if c == "" then "/" else c
  }

  /** PHP `basename($p)`: the last component, trailing slashes ignored. */
  function Basename(p: string): string {
    var a := TrimSlashes(p);
    a[|DropComponent(a)|..]
  }

  /** `dirname` and `basename` split `d/n` back into `d` and `n` for a
      directory `d` without a trailing slash and a name `n` without slashes. */
  lemma DirnameBasenameSplit(d: string, n: string)
    requires d != "" && d[|d| - 1] != '/'
    requires n != "" && forall i :: 0 <= i < |n| ==> n[i] != '/'
    ensures Dirname(d + "/" + n) == d
    ensures Basename(d + "/" + n) == n
  {
    var p := d + "/" + n;
    assert TrimSlashes(p) == p;
    DropComponentOf(d + "/", n);
    assert TrimSlashes(d + "/") == d by {
      assert (d + "/")[..|d + "/"| - 1] == d;
    }
  }

  lemma {:induction false} DropComponentOf(pre: string, n: string)
    requires pre != [] && pre[|pre| - 1] == '/'
    requires forall i :: 0 <= i < |n| ==> n[i] != '/'
    ensures DropComponent(pre + n) == pre
    decreases |n|
  {
    if n == [] {
      assert pre + n == pre;
    } else {
      var s := pre + n;
      assert s[..|s| - 1] == pre + n[..|n| - 1];
      DropComponentOf(pre, n[..|n| - 1]);
    }
  }
}
