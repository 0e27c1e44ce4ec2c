/**
  The file tree under the served root, and the three walks api.php makes
  over it: the one-level listing of `handleGet`, the recursive
  `searchFiles`, and the recursive `deleteDirectory`.

  The tree is immutable and acyclic (no symbolic links). Each node carries
  the answers the code asks the operating system for: its name, whether it
  is writable, and for a file its size and MIME type. `scandir` and
  `readdir` also yield the pseudo-entries "." and ".."; a child named so
  stands for them and is skipped exactly where the code skips it.
 */
module FileTree {
  import opened PhpBuiltins

  datatype Node =
    | Dir(name: string, writable: bool, children: seq<Node>)
    | File(name: string, size: nat, mime: string, writable: bool)

  /** `$item === '.' || $item === '..'` */
  predicate Skipped(name: string) {
    name == "." || name == ".."
  }

  /** One element of the JSON array a listing or a search returns, without
      `modifiedTime`. `mime` is present for files only. */
  datatype Entry = Entry(name: string, isDirectory: bool, size: nat, path: string, mime: Option<string>)

  function EntryOf(n: Node, path: string): (e: Entry)
    ensures e.name == n.name && e.path == path
    ensures e.isDirectory <==> n.Dir?
    ensures e.size == (if n.File? then n.size else 0)
    ensures e.mime == (if n.File? then Some(n.mime) else None)
  {
    match n
    case Dir(name, _, _) => Entry(name, true, 0, path, None)
    case File(name, size, mime, _) => Entry(name, false, size, path, Some(mime))
  }

  // ---------------------------------------------------------------------
  // Listing (api.php:143-169)
  // ---------------------------------------------------------------------

  /** `$path ? $path . '/' . $item : $item`: the request path is used only
      when it is truthy, and "0" is not. */
  function ListingPath(path: string, item: string): string {
    if Empty(path) then item else path + "/" + item
  }

  /** The listing of a directory whose entries are `items`, requested as `path`. */
  function Listing(path: string, items: seq<Node>): (r: seq<Entry>)
    ensures |r| <= |items|
    ensures forall k :: 0 <= k < |r| ==> !Skipped(r[k].name)
  {
    if items == [] then []
    else
      var n := items[0];
      (if Skipped(n.name) then [] else [EntryOf(n, ListingPath(path, n.name))]) + Listing(path, items[1..])
  }

  /** Listing distributes over concatenation, so it keeps the order of `scandir`. */
  lemma {:induction false} ListingConcat(path: string, a: seq<Node>, b: seq<Node>)
    ensures Listing(path, a + b) == Listing(path, a) + Listing(path, b)
  {
    if a != [] {
      var n := a[0];
      var head := if Skipped(n.name) then [] else [EntryOf(n, ListingPath(path, n.name))];
      assert (a + b)[0] == n;
      assert (a + b)[1..] == a[1..] + b;
      assert Listing(path, a + b) == head + Listing(path, a[1..] + b);
      assert Listing(path, a) == head + Listing(path, a[1..]);
      ListingConcat(path, a[1..], b);
    } else {
      assert a + b == b;
    }
  }

  /** Without pseudo-entries, the listing has one entry per item, in order. */
  lemma {:induction false} ListingOfRealEntries(path: string, items: seq<Node>)
    requires forall i :: 0 <= i < |items| ==> !Skipped(items[i].name)
    ensures |Listing(path, items)| == |items|
    ensures forall i :: 0 <= i < |items| ==> Listing(path, items)[i] == EntryOf(items[i], ListingPath(path, items[i].name))
  {
    if items != [] {
      ListingOfRealEntries(path, items[1..]);
    }
  }

  /** An entry is listed exactly when it comes from an item that is not a
      pseudo-entry. */
  lemma {:induction false} ListingMembership(path: string, items: seq<Node>, e: Entry)
    ensures e in Listing(path, items) <==>
      exists i :: 0 <= i < |items| && !Skipped(items[i].name) && e == EntryOf(items[i], ListingPath(path, items[i].name))
  {
    if items != [] {
      ListingMembership(path, items[1..], e);
      var n := items[0];
      if exists i :: 0 <= i < |items[1..]| && !Skipped(items[1..][i].name) && e == EntryOf(items[1..][i], ListingPath(path, items[1..][i].name)) {
        var i :| 0 <= i < |items[1..]| && !Skipped(items[1..][i].name) && e == EntryOf(items[1..][i], ListingPath(path, items[1..][i].name));
        assert items[i + 1] == items[1..][i];
      }
      if exists i :: 0 <= i < |items| && !Skipped(items[i].name) && e == EntryOf(items[i], ListingPath(path, items[i].name)) {
        var i :| 0 <= i < |items| && !Skipped(items[i].name) && e == EntryOf(items[i], ListingPath(path, items[i].name));
        if i > 0 {
          assert items[1..][i - 1] == items[i];
        }
      }
    }
  }

  /** `scandir`'s "." and ".." never reach the listing; an empty directory
      lists as `[]`. */
  lemma EmptyDirectoryLists(path: string, w: bool)
    ensures Listing(path, [Dir(".", w, []), Dir("..", w, [])]) == []
  {
  }

  /** Listing the directory "0" reports bare names, as at the root. */
  lemma ZeroPathListsBareNames()
    ensures ListingPath("0", "a") == "a"
    ensures ListingPath("", "a") == "a"
    ensures ListingPath("docs", "a") == "docs/a"
  {
  }

  /** The listing path with only the empty request path treated as the root. */
  function JoinListingPath(path: string, item: string): string {
    if path == "" then item else path + "/" + item
  }

  /** The corrected listing path names the entry inside the listed
      directory: `dirname` gives back the request path and `basename` the
      item. */
  lemma JoinListingPathSplits(path: string, item: string)
    requires path != "" && path[|path| - 1] != '/'
    requires item != "" && forall i :: 0 <= i < |item| ==> item[i] != '/'
    ensures Dirname(JoinListingPath(path, item)) == path
    ensures Basename(JoinListingPath(path, item)) == item
    ensures JoinListingPath("0", item) == "0/" + item
  {
    DirnameBasenameSplit(path, item);
  }

  // ---------------------------------------------------------------------
  // Search (api.php:444-507)
  // ---------------------------------------------------------------------

  /** A node met by the search, with the full path it was reached by. */
  datatype Found = Found(full: string, node: Node)

  /** Every node below `dir` except the pseudo-entries, in pre-order: each
      node before everything below it, siblings in `readdir` order. */
  function Walk(dir: string, items: seq<Node>): (r: seq<Found>)
    decreases items
    ensures forall k :: 0 <= k < |r| ==> !Skipped(r[k].node.name)
  {
    if items == [] then []
    else
      var n := items[0];
      var full := dir + "/" + n.name;
      (if Skipped(n.name) then []
       else [Found(full, n)] + (if n.Dir? then Walk(full, n.children) else []))
      + Walk(dir, items[1..])
  }

  /** Every path the walk reaches lies below `dir + "/"`. */
  lemma {:induction false} WalkUnder(dir: string, items: seq<Node>)
    ensures forall k :: 0 <= k < |Walk(dir, items)| ==> dir + "/" <= Walk(dir, items)[k].full
    decreases items
  {
    if items != [] {
      var n := items[0];
      var full := dir + "/" + n.name;
      WalkUnder(dir, items[1..]);
      if !Skipped(n.name) && n.Dir? {
        WalkUnder(full, n.children);
        forall k | 0 <= k < |Walk(full, n.children)|
          ensures dir + "/" <= Walk(full, n.children)[k].full
        {
          assert dir + "/" <= full;
        }
      }
      var head := if Skipped(n.name) then [] else [Found(full, n)] + (if n.Dir? then Walk(full, n.children) else []);
      assert Walk(dir, items) == head + Walk(dir, items[1..]);
      forall k | 0 <= k < |Walk(dir, items)|
        ensures dir + "/" <= Walk(dir, items)[k].full
      {
        if k >= |head| {
          assert Walk(dir, items)[k] == Walk(dir, items[1..])[k - |head|];
        } else if k > 0 {
          assert Walk(dir, items)[k] == Walk(full, n.children)[k - 1];
        }
      }
    }
  }

  /** `stripos($item, $query) !== false` */
  predicate NameMatches(name: string, query: string) {
    ContainsIgnoringCase(name, query)
  }

  /** The walked nodes whose names match, in walk order. */
  function Matching(fs: seq<Found>, query: string): (r: seq<Found>)
    ensures |r| <= |fs|
  {
    if fs == [] then []
    else (if NameMatches(fs[0].node.name, query) then [fs[0]] else []) + Matching(fs[1..], query)
  }

  lemma {:induction false} MatchingConcat(a: seq<Found>, b: seq<Found>, query: string)
    ensures Matching(a + b, query) == Matching(a, query) + Matching(b, query)
  {
    if a != [] {
      assert (a + b)[0] == a[0];
      assert (a + b)[1..] == a[1..] + b;
      MatchingConcat(a[1..], b, query);
    } else {
      assert a + b == b;
    }
  }

  /** Each walked node is kept as often as it was walked if its name
      matches, and dropped otherwise. */
  lemma {:induction false} MatchingMultiplicity(fs: seq<Found>, query: string, f: Found)
    ensures multiset(Matching(fs, query))[f] == if NameMatches(f.node.name, query) then multiset(fs)[f] else 0
  {
    if fs != [] {
      MatchingMultiplicity(fs[1..], query, f);
      assert fs == [fs[0]] + fs[1..];
    }
  }

  /** `str_replace('/var/www/html/', '', $fullPath)` */
  const WebRoot := "/var/www/html/"

  function ReportedPath(full: string): string {
    ReplaceAll(full, WebRoot, "")
  }

  function Report(fs: seq<Found>): (r: seq<Entry>)
    ensures |r| == |fs|
    ensures forall k :: 0 <= k < |fs| ==> r[k] == EntryOf(fs[k].node, ReportedPath(fs[k].full))
  {
    if fs == [] then [] else [EntryOf(fs[0].node, ReportedPath(fs[0].full))] + Report(fs[1..])
  }

  lemma {:induction false} ReportConcat(a: seq<Found>, b: seq<Found>)
    ensures Report(a + b) == Report(a) + Report(b)
  {
    if a != [] {
      assert (a + b)[0] == a[0];
      assert (a + b)[1..] == a[1..] + b;
      ReportConcat(a[1..], b);
    }
  }

  /** `searchFiles($dir, $query)` over the entries `items` of `dir`. */
  function SearchFiles(dir: string, items: seq<Node>, query: string): seq<Entry>
    decreases items
  {
    if items == [] then []
    else
      var n := items[0];
      var full := dir + "/" + n.name;
      (if Skipped(n.name) then []
       else (if NameMatches(n.name, query) then [EntryOf(n, ReportedPath(full))] else [])
            + (if n.Dir? then SearchFiles(full, n.children, query) else []))
      + SearchFiles(dir, items[1..], query)
  }

  /** The search reports exactly the matching nodes of the walk, in walk
      order: directories are entered whether or not they match, and a match
      comes before the matches below it. */
  lemma {:induction false} SearchIsFilteredWalk(dir: string, items: seq<Node>, query: string)
    ensures SearchFiles(dir, items, query) == Report(Matching(Walk(dir, items), query))
    decreases items
  {
    if items != [] {
      var n := items[0];
      var full := dir + "/" + n.name;
      SearchIsFilteredWalk(dir, items[1..], query);
      var sub := if n.Dir? then Walk(full, n.children) else [];
      if n.Dir? {
        SearchIsFilteredWalk(full, n.children, query);
      }
      var head := if Skipped(n.name) then [] else [Found(full, n)] + sub;
      assert Walk(dir, items) == head + Walk(dir, items[1..]);
      MatchingConcat(head, Walk(dir, items[1..]), query);
      ReportConcat(Matching(head, query), Matching(Walk(dir, items[1..]), query));
      if !Skipped(n.name) {
        MatchingConcat([Found(full, n)], sub, query);
        assert Matching([Found(full, n)], query) == if NameMatches(n.name, query) then [Found(full, n)] else [];
        ReportConcat(Matching([Found(full, n)], query), Matching(sub, query));
      }
    }
  }

  /** A directory whose name does not match is still searched, and the
      match ignores ASCII case. */
  lemma SearchDescendsAndIgnoresCase()
    ensures SearchFiles("/r", [Dir("a", true, [File("B", 1, "text/plain", true)])], "b") ==
      [Entry("B", false, 1, "/r/a/B", Some("text/plain"))]
  {
    assert Lower("a") == "a" && Lower("b") == "b" && Lower("B") == "b";
    assert !NameMatches("a", "b") by {
      assert !OccursAt("a", "b", 0);
      assert Strpos("a", "b") == None;
    }
    assert NameMatches("B", "b") by {
      assert OccursAt("b", "b", 0);
    }
    assert ReportedPath("/r/a/B") == "/r/a/B";
    var f := File("B", 1, "text/plain", true);
    var d := Dir("a", true, [f]);
    assert "/r" + "/" + "a" == "/r/a" && "/r/a" + "/" + "B" == "/r/a/B";
    assert [f][1..] == [] && [d][1..] == [];
    assert SearchFiles("/r/a", [f], "b") == [EntryOf(f, "/r/a/B")];
    assert SearchFiles("/r", [d], "b") == SearchFiles("/r/a", [f], "b");
  }

  /** For paths without "/var/www/html/" the reported path is the full,
      absolute path, not a path relative to the served root. */
  lemma ReportedPathIsFull(full: string)
    requires !Contains(full, WebRoot)
    ensures ReportedPath(full) == full
  {
    ReplaceAllNoOccurrence(full, WebRoot, "");
  }

  /** A folder chain "var/www/html" inside the root corrupts the reported path. */
  lemma NestedWebRootMangles()
    ensures ReportedPath("/r/var/www/html/x") == "/rx"
  {
    var s := "/r/var/www/html/x";
    OccursAtIffSlice(s, WebRoot, 2);
    assert s[2..2 + |WebRoot|] == WebRoot;
    assert !OccursAt(s, WebRoot, 0) && !OccursAt(s, WebRoot, 1) by {
      assert s[1] != WebRoot[0] && s[2] != WebRoot[1];
    }
    assert ReplaceFrom(s, WebRoot, "", 16) == "x";
    assert ReplaceFrom(s, WebRoot, "", 2) == "x";
  }

  /** The path of `full` relative to `root`, as a listing would report it. */
  function RelativePath(root: string, full: string): (r: string)
    requires root + "/" <= full
    ensures root + "/" + r == full
  {
    full[|root| + 1..]
  }

  /** The search with root-relative paths. */
  function SearchFixed(root: string, items: seq<Node>, query: string): (r: seq<Entry>)
    ensures |r| == |Matching(Walk(root, items), query)|
    ensures forall k :: 0 <= k < |r| ==>
      var f := Matching(Walk(root, items), query)[k];
      r[k] == EntryOf(f.node, r[k].path) && root + "/" + r[k].path == f.full
  {
    var fs := Matching(Walk(root, items), query);
    WalkUnder(root, items);
    MatchingSubset(Walk(root, items), query);
    seq(|fs|, k requires 0 <= k < |fs| => EntryOf(fs[k].node, RelativePath(root, fs[k].full)))
  }

  lemma {:induction false} MatchingSubset(fs: seq<Found>, query: string)
    ensures forall k :: 0 <= k < |Matching(fs, query)| ==> Matching(fs, query)[k] in fs
  {
    if fs != [] {
      MatchingSubset(fs[1..], query);
      var m := Matching(fs, query);
      var head := if NameMatches(fs[0].node.name, query) then [fs[0]] else [];
      forall k | 0 <= k < |m| ensures m[k] in fs {
        if k >= |head| {
          assert m[k] == Matching(fs[1..], query)[k - |head|];
          assert m[k] in fs[1..];
        }
      }
    }
  }

  /** A hit among the root's own entries carries the same path the root
      listing gives it. */
  lemma FixedSearchAgreesWithListing(root: string, n: Node)
    ensures RelativePath(root, root + "/" + n.name) == ListingPath("", n.name)
  {
    assert (root + "/" + n.name)[|root| + 1..] == n.name;
  }

  // ---------------------------------------------------------------------
  // Recursive delete (api.php:383-413)
  // ---------------------------------------------------------------------

  /** `deleteDirectory` returning true removes the node; otherwise `rest`
      is what is left of it. */
  datatype Removal = Removed | Kept(rest: Node)

  /** The outcome of the `foreach` over a directory's entries: whether it
      ran to the end, and the entries still present. */
  datatype Sweep = Sweep(ok: bool, left: seq<Node>)

  /** The node and everything below it is writable. */
  predicate TreeWritable(n: Node)
    decreases n, 1
  {
    n.writable && (n.Dir? ==> AllWritable(n.children))
  }

  /** Every real entry of `items`, and everything below it, is writable;
      the pseudo-entries do not count. */
  predicate AllWritable(items: seq<Node>)
    decreases items, 0
  {
    items == [] ||
    ((Skipped(items[0].name) || TreeWritable(items[0])) && AllWritable(items[1..]))
  }

  /** The end of `deleteDirectory` once its loop has run: the directory is
      removed when the loop finished and it is writable (`rmdir` on the now
      empty directory is taken to succeed). */
  function Finish(d: Node, s: Sweep): (r: Removal)
    requires d.Dir?
    ensures r.Removed? <==> s.ok && d.writable
    ensures r.Kept? ==> r.rest.Dir? && r.rest.name == d.name
  {
    if !s.ok then Kept(Dir(d.name, d.writable, s.left))
    else if !d.writable then Kept(Dir(d.name, d.writable, []))
    else Removed
  }

  /** The loop over `array_diff(scandir($dir), ['.', '..'])`, returning at
      the first failure. The pseudo-entries are passed over; a file is
      unlinked when writable; a directory is deleted recursively. */
  function SweepEntries(items: seq<Node>): (r: Sweep)
    decreases items
    ensures r.ok ==> r.left == []
    ensures !r.ok ==> 0 < |r.left| <= |items| && r.left[1..] == items[|items| - |r.left| + 1..]
    ensures !r.ok ==> !Skipped(items[|items| - |r.left|].name)
  {
    if items == [] then Sweep(true, [])
    else if Skipped(items[0].name) then SweepEntries(items[1..])
    else
      var n := items[0];
      var here := if n.Dir? then Finish(n, SweepEntries(n.children))
                  else if n.writable then Removed
                  else Kept(n);
      match here
      case Removed => SweepEntries(items[1..])
      case Kept(rest) => Sweep(false, [rest] + items[1..])
  }

  /** `deleteDirectory($dir)`: `false` without touching anything when the
      node is not a directory. */
  function DeleteDirectory(d: Node): Removal {
    if d.Dir? then Finish(d, SweepEntries(d.children)) else Kept(d)
  }

  /** The loop finishes exactly when everything below is writable. */
  lemma {:induction false} SweepOkIff(items: seq<Node>)
    ensures SweepEntries(items).ok <==> AllWritable(items)
    decreases items
  {
    if items != [] {
      var n := items[0];
      SweepOkIff(items[1..]);
      if n.Dir? {
        SweepOkIff(n.children);
      }
    }
  }

  /** `deleteDirectory` returns true exactly when the directory and
      everything in it are writable, and then nothing of it is left. */
  lemma DeleteIffAllWritable(d: Node)
    ensures DeleteDirectory(d).Removed? <==> d.Dir? && TreeWritable(d)
  {
    if d.Dir? {
      SweepOkIff(d.children);
    }
  }

  /** A directory holding only the pseudo-entries is deleted, whatever
      they carry: it lists as empty and `array_diff` leaves nothing to
      sweep. */
  lemma PseudoEntriesIgnoredByDelete()
    ensures Listing("d", [Dir(".", false, []), Dir("..", false, [])]) == []
    ensures DeleteDirectory(Dir("d", true, [Dir(".", false, []), Dir("..", false, [])])) == Removed
  {
    var items := [Dir(".", false, []), Dir("..", false, [])];
    assert items[1..][1..] == [];
    assert SweepEntries(items[1..][1..]) == Sweep(true, []);
  }

  /** `rest` is `orig` with some of its descendants removed: same kind, name
      and flags, and for a directory, the entries kept are a suffix of the
      original entries whose first one may itself be pruned. */
  predicate Prunes(rest: Node, orig: Node)
    decreases orig, 1
  {
    if orig.File? then rest == orig
    else
      (rest.Dir? && rest.name == orig.name && rest.writable == orig.writable &&
       PrunesEntries(rest.children, orig.children))
  }

  predicate PrunesEntries(rest: seq<Node>, orig: seq<Node>)
    decreases orig, 0
  {
    rest == [] ||
    (0 < |rest| <= |orig| && rest[1..] == orig[|orig| - |rest| + 1..] &&
     Prunes(rest[0], orig[|orig| - |rest|]))
  }

  /** When the loop stops early, the entries before the failing one are
      gone, the failing one is pruned, and the later ones are untouched. */
  lemma {:induction false} SweepFailureShape(items: seq<Node>)
    requires !SweepEntries(items).ok
    ensures var r := SweepEntries(items);
      var k := |items| - |r.left|;
      && AllWritable(items[..k]) && !Skipped(items[k].name) && !TreeWritable(items[k])
      && PrunesEntries(r.left, items)
    decreases items
  {
    var r := SweepEntries(items);
    var n := items[0];
    if n.Dir? {
      SweepOkIff(n.children);
      if !SweepEntries(n.children).ok {
        SweepFailureShape(n.children);
      }
    }
    var here := if n.Dir? then Finish(n, SweepEntries(n.children)) else if n.writable then Removed else Kept(n);
    if Skipped(n.name) || here.Removed? {
      SweepFailureShape(items[1..]);
      var k := |items| - |r.left|;
      assert items[1..][..k - 1] == items[1..k];
      assert [items[0]] + items[1..k] == items[..k];
      assert AllWritable([items[0]]) by {
        assert [items[0]][1..] == [];
        if !Skipped(n.name) {
          if n.Dir? {
            SweepOkIff(n.children);
          }
          assert TreeWritable(n);
        }
      }
      AllWritableConcat([items[0]], items[1..k]);
      assert items[1..][k - 1] == items[k];
    } else {
      assert |r.left| == |items|;
      assert items[..0] == [];
      assert Prunes(here.rest, n);
      assert TreeWritable(n) ==> here.Removed?;
    }
  }

  lemma {:induction false} AllWritableConcat(a: seq<Node>, b: seq<Node>)
    ensures AllWritable(a + b) <==> AllWritable(a) && AllWritable(b)
  {
    if a != [] {
      assert (a + b)[0] == a[0];
      assert (a + b)[1..] == a[1..] + b;
      AllWritableConcat(a[1..], b);
    } else {
      assert a + b == b;
    }
  }

  /** Whatever a failed `deleteDirectory` leaves of a directory is a
      pruning of it: nothing is added, renamed or reordered. */
  lemma {:induction false} DeletedPrunes(d: Node)
    requires d.Dir?
    requires DeleteDirectory(d).Kept?
    ensures Prunes(DeleteDirectory(d).rest, d)
  {
    var s := SweepEntries(d.children);
    if !s.ok {
      SweepFailureShape(d.children);
    }
  }
}
