/**
  The request handlers of api.php, as decisions over their inputs: the
  order in which each one checks containment, names and existence, and
  what it does when every check passes.

  Containment is a parameter, `check`, answering `isPathInRoot` for a
  path: `AsWritten` gives the code's own check and `Fixed` the corrected
  one. The file system enters as the node found at the request path and
  as answers to `file_exists`, `is_dir`, `mkdir`, `rename` and
  `move_uploaded_file`.
 */
module Handlers {
  import opened PhpBuiltins
  import opened Containment
  import Canonical
  import opened Names
  import opened Negotiation
  import opened FileTree

  /** `$rootDir` */
  const RootDir := "/www/wwwroot/fileserves/wendang"

  /** `$rootDir . '/' . $path`, the path every handler starts from. */
  function FullPath(root: string, path: string): string {
    root + "/" + path
  }

  /** `isPathInRoot` as written, for a `realpath` that answers `None` for
      paths that do not exist. */
  function AsWritten(root: string, realpath: string -> Option<string>): string -> Verdict {
    p => IsPathInRoot(p, root, realpath(p), realpath(root))
  }

  /** The corrected containment check. */
  function Fixed(root: string, realpath: string -> Option<string>): string -> Verdict {
    p => if Canonical.InRootFixed(p, root, realpath(p), realpath(root)) then Allowed else Denied
  }

  /** What a mutating request changed. */
  datatype Effect =
    | NoEffect
    | Renamed(from: string, to: string)
    | Created(folder: string)
    | Stored(file: string)
    | Unlinked(file: string)
    | Deleted(dir: string)
    | PartlyDeleted(dir: string, rest: Node)

  /** A reply with its HTTP status, or `Stuck` when the normaliser loop
      spins until the PHP time limit ends the request. */
  datatype Reply = Reply(status: nat, effect: Effect) | Stuck

  /** Runs `next` only when `v` allows it: a denial is 403 and a spinning
      check never answers. */
  function Guarded(v: Verdict, next: Reply): (r: Reply)
    ensures v == Allowed ==> r == next
    ensures v == Denied ==> r == Reply(403, NoEffect)
    ensures v == Hangs ==> r == Stuck
  {
    match v
    case Allowed => next
    case Denied => Reply(403, NoEffect)
    case Hangs => Stuck
  }

  // ---------------------------------------------------------------------
  // PUT: rename and move (api.php:236-326)
  // ---------------------------------------------------------------------

  /** `$input['action']` with its argument; a missing argument is "". */
  datatype PutAction = Rename(newName: string) | Move(targetPath: string) | OtherPut

  /** `$newPath` of a rename: the new name beside the old path. */
  function RenameTarget(full: string, newName: string): string {
    Dirname(full) + "/" + newName
  }

  /** `$newPath` of a move: under the target directory, or directly under
      the root when the target is `empty()`, which "0" is. */
  function MoveTarget(root: string, full: string, target: string): string {
    if Empty(target) then root + "/" + Basename(full)
    else root + "/" + target + "/" + Basename(full)
  }

  /** `handlePut`. */
  function HandlePut(root: string, path: string, action: PutAction, check: string -> Verdict,
                     present: string -> bool, isDir: string -> bool, renameOk: bool): (r: Reply)
    ensures r.Reply? && r.effect.Renamed? ==> r.status == 200 && r.effect.from == FullPath(root, path)
  {
    var full := FullPath(root, path);
    Guarded(check(full),
      match action
      case Rename(newName) =>
        var newPath := RenameTarget(full, newName);
        if !ValidName(newName) then Reply(400, NoEffect)
        else Guarded(check(newPath),
          if present(newPath) then Reply(409, NoEffect)
          else if renameOk then Reply(200, Renamed(full, newPath))
          else Reply(500, NoEffect))
      case Move(target) =>
        var newPath := MoveTarget(root, full, target);
        Guarded(check(newPath),
          if present(newPath) then Reply(409, NoEffect)
          else if !Empty(target) && !isDir(root + "/" + target) then Reply(400, NoEffect)
          else if renameOk then Reply(200, Renamed(full, newPath))
          else Reply(500, NoEffect))
      case OtherPut => Reply(400, NoEffect))
  }

  /** A rename replies in the order name (400), containment of the new path
      (403), existence (409), and renames only when all of them pass. */
  lemma RenameCheckOrder(root: string, path: string, newName: string, check: string -> Verdict,
                         present: string -> bool, isDir: string -> bool, renameOk: bool)
    requires check(FullPath(root, path)) == Allowed
    ensures var full := FullPath(root, path);
      var newPath := RenameTarget(full, newName);
      var r := HandlePut(root, path, Rename(newName), check, present, isDir, renameOk);
      && (r == Reply(400, NoEffect) <==> !ValidName(newName))
      && (r == Reply(403, NoEffect) <==> ValidName(newName) && check(newPath) == Denied)
      && (r == Reply(409, NoEffect) <==> ValidName(newName) && check(newPath) == Allowed && present(newPath))
      && (r == Reply(200, Renamed(full, newPath)) <==>
            ValidName(newName) && check(newPath) == Allowed && !present(newPath) && renameOk)
  {
  }

  /** Nothing is renamed unless both paths passed the check, the name is
      valid and the target is free. */
  lemma RenameOnlyWhenChecked(root: string, path: string, action: PutAction, check: string -> Verdict,
                              present: string -> bool, isDir: string -> bool, renameOk: bool)
    ensures var r := HandlePut(root, path, action, check, present, isDir, renameOk);
      r.Reply? && r.effect.Renamed? ==>
        && check(r.effect.from) == Allowed && check(r.effect.to) == Allowed
        && !present(r.effect.to) && renameOk
        && (action.Rename? ==> ValidName(action.newName) && r.effect.to == RenameTarget(r.effect.from, action.newName))
        && (action.Move? ==> r.effect.to == MoveTarget(root, r.effect.from, action.targetPath))
  {
  }

  /** A move checks containment (403), then existence (409), then that the
      target directory exists (400): an occupied destination is reported
      even when the target directory is missing. */
  lemma MoveCheckOrder(root: string, path: string, target: string, check: string -> Verdict,
                       present: string -> bool, isDir: string -> bool, renameOk: bool)
    requires check(FullPath(root, path)) == Allowed
    ensures var newPath := MoveTarget(root, FullPath(root, path), target);
      var r := HandlePut(root, path, Move(target), check, present, isDir, renameOk);
      && (r == Reply(403, NoEffect) <==> check(newPath) == Denied)
      && (r == Reply(409, NoEffect) <==> check(newPath) == Allowed && present(newPath))
      && (r == Reply(400, NoEffect) <==>
            check(newPath) == Allowed && !present(newPath) && !Empty(target) && !isDir(root + "/" + target))
      && (r.Reply? && r.effect.Renamed? <==>
            check(newPath) == Allowed && !present(newPath) && (Empty(target) || isDir(root + "/" + target)) && renameOk)
  {
  }

  /** A move target of "0" is `empty()` and means the root, as "" does. */
  lemma MoveToZeroIsRoot(root: string, full: string)
    ensures MoveTarget(root, full, "0") == MoveTarget(root, full, "") == root + "/" + Basename(full)
    ensures MoveTarget(root, full, "00") == root + "/00/" + Basename(full)
  {
  }

  /** The realpath answers of a server where only `/a/r` exists. */
  function OnlyRoot(p: string): Option<string> {
    if p == "/a/r" || p == "/a/r/" then Some("/a/r") else None
  }

  lemma DirnameOfRootSlash()
    ensures Dirname("/a/r/") == "/a"
  {
    assert TrimSlashes("/a/r/") == "/a/r";
    assert DropComponent("/a/r") == "/a/";
    assert TrimSlashes("/a/") == "/a";
  }

  /** Both checks accept the root written with a trailing '/'. */
  lemma RootWithSlashPasses()
    ensures AsWritten("/a/r", OnlyRoot)("/a/r/") == Allowed
    ensures Fixed("/a/r", OnlyRoot)("/a/r/") == Allowed
  {
    assert OnlyRoot("/a/r/") == Some("/a/r") && OnlyRoot("/a/r") == Some("/a/r");
    StrposZeroIffPrefix("/a/r", "/a/r");
    assert IsPathInRoot("/a/r/", "/a/r", Some("/a/r"), Some("/a/r")) == Allowed;
    assert Canonical.UnderRoot("/a/r", "/a/r");
    assert Canonical.InRootFixed("/a/r/", "/a/r", Some("/a/r"), Some("/a/r"));
  }

  /** The code's check accepts the sibling "/a/r-old" of the root "/a/r";
      the corrected one refuses it. */
  lemma SiblingVerdicts()
    ensures AsWritten("/a/r", OnlyRoot)("/a/r-old") == Allowed
    ensures Fixed("/a/r", OnlyRoot)("/a/r-old") == Denied
  {
    var p := "/a/r-old";
    assert OnlyRoot(p) == None && OnlyRoot("/a/r") == Some("/a/r");
    assert ReplaceAll(p, DotSegment, "/") == p;
    assert Strpos(p, ParentSegment) == None;
    assert Fallback(p, "/a/r") == Exits(p);
    StrposZeroIffPrefix(p, "/a/r");
    assert IsPathInRoot(p, "/a/r", None, Some("/a/r")) == Allowed;
    Canonical.RejectsSiblingOfShortRoot();
  }

  /** Renaming the root itself: with an empty request path `dirname` steps
      out of the root, and the sibling "/a/r-old" passes the raw prefix
      check, so the whole served tree is moved out of the root. */
  lemma RenameMovesRootOut()
    ensures HandlePut("/a/r", "", Rename("r-old"), AsWritten("/a/r", OnlyRoot), _ => false, _ => false, true)
      == Reply(200, Renamed("/a/r/", "/a/r-old"))
  {
    DirnameOfRootSlash();
    RootWithSlashPasses();
    SiblingVerdicts();
    assert FullPath("/a/r", "") == "/a/r/";
    assert RenameTarget("/a/r/", "r-old") == "/a/r-old";
    assert ValidName("r-old");
  }

  /** The corrected check refuses that rename. */
  lemma FixedRefusesRootRename()
    ensures HandlePut("/a/r", "", Rename("r-old"), Fixed("/a/r", OnlyRoot), _ => false, _ => false, true)
      == Reply(403, NoEffect)
  {
    DirnameOfRootSlash();
    RootWithSlashPasses();
    SiblingVerdicts();
    assert FullPath("/a/r", "") == "/a/r/";
    assert RenameTarget("/a/r/", "r-old") == "/a/r-old";
    assert ValidName("r-old");
  }

  // ---------------------------------------------------------------------
  // DELETE (api.php:329-380)
  // ---------------------------------------------------------------------

  /** `handleDelete`; `target` is the node at the request path, `None` when
      nothing is there. A file is unlinked when it is writable. */
  function HandleDelete(root: string, path: string, check: string -> Verdict, target: Option<Node>): (r: Reply)
    ensures r.Reply? && r.status == 200 ==> target.Some? && check(FullPath(root, path)) == Allowed
  {
    var full := FullPath(root, path);
    Guarded(check(full),
      match target
      case None => Reply(404, NoEffect)
      case Some(File(_, _, _, writable)) =>
        if !writable then Reply(500, NoEffect) else Reply(200, Unlinked(full))
      case Some(d) =>
        if !d.writable then Reply(500, NoEffect)
        else match DeleteDirectory(d)
          case Removed => Reply(200, Deleted(full))
          case Kept(rest) => Reply(500, PartlyDeleted(full, rest)))
  }

  /** A permitted delete succeeds exactly when the node and everything in
      it are writable. */
  lemma DeleteSucceedsIff(root: string, path: string, check: string -> Verdict, n: Node)
    requires check(FullPath(root, path)) == Allowed
    ensures HandleDelete(root, path, check, Some(n)).status == 200 <==> TreeWritable(n)
  {
    DeleteIffAllWritable(n);
  }

  /** A directory that is not itself writable is refused before anything
      in it is touched. */
  lemma ReadOnlyDirUntouched(root: string, path: string, check: string -> Verdict, name: string, children: seq<Node>)
    requires check(FullPath(root, path)) == Allowed
    ensures HandleDelete(root, path, check, Some(Dir(name, false, children))) == Reply(500, NoEffect)
  {
  }

  /** `deleteDirectory` alone, by contrast, empties such a directory first
      and fails only at the end. */
  lemma DeleteDirectoryEmptiesReadOnlyDir()
    ensures DeleteDirectory(Dir("d", false, [File("f", 1, "text/plain", true)])) == Kept(Dir("d", false, []))
  {
    assert [File("f", 1, "text/plain", true)][1..] == [];
  }

  // ---------------------------------------------------------------------
  // POST: create a folder or store an upload (api.php:177-233)
  // ---------------------------------------------------------------------

  /** `createFolder` with its name, an upload with the client file name, or
      neither. */
  datatype PostAction = CreateFolder(name: string) | Upload(fileName: string) | OtherPost

  /** `handlePost`; `mkdirOk` and `moveOk` are what `mkdir` and
      `move_uploaded_file` return. The folder name is checked; the upload
      name is not, and neither new path is checked for containment. */
  function HandlePost(root: string, path: string, action: PostAction, check: string -> Verdict,
                      present: string -> bool, mkdirOk: bool, moveOk: bool): (r: Reply)
    ensures r.Reply? && r.effect.Created? ==>
      action.CreateFolder? && r.effect.folder == FullPath(root, path) + "/" + action.name
    ensures r.Reply? && r.effect.Stored? ==>
      action.Upload? && r.effect.file == FullPath(root, path) + "/" + action.fileName
  {
    var full := FullPath(root, path);
    Guarded(check(full),
      match action
      case CreateFolder(name) =>
        if !ValidName(name) then Reply(400, NoEffect)
        else if mkdirOk then Reply(200, Created(full + "/" + name))
        else Reply(500, NoEffect)
      case Upload(fileName) =>
        var target := full + "/" + fileName;
        if present(target) then Reply(409, NoEffect)
        else if moveOk then Reply(200, Stored(target))
        else Reply(500, NoEffect)
      case OtherPost => Reply(400, NoEffect))
  }

  /** A folder is created only inside a permitted directory and under a
      valid name; `.` and `..` are valid names, so the new path need not
      lie below the directory. */
  lemma CreateFolderOnlyWhenValid(root: string, path: string, name: string, check: string -> Verdict,
                                  present: string -> bool, mkdirOk: bool, moveOk: bool)
    ensures var r := HandlePost(root, path, CreateFolder(name), check, present, mkdirOk, moveOk);
      r.Reply? && r.effect.Created? <==> check(FullPath(root, path)) == Allowed && ValidName(name) && mkdirOk
    ensures var r := HandlePost(root, path, CreateFolder(name), check, present, mkdirOk, moveOk);
      r == Reply(400, NoEffect) <==> check(FullPath(root, path)) == Allowed && !ValidName(name)
  {
  }

  /** An upload never replaces an existing file. */
  lemma UploadNeverOverwrites(root: string, path: string, fileName: string, check: string -> Verdict,
                              present: string -> bool, mkdirOk: bool, moveOk: bool)
    ensures var r := HandlePost(root, path, Upload(fileName), check, present, mkdirOk, moveOk);
      r.Reply? && r.effect.Stored? ==> !present(r.effect.file) && check(FullPath(root, path)) == Allowed
    ensures present(FullPath(root, path) + "/" + fileName) && check(FullPath(root, path)) == Allowed ==>
      HandlePost(root, path, Upload(fileName), check, present, mkdirOk, moveOk) == Reply(409, NoEffect)
  {
  }

  // ---------------------------------------------------------------------
  // GET and search (api.php:53-174, 444-457)
  // ---------------------------------------------------------------------

  datatype GetReply =
    | GetStuck
    | GetStatus(status: nat)
    | FileBody(reply: FileReply)
    | ListBody(entries: seq<Entry>)

  /** The request's flags and Accept header. */
  datatype GetFlags = GetFlags(thumbnail: bool, content: bool, accept: string)

  /** `handleGet`: the node at the request path decides between the file
      reply, the listing and 404. */
  function HandleGet(root: string, path: string, check: string -> Verdict, target: Option<Node>, flags: GetFlags): (r: GetReply)
    ensures r.ListBody? ==> target.Some? && target.value.Dir? && check(FullPath(root, path)) == Allowed
    ensures r.FileBody? ==> target.Some? && target.value.File? && check(FullPath(root, path)) == Allowed
  {
    var full := FullPath(root, path);
    match check(full)
    case Hangs => GetStuck
    case Denied => GetStatus(403)
    case Allowed =>
      match target
      case None => GetStatus(404)
      case Some(File(_, size, mime, _)) =>
        FileBody(Negotiate(flags.thumbnail, flags.content, flags.accept, size, mime, full))
      case Some(Dir(_, _, children)) => ListBody(Listing(path, children))
  }

  /** A permitted GET on a directory lists each real entry once, in order,
      under the request path. */
  lemma GetListsDirectory(root: string, path: string, check: string -> Verdict, name: string, w: bool,
                          children: seq<Node>, flags: GetFlags)
    requires check(FullPath(root, path)) == Allowed
    requires forall i :: 0 <= i < |children| ==> !Skipped(children[i].name)
    requires path != "" && path != "0"
    ensures var r := HandleGet(root, path, check, Some(Dir(name, w, children)), flags);
      r.ListBody? && |r.entries| == |children| &&
      forall i :: 0 <= i < |children| ==> r.entries[i].path == path + "/" + children[i].name
  {
    ListingOfRealEntries(path, children);
  }

  datatype SearchReply = EmptyQuery | Results(entries: seq<Entry>)

  /** `handleSearch`: the whole tree under the root is searched, after the
      `empty()` test on the query. */
  function HandleSearch(root: string, rootItems: seq<Node>, query: string): (r: SearchReply)
    ensures r.EmptyQuery? <==> query == "" || query == "0"
  {
    if Empty(query) then EmptyQuery else Results(SearchFiles(root, rootItems, query))
  }

  /** An accepted search returns exactly the matching nodes of the
      pre-order walk; "0" is refused like the empty query. */
  lemma SearchResultsAreMatches(root: string, rootItems: seq<Node>, query: string)
    ensures !Empty(query) ==>
      HandleSearch(root, rootItems, query) == Results(Report(Matching(Walk(root, rootItems), query)))
    ensures HandleSearch(root, rootItems, "0") == EmptyQuery
  {
    SearchIsFilteredWalk(root, rootItems, query);
  }
}
