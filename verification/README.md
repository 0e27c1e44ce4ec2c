# A verified model of the file-manager API (api.php)

api.php is a single PHP script that serves one directory tree,
`/www/wwwroot/fileserves/wendang`, over HTTP. A GET lists a directory or
delivers a file: as raw text, as a base64 JSON envelope, whole with an
inline `Content-Disposition` (the model calls this outcome `Download`), or
as a 200-pixel thumbnail. `?search=` finds entries by name
anywhere in the tree. POST creates folders and stores uploads, PUT renames
and moves, and DELETE removes files and whole directories. Every handler except
the search first asks `isPathInRoot` whether the request path lies inside
the served root; the search makes no such check and always starts at the
root.

This project models the decision logic of that script in Dafny and proves
what it does. The modules are:

- `PhpBuiltins` (php_builtins.dfy) holds the PHP builtins the script relies
  on: `strpos` as a first-occurrence search, the one-pass `str_replace`,
  ASCII-folding `stripos`, `empty()` on strings (where "0" is empty), and the
  POSIX `dirname` and `basename`.
- `Containment` (containment.dfy) models `isPathInRoot` exactly as written.
  It covers the `realpath` oracle, the fallback normaliser (one `/./` pass,
  then a loop that rewrites the leftmost `/seg/../` to `/` while
  `strpos($p, '/../')` is truthy), and the raw string-prefix verdict. The
  loop has no fuel: every rewrite shortens the string, and a loop that stops
  making progress is reported as `Spins`.
- `Canonical` (canonical.dfy) is the corrected containment check. It
  resolves the path segment by segment and tests for a whole-segment prefix.
- `Names` (names.dfy) is the name pattern shared by createFolder and rename.
- `Thumbnail` (thumbnail.dfy) covers the GD thumbnail size and the
  GD → `convert` → `magick` → original-bytes fallback chain.
- `Negotiation` (negotiation.dfy) is the decision table for a GET on a file.
- `FileTree` (tree.dfy) is an immutable file tree with the directory
  listing, the recursive search and the recursive delete.
- `Handlers` (handlers.dfy) covers the check order of each request handler.
  Containment is a parameter, so every property holds for the code's check
  (`AsWritten`) and for the corrected one (`Fixed`).

Operating-system answers are inputs, never behaviour. These include
`realpath`, `is_writable`, `mime_content_type`, `getimagesize`, GD decoding,
exit codes, `file_exists`, `mkdir`, `rename` and `move_uploaded_file`.

Behaviour of the code worth knowing, all of it modelled as written:

- The name pattern accepts a backslash. It is written in a single-quoted
  PHP string, where `\\` is one backslash, so only `/ : * ? " < > |` are
  refused.
- Containment is a raw string prefix, not a whole-segment prefix.
- A move reports an existing destination (409) before a missing target
  directory (400).
- Search results carry absolute paths, not paths relative to the root.
- A thumbnail request for a file `getimagesize` cannot read is answered with
  400.
- The thumbnail chain does not always end in an image (see Findings).
- The fallback loop stops once the first `/../` is at index 0 or absent, so a later `/../` can remain (Containment.LeadingParentHidesLater); it does not run until no `..` is left.

## Model

| member | source | states |
|---|---|---|
| PhpBuiltins.StrposZeroIffPrefix | api.php:440 | `strpos($s, $p) === 0` holds exactly when `$p` is a raw prefix of `$s` |
| PhpBuiltins.ContainsIffOccurs | api.php:85 | `strpos(...) !== false` holds exactly when the needle occurs at some index |
| PhpBuiltins.FindFrom | api.php:430 | the search returns the first index at or after the start where the needle occurs, and `None` only when it occurs nowhere there |
| PhpBuiltins.ReplaceAllNoOccurrence | api.php:429 | `str_replace` leaves a subject without the search string unchanged |
| PhpBuiltins.DirnameBasenameSplit | api.php:251 | for `d/n` with a slash-free name, `dirname` gives back `d` and `basename` gives back `n` |
| Containment.CollapseOnce | api.php:431 | one `preg_replace(..., 1)` fires exactly when the regex matches somewhere; it then replaces the leftmost `/seg/../` (non-empty, slash-free seg) by `/`, keeps the rest, and strictly shortens the string |
| Containment.RunCollapse | api.php:430-432 | the loop ends with a string no longer than its input; on exit the guard is false, and when it spins the guard is true and the rewrite is the identity |
| Containment.IsPathInRootIsRawPrefix | api.php:416-440 | the verdict is Allowed exactly when the normalised root is a raw prefix of the normalised path, and Hangs exactly when `realpath` failed and the fallback spins |
| Containment.RootIsInRoot | api.php:416-440 | the root itself is accepted |
| Containment.SiblingIsAccepted | api.php:440 | `/data/root-evil/x` is accepted under root `/data/root` |
| Containment.DotSegmentEscapes | api.php:429-432 | `/r/././../x`, whose real location is `/x`, normalises to `/r/x` and is accepted under `/r` |
| Containment.EmptySegmentHangs | api.php:430-432 | for `/r//../x` the loop never ends, so the request hangs |
| Containment.EveryParentAfterSlashSpins | api.php:430-432 | whenever the guard holds and every `/../` follows a `/`, the loop spins |
| Containment.EmptySegmentCanStillExit | api.php:431 | `x//../../` still collapses, to `x//`, because the regex takes `..` for a segment |
| Containment.LeadingParentHidesLater | api.php:430 | a leading `/../` (index 0, falsy) ends the loop while a later `/../` remains |
| Canonical.CanonIsCanonical | api.php:422-433 | the corrected normaliser yields clean segments and is idempotent |
| Canonical.SplitConcat | api.php:422-433 | splitting at `/` distributes over concatenation with a `/` between |
| Canonical.UnderRootIffSegmentPrefix | api.php:440 | for clean segment lists, whole-segment containment of the joined paths is exactly list-prefix |
| Canonical.InRootFixedIffSegmentPrefix | api.php:416-440 | without `realpath`, the corrected check accepts exactly the paths whose resolved segments extend the root's |
| Canonical.FixedAcceptsRoot | api.php:416-440 | the corrected check accepts the root |
| Canonical.FixedRejectsSibling | api.php:440 | the corrected check refuses `/data/root-evil/x` under `/data/root` |
| Canonical.RejectsSiblingOfShortRoot | api.php:440 | the corrected check refuses `/a/r-old` under `/a/r` |
| Canonical.FixedRejectsDotEscape | api.php:429-432 | `/r/././../x` resolves to `/x` and is refused under `/r` |
| Canonical.FixedRejectsEmptySegment | api.php:430-432 | `/r//../x` resolves to `/x` and is refused, with no loop to spin |
| Canonical.FixedAcceptsInnerParent | api.php:430-432 | a `..` that stays inside (`/r/a/../b` gives `/r/b`) is still accepted |
| Names.MatchNamePattern | api.php:196 | the anchored pattern matches exactly the non-empty names free of `/ : * ? " < > \|`, so an accepted name has no `/` |
| Names.LaxNamesAccepted | api.php:196 | a backslash, `.` and `..` pass the name check |
| Names.NamesRejected | api.php:255 | the empty name and names with `/` or `:` fail the name check |
| Thumbnail.Scale | api.php:586 | `intval(short * 200 / long)` is the integer quotient and is at most 200 |
| Thumbnail.ThumbDims | api.php:585-589 | both sides are at most 200, the long side is exactly 200, and the short side is the truncated proportional length |
| Thumbnail.ThumbDimsUnique | api.php:585-589 | these conditions determine the thumbnail size uniquely |
| Thumbnail.ThumbDimsTranspose | api.php:585-589 | swapping a non-square image's sides swaps the thumbnail's sides |
| Thumbnail.SquareFillsBox | api.php:585-589 | a square image of any size gives 200x200 |
| Thumbnail.SmallImageUpscales | api.php:585-589 | a 10x5 image is scaled up to 200x100 |
| Thumbnail.ZeroSideIff | api.php:585-589 | a side is 0 exactly when the long side exceeds 200 times the short side |
| Thumbnail.ExtremeRatioGivesZero | api.php:585-589 | 1000x1 gives 200x0 |
| Thumbnail.ClampedDims | api.php:585-592 | the corrected size has both sides between 1 and 200 and the long side 200 |
| Thumbnail.ClampedDimsAgree | api.php:585-592 | the clamp changes only sizes with a zero side |
| Thumbnail.GdAttempt | api.php:554-592 | GD throws exactly for an unsupported kind or a failed decode; it draws `ThumbDims` of the decoded size (the clamped size with the clamp), and crashes exactly when, without the clamp, a `ThumbDims` side is 0 |
| Thumbnail.ToolAttempt | api.php:618-652 | `convert` always runs and `magick` runs exactly when `convert` exits non-zero; a thumbnail comes out exactly when one of them exits 0 and the temporary file reads back, and it names the last tool run |
| Thumbnail.Chain | api.php:510-551 | tools are started in chain order; GD success or crash ends the chain after GD alone, and a GD image has `ThumbDims` of the decoded size; a tool thumbnail comes from the last tool started |
| Thumbnail.UnreadableIff | api.php:512-518 | the 400 reply comes exactly from a failed `getimagesize`, and then no tool runs |
| Thumbnail.GdTriedIff | api.php:527-535 | GD runs exactly when the image is readable and GD is loaded; a GD image means nothing else ran |
| Thumbnail.ConvertIff | api.php:526-539 | `convert` runs exactly when the image is readable, GD is absent or threw an `Exception`, and `exec` exists |
| Thumbnail.MagickIff | api.php:626-634 | `magick` runs exactly when `convert` ran and exited non-zero |
| Thumbnail.PassthroughIff | api.php:547-550 | the original bytes go out, with the `getimagesize` MIME type and max-age 86400, exactly when the image is readable, GD is absent or threw, and `exec` is unavailable or no tool produced a readable thumbnail (a failed `convert` followed by a failed `magick`, or a successful exit whose temporary file does not read back) |
| Thumbnail.ExtremeRatioCrashes | api.php:585-592 | a 1000x1 JPEG with GD loaded ends in an uncaught error after GD, with no fallback |
| Thumbnail.GenerateFixedNeverCrashes | api.php:510-551 | with clamped sizes the chain never crashes, and it agrees with the code wherever the code does not crash |
| Negotiation.Negotiate | api.php:64-139 | the thumbnail flag yields only a thumbnail or 404; raw text keeps the MIME type and is streamed exactly above 10 MiB; a download carries the MIME type, basename and size; too large means over 50 MiB |
| Negotiation.ThumbnailFlagWins | api.php:66-80 | with the thumbnail flag, the reply is a thumbnail exactly when the MIME type starts with `image/`, and 404 otherwise |
| Negotiation.InlineIff | api.php:84-91 | without the thumbnail flag, the reply is inline exactly when `content` is set or the Accept header contains `application/json`; otherwise it is a download |
| Negotiation.TooLargeIff | api.php:92-100 | 400 too-large happens exactly for non-thumbnail inline requests of more than 50 MiB |
| Negotiation.DownloadIgnoresSize | api.php:126-139 | a download is sent at any size |
| Negotiation.TooLargeMonotone | api.php:96 | a too-large file stays too large when it grows |
| Negotiation.InlineKindIff | api.php:102-125 | inline and within the cap, `text/*`, JSON, JavaScript, XML and PDF get raw text, and every other type gets base64 |
| Negotiation.CapBoundary | api.php:94-96 | exactly 50 MiB is served inline, and one byte more is refused |
| Negotiation.AcceptIsSubstring | api.php:85 | the Accept test is a case-sensitive substring test |
| FileTree.EntryOf | api.php:153-164 | an entry carries the node's name and the given path; it is a directory exactly when the node is; a file carries its size and MIME type, a directory size 0 and no MIME type |
| FileTree.Listing | api.php:143-167 | the listing has no pseudo-entries and at most one entry per item |
| FileTree.ListingConcat | api.php:147-167 | the listing distributes over concatenation and keeps `scandir` order |
| FileTree.ListingOfRealEntries | api.php:147-167 | without pseudo-entries, entry i is exactly item i under its listing path |
| FileTree.ListingMembership | api.php:147-167 | an entry is listed exactly when it comes from a non-pseudo item |
| FileTree.EmptyDirectoryLists | api.php:148 | an empty directory lists as `[]` |
| FileTree.ZeroPathListsBareNames | api.php:151 | the request path "0" is falsy, so its entries get bare names, as at the root |
| FileTree.JoinListingPathSplits | api.php:151 | the corrected listing path splits back by `dirname`/`basename` into the request path and the item, including for "0" |
| FileTree.Walk | api.php:460-507 | the reference pre-order walk never yields a pseudo-entry |
| FileTree.WalkUnder | api.php:476 | every full path the walk reaches starts with `dir + "/"` |
| FileTree.MatchingMultiplicity | api.php:480 | a walked node is kept as often as it was walked if its name matches, and dropped otherwise |
| FileTree.SearchIsFilteredWalk | api.php:460-507 | `searchFiles` is the pre-order walk filtered by the case-insensitive name test: directories are always entered, and a match precedes the matches below it |
| FileTree.SearchDescendsAndIgnoresCase | api.php:480-502 | a non-matching directory is searched, and `B` matches `b` |
| FileTree.ReportedPathIsFull | api.php:477 | without `/var/www/html/` in it, the reported path is the full absolute path |
| FileTree.NestedWebRootMangles | api.php:477 | under a folder chain `var/www/html`, `/r/var/www/html/x` is reported as `/rx` |
| FileTree.RelativePath | api.php:477 | the corrected path `p` satisfies `root + "/" + p == full` |
| FileTree.SearchFixed | api.php:460-507 | the corrected search has one entry per match, in order, whose path is relative to the root |
| FileTree.FixedSearchAgreesWithListing | api.php:151 | for the root's own entries, the corrected search path equals the root listing's path |
| FileTree.Finish | api.php:407-412 | the directory is removed exactly when its loop finished and it is writable |
| FileTree.SweepEntries | api.php:388-405 | `.` and `..` are passed over; a finished loop leaves nothing; a stopped loop leaves a non-empty suffix of the entries, starting at a real entry that may be pruned |
| FileTree.SweepOkIff | api.php:388-405 | the loop finishes exactly when every real entry, and everything below it, is writable |
| FileTree.DeleteIffAllWritable | api.php:383-413 | `deleteDirectory` returns true exactly for a directory whose whole subtree, itself included and pseudo-entries excluded, is writable |
| FileTree.PseudoEntriesIgnoredByDelete | api.php:388 | a directory holding only `.` and `..` lists as empty and is deleted, whatever those entries carry |
| FileTree.SweepFailureShape | api.php:390-405 | on failure, entries before the failing one were all writable and are gone, the failing one is a real entry that is not wholly writable and is pruned, and later entries are untouched |
| FileTree.DeletedPrunes | api.php:383-413 | what a failed delete leaves of a directory is a pruning of it |
| Handlers.Guarded | api.php:57-61 | a denial answers 403, a spinning check never answers, and only an allowed path proceeds |
| Handlers.HandlePut | api.php:236-326 | a rename or move reports 200 and starts from the request path |
| Handlers.RenameCheckOrder | api.php:249-281 | a rename checks the name (400), then the new path's containment (403), then existence (409), then renames |
| Handlers.RenameOnlyWhenChecked | api.php:249-321 | nothing is renamed unless both paths passed the check, the target is free, and (for a rename) the name is valid |
| Handlers.MoveCheckOrder | api.php:285-321 | a move checks containment (403), then existence (409), then the target directory (400), then renames |
| Handlers.MoveToZeroIsRoot | api.php:288-292 | a move target of "0" means the root, as "" does; "00" does not |
| Handlers.DirnameOfRootSlash | api.php:251 | `dirname` of the root with a trailing `/` is the root's parent |
| Handlers.RootWithSlashPasses | api.php:240 | both checks accept the root with a trailing `/` |
| Handlers.SiblingVerdicts | api.php:262 | the code's check accepts the root's sibling `/a/r-old`, and the corrected check refuses it |
| Handlers.RenameMovesRootOut | api.php:236-281 | with root `/a/r`, an empty request path and the name `r-old`, the rename answers 200 and moves `/a/r/` to `/a/r-old`, outside the root |
| Handlers.FixedRefusesRootRename | api.php:262-266 | the corrected check answers that rename with 403 |
| Handlers.HandleDelete | api.php:329-380 | a 200 delete needs an allowed path with something there |
| Handlers.DeleteSucceedsIff | api.php:339-380 | an allowed delete succeeds exactly when the node and everything in it, pseudo-entries aside, are writable |
| Handlers.ReadOnlyDirUntouched | api.php:362-368 | a directory that is not writable is refused before anything in it is touched |
| Handlers.DeleteDirectoryEmptiesReadOnlyDir | api.php:383-412 | `deleteDirectory` alone empties a read-only directory before failing |
| Handlers.HandlePost | api.php:177-233 | a created folder or stored upload lies at the request path plus the given name |
| Handlers.CreateFolderOnlyWhenValid | api.php:190-208 | a folder is created exactly when the path is allowed, the name is valid and `mkdir` succeeds; an invalid name answers 400 |
| Handlers.UploadNeverOverwrites | api.php:212-228 | an upload never replaces an existing file, and an existing name answers 409 |
| Handlers.HandleGet | api.php:53-174 | a listing or file body needs an allowed path with a directory or file there |
| Handlers.GetListsDirectory | api.php:143-169 | for an allowed directory without `.`/`..` children and a path other than "" or "0", the listing has one entry per child, in order, entry i at `path/child_i` |
| Handlers.HandleSearch | api.php:444-450 | the query is refused exactly when it is "" or "0" |
| Handlers.SearchResultsAreMatches | api.php:444-507 | an accepted search returns exactly the matching nodes of the walk, and "0" is refused |

## Left out

- HTTP headers, CORS, the OPTIONS reply, method dispatch, `json_encode` and `date()`. These are output glue. The rule that `?search=` is served before method dispatch is left out with them.
- `realpath`, `mime_content_type`, `getimagesize`, `filesize`, `is_writable`, `file_exists`, `is_dir`, `mkdir`, `rename` and `move_uploaded_file` are inputs. They are answered by the tree or by parameters, not modelled as filesystem behaviour.
- Thumbnail.GdAttempt: GD is assumed built with JPEG, PNG, GIF, BMP and WebP support. A missing `imagecreatefrom*` or `imagejpeg` would throw an `Error` that `catch (Exception $e)` does not catch, ending the script like the zero-side crash; the model treats every decode failure as the caught `Exception`.
- GD pixel work (decoding, resampling, the alpha fill, JPEG encoding), the `exec` subprocess and its temporary file. Only their success or failure is kept.
- `readfile` versus `file_get_contents` is kept only as the `streamed` flag. `base64_encode` (RFC 4648, section 4) is an opaque envelope.
- The thumbnail size is computed in PHP floating point before `intval`. The model uses the exact integer quotient, which agrees for any realistic image size.
- Symbolic links, and with them symlink cycles in `searchFiles`: the tree is acyclic.
- A directory that `opendir` cannot open: every directory in the tree is readable.
- The order of `scandir` (sorted) and `readdir` (unspecified) is the order of a node's children.
- Filesystem nodes other than files and directories: `handleDelete` sends no reply for them.
- `unlink` and `rmdir` are taken to succeed exactly when the node's `writable` flag is set. Real permissions depend on the parent directory.
- A `false` MIME type is treated as the empty string, which behaves the same in every test the script makes.
- PHP's stripping of directory components from an uploaded file's client name.
- Non-string JSON request fields. A missing field is modelled as "".
- The PHP time limit that ends a spinning request is the `Stuck` reply. The status it produces is not modelled. The same goes for the crash of the thumbnail chain.
- Races between a check and the mutation that follows it (time-of-check to time-of-use).
- `stripos` folds ASCII only, as PHP 8.2 and later do. Older locale-dependent folding is not modelled.

## Findings

| source | as written | input that shows it | evidently intended | confidence | as-written member | corrected member |
|---|---|---|---|---|---|---|
| api.php:440 | containment is `strpos($realPath, $realRoot) === 0`, a raw string prefix | root `/data/root`, path `/data/root-evil/x` is accepted | the root followed by `/` (or the root itself) | high, not executed | Containment.SiblingIsAccepted | Canonical.FixedRejectsSibling |
| api.php:429-432 | one `str_replace('/./', '/')` pass leaves `/./` in `/././`, and the loop then lets `.` absorb a `..` | `/r/././../x` (really `/x`) normalises to `/r/x` and is accepted under `/r` | every `.` dropped before any `..` is applied | high, not executed | Containment.DotSegmentEscapes | Canonical.FixedRejectsDotEscape |
| api.php:430-432 | the loop runs while `/../` occurs past index 0, but the regex needs a non-empty segment before it | `/r//../x` (request path `/../x`) makes the loop spin until the time limit | empty segments skipped, so the loop always ends | high, not executed | Containment.EmptySegmentHangs | Canonical.FixedRejectsEmptySegment |
| api.php:477 | search paths are `str_replace('/var/www/html/', '', $fullPath)`, unrelated to the served root | under the root they stay absolute, and a folder chain `var/www/html` turns `/r/var/www/html/x` into `/rx` | paths relative to the served root, as the listing gives | high, not executed | FileTree.NestedWebRootMangles | FileTree.SearchFixed |
| api.php:151 | the listing path tests `$path ?`, and "0" is falsy | listing the directory `0` reports `a` instead of `0/a` | only the empty path means the root | high, not executed | FileTree.ZeroPathListsBareNames | FileTree.JoinListingPathSplits |
| api.php:585-592 | a ratio above 200:1 gives a 0 side; `imagecreatetruecolor` then throws a `ValueError` (PHP 8), which `catch (Exception $e)` does not catch | a 1000x1 JPEG with GD loaded ends the script with an uncaught error, with no fallback and no image | sides of at least 1 pixel, so GD draws or the chain falls back | medium (relies on PHP 8 argument checks), not executed | Thumbnail.ExtremeRatioCrashes | Thumbnail.GenerateFixedNeverCrashes |
| api.php:251-275 | a rename with an empty request path starts from `root/`, whose `dirname` is the root's parent, and the new path is checked only by the raw prefix | root `/a/r`, path "", new name `r-old` renames the root to `/a/r-old` | a rename stays inside the root | high, not executed | Handlers.RenameMovesRootOut | Handlers.FixedRefusesRootRename |
