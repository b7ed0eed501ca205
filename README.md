# tribe-draw: the draw server's state machine and rules, in Dafny

`server.js` is a small Express server for a clan-vs-clan prize draw.

- An uploaded spreadsheet sets two clans, each with a tag and members.
- Their members form a pool of entries, and an admin draws winners from that pool.
- Screenshots of past winners are uploaded, listed and deleted through a directory on disk.

The model covers:

- **the in-memory `state` record** (`Roster.State`): a class with the four fields `clanA`, `clanB`, `pool` and `winners`. Its methods are the roster import loop, the draw, and the two resets.
- **the role gates**: `requireRole` and the upload route's inline check (`Auth`).
- **the screenshot rules**:
  - the multipart filter and size limit, and the stored name (`Screenshots`);
  - Node's `path.join` and `path.extname`, and the string-prefix check the delete route uses (`Paths`);
  - the gallery's filter and sort pipeline (`Gallery`);
  - the directory as a map from absolute paths to nodes (`Screenshots.Archive`).
- **the routes** (`Server`): each one chains its gate and its handler in the order the middleware runs. Each returns an `Http.Response`.

Supporting modules:

- `Cells` models spreadsheet cells with JavaScript truthiness: `""`, `0` and a missing cell are falsy.
- `Text` models ASCII case folding and decimal numerals.
- `Wrappers` holds `Option`, `Min` and `Max`.

Other inputs are parameters rather than parts of the model:

- the random sort is a permutation `perm` of the pool's positions;
- `Date.now()` is `now`;
- the order the directory read returns is `order`;
- an unlink failure raised by the OS is `failure`.

Some behaviours of the code are easy to miss, and the model keeps each of them as written:

- **An empty spreadsheet throws.** The import reads `rows[0][0]` before it assigns anything (server.js:84). With no rows that read raises a TypeError, so nothing changes and no count is sent (`Roster.State.Import`, `Server.PostUpload`).
- **Rejected screenshots answer 500.** The mime-type filter and the 10 MiB limit raise their errors inside the multipart parser (server.js:127-137). No route code catches them, so Express's default handler answers with status 500 (`Http.Crash`, `Screenshots.Archive.Store`).
- **An absolute name stays inside.** The delete route joins the directory and the name with `path.join` (server.js:167). That call does not restart at an argument that begins with `/`, so `/etc/passwd` names a file inside the screenshots directory (`Paths.AbsoluteNameLandsInside`).
- **The prefix check lets a sibling through.** The comment at server.js:169 says only files in the screenshots folder may be deleted. The test at server.js:170 compares strings, so a path in a sibling directory whose name starts with `screenshots`, such as `screenshotsX`, passes it (`Paths.SiblingPassesCheck`).

## Model

| member | source | states |
|---|---|---|
| Cells.Truthy | server.js:90-91 | defines the `if (rows[i][k])` test: an absent cell, the empty string and 0 are falsy, every other cell is truthy |
| Roster.Tagged | server.js:94-95 | `members.map(n => ({ n, c: tag }))`: one entry per member, and an entry occurs exactly when it carries the tag and a member's name |
| Roster.Pool | server.js:94-95 | the pool has one entry per member: clan A's members tagged with A's tag, in order, then clan B's, in order; an entry occurs exactly when it is a member of a clan paired with that clan's tag |
| Roster.Column | server.js:89-92 | the collected members are truthy and at most one per later row |
| Roster.ColumnSnoc | server.js:89-92 | one more row appends its cell exactly when the cell is truthy |
| Roster.ColumnStep | server.js:89-92 | row i extends the column collected from the rows before it by its truthy cell |
| Roster.ColumnMembership | server.js:89-92 | a cell is a member exactly when it is truthy and sits in the column of some later row |
| Roster.EffectiveCount | server.js:105 | the count is at least 1; it is 20 when absent or 0, 1 when negative, and the value itself when positive |
| Roster.SelectSubBag | server.js:106-107 | entries drawn at distinct pool positions form a sub-multiset of the pool |
| Roster.ShufflePermutes | server.js:106 | the reordered pool is a permutation of the pool |
| Roster.Winners | server.js:105-107 | the winners number min(effective count, pool size); they sit at distinct pool positions, are a sub-multiset of the pool, and are the first entries of the reordered pool |
| Roster.BodyColumn | server.js:89-92 | a cell is collected from a column exactly when it is truthy and stands in that column of some row after the header |
| Roster.AfterImport | server.js:84-97 | the imported record's tags come from row 0; a cell is a member of clan A (B) exactly when it is truthy and stands in column 0 (1) of some row after the header, with rows kept in order; the pool has one entry per member, at most two per row after the header, and there are no winners |
| Roster.ImportExample | server.js:84-95 | rows Red/Blue, alice/bob, carol/"" give A = Red [alice, carol], B = Blue [bob], and a pool of 3 |
| Roster.State.constructor | server.js:30-35 | the record starts with two empty clans with tag "", an empty pool and no winners |
| Roster.State.Import | server.js:84-100 | with no rows nothing changes and the read of rows[0] fails; otherwise the record becomes the imported record of `Roster.AfterImport` (both clans replaced from the rows, the pool rebuilt, the winners cleared) and the pool size is returned |
| Roster.State.AddRow | server.js:90-91 | each clan gains the row's cell in its column exactly when that cell is truthy; pool and winners are untouched |
| Roster.State.Draw | server.js:105-108 | only the winners change; they are the winners of the permuted pool for the effective count, and the invariant that they sit at distinct pool positions is kept |
| Roster.State.ClearWinners | server.js:113 | the winners become empty and nothing else changes |
| Roster.State.ClearList | server.js:119-122 | the record is the initial record again, whatever it held |
| Auth.HasRole | server.js:44-51 | the gate passes exactly when a user is logged in whose role is exactly the required role |
| Auth.MayImport | server.js:77-78 | the upload gate passes exactly for a logged-in admin or uploader |
| Auth.GateOrder | server.js:77-78 | an admin may import; an uploader may import but not draw; nobody logged in passes no gate |
| Text.NatToDecimal | server.js:143 | the clock's text is non-empty, all digits, and has no leading zero except for 0 itself |
| Text.DecimalRoundTrip | server.js:143 | reading the clock's digits back gives the clock |
| Text.LowerIdempotent | server.js:153 | folding the case twice is folding it once |
| Paths.ScreenshotsDir | server.js:25 | `path.join(__dirname, "public", "screenshots")`: a non-empty plain path whose last segment is `screenshots` |
| Paths.Split | server.js:167 | splitting at "/" gives at least one piece and no piece holds a "/" |
| Paths.SplitConcat | server.js:167 | splitting at an inserted "/" splits the two sides independently |
| Paths.Resolve | server.js:167 | normalisation yields plain segments: no empty, ".", ".." or slashed segment |
| Paths.ResolveAppend | server.js:167 | normalising a concatenation is normalising the second part from where the first ended |
| Paths.Join | server.js:167 | the joined path is the directory's segments with the normalised name appended, keeping a trailing "/"; an empty name gives the directory |
| Paths.RenderPrefix | server.js:170 | the directory's string is a prefix of the joined string exactly when the joined segments agree with the directory except for the last one, which need only start with the directory's last segment |
| Paths.PassesPrefixCheck | server.js:170 | defines `filepath.startsWith(screenshotsDir)` on the rendered strings of the joined path and the directory |
| Paths.PrefixCheckMeaning | server.js:170 | the delete route's string check, stated on the joined segments |
| Paths.PlainNameStaysInside | server.js:167-172 | a plain file name joins to the directory plus that name and passes the check |
| Paths.TraversalIsRefused | server.js:167-172 | a name that climbs two levels, such as "../../etc/passwd", resolves outside the directory and is refused |
| Paths.SiblingPassesCheck | server.js:170 | "../screenshotsX/file" resolves outside the directory yet passes the string check |
| Paths.AbsoluteNameLandsInside | server.js:167 | "/" + x + "/" + y, such as "/etc/passwd", resolves to a path inside the directory and passes the check |
| Paths.ExtName | server.js:142 | the extension is empty or a dot followed by dot-free, slash-free text; it is a proper suffix of the base name |
| Paths.ExtNameOfDotted | server.js:142 | a stem, a dot and dot-free text have that dot and text as their extension |
| Paths.ExtNameNoDot | server.js:142 | a name with no dot has no extension |
| Gallery.IsImageName | server.js:153 | defines the case-insensitive pattern test for a name ending in .jpg, .jpeg, .png, .gif or .webp: the name, folded to lower case, ends with one of the five extensions |
| Gallery.ImageNameIgnoresCase | server.js:153 | changing the letter case of a name does not change whether it is listed |
| Gallery.DottedNameListed | server.js:153 | a dot-free stem plus a single-dotted extension is listed exactly when the extension folds to one of .jpg .jpeg .png .gif .webp |
| Gallery.Images | server.js:152-153 | the filter keeps exactly the names that end in an image extension in any letter case |
| Gallery.ImagesAppend | server.js:153 | the filter keeps the directory order |
| Gallery.Insert | server.js:154-158 | one insertion step adds exactly one name to the names |
| Gallery.InsertSorted | server.js:154-158 | inserting into a newest-first sequence keeps it newest first |
| Gallery.SortNewestFirst | server.js:154-158 | the sort's result is a permutation of its input |
| Gallery.SortIsSorted | server.js:154-158 | the sort's result has non-increasing modification times |
| Gallery.ListScreenshots | server.js:151-162 | every listed name is an image name from the directory; an unreadable directory gives the empty list |
| Gallery.ListingCorrect | server.js:152-159 | when nothing throws, the listing holds the image names with the same multiplicities, exactly the directory's image names, newest first |
| Gallery.StatFailureEmptiesListing | server.js:154-161 | when one of at least two images cannot be stat-ed, the listing is empty |
| Screenshots.IsImageMime | server.js:131 | defines the filter's test `file.mimetype.startsWith('image/')` |
| Screenshots.Rejection | server.js:127-137 | a part is let through exactly when it is in the "screenshot" field, its mimetype starts with "image/", and it is at most 10 MiB; otherwise the filter's or the limit's error is raised |
| Screenshots.StoredName | server.js:142-143 | defines the template `winner-${Date.now()}${ext}` with the clock's decimal digits and the original's extension; its properties are stated by the lemmas below |
| Screenshots.StoredNameParts | server.js:142-143 | the stored name starts with "winner-", then holds digits that read back as the clock, then ends with the original extension; it is one plain path segment |
| Screenshots.StoredNameKeepsExtension | server.js:142-143 | the stored name's extension is the original name's extension |
| Screenshots.StoredNameListed | server.js:143 | a stored screenshot is listed exactly when its original extension is an image extension in some case |
| Screenshots.Archive.constructor | server.js:25-28 | the directory exists after start-up; it is created only when missing |
| Screenshots.Archive.Target | server.js:144 | `path.join(screenshotsDir, newName)`: one plain segment, starting with "winner-", directly inside the directory |
| Screenshots.Archive.Store | server.js:139-147 | no file gives 400; a rejected part raises the parser's error; a directory at the target fails the rename; otherwise exactly the target path becomes a file and the stored name is returned; the directory always survives |
| Screenshots.Archive.PutFile | server.js:146 | the target path becomes a file with the given time, and the directory survives |
| Screenshots.Archive.Delete | server.js:165-183 | a failed prefix check is Forbidden before any lookup; an absent path is 404; a directory or an OS failure is 500 with the error text; only a successful unlink removes exactly the joined path; nothing else changes, and the directory survives |
| Screenshots.Archive.List | server.js:150-163 | the listing holds exactly the directory's image entries, newest first |
| Http.Status | server.js:171-182 | success answers 200, and the route's own failures and unhandled errors answer 500 |
| Server.GetState | server.js:69-71 | the whole record is returned to anyone |
| Server.PostUpload | server.js:76-101 | a part in the wrong field fails before the gate; without the admin or uploader role it is Forbidden and unchanged; a missing file or empty sheet throws with no change; otherwise the record becomes the imported record and the pool size is returned |
| Server.PostDraw | server.js:104-109 | a non-admin is Forbidden and nothing changes; an admin's draw changes only the winners |
| Server.PostClearWinners | server.js:112-115 | a non-admin is Forbidden and nothing changes; otherwise only the winners are cleared |
| Server.PostClearList | server.js:118-124 | a non-admin is Forbidden and nothing changes; otherwise the record is reset |
| Server.PostUploadScreenshot | server.js:139-148 | the admin gate runs before the parser: a non-admin is Forbidden with no file stored |
| Server.GetScreenshots | server.js:150-163 | anyone gets the image entries, newest first |
| Server.DeleteScreenshot | server.js:165-184 | a non-admin or a failed prefix check is Forbidden with nothing removed; at most the joined path is removed |

## Left out

- Login, logout, the user table and bcrypt hashing (server.js:38-41, 53-67) are foreign calls. Each gate receives the session's user as already resolved, or None.
- Express routing and redirects, static serving, `app.listen` and the body parsers are framework plumbing.
- XLSX parsing is a foreign library. The upload route receives the rows of the first sheet. A file XLSX cannot read, a workbook with no sheet, and boolean or date cells are not modelled. A number cell is an integer (`Cells.Cell.Number`), so a fractional cell such as 1.5 is not modelled either.
- Multer's temporary files are real I/O: the roster upload's file in `uploads/` and the screenshot's temporary name. The file the roster route leaves behind when it refuses a request is therefore not modelled. Neither is the screenshot's temporary file that stays in the screenshots directory when the rename fails: in that case `Screenshots.Archive.Store` leaves the filesystem map unchanged. Nor is the part of the rename error message that names the temporary path.
- `Math.random` is replaced by the permutation parameter. The comparator `0.5 - Math.random()` does not give a uniform shuffle, and that bias is not modelled.
- `Date.now()` is replaced by a non-negative parameter. A stored file's modification time is taken to be that same clock value.
- `Number()` coercion of the request's `count` is floating-point semantics. That covers strings such as "5", NaN and fractional counts, and the fact that the string "0" is truthy and so becomes 1, not 20. The count is modelled as an optional integer.
- Gallery.SortNewestFirst: the comparator sort is modelled as a stable insertion sort, and ties are proved neither to keep directory order nor to follow it.
- Screenshots.Archive.List: a failing directory read comes only from `Gallery.ListScreenshots(Unreadable)`. The archive itself always holds its directory, so its listing never fails. The same goes for a stat failure racing the read.
- Screenshots.Archive.Delete: the OS failure of an unlink is a parameter. Permission errors, busy files, null bytes in names and URI-decoding errors of the route parameter are not told apart.
- Screenshots.Archive: the filesystem is a flat map from absolute paths to nodes. Creating parent directories, and keeping parents consistent with their children, are not modelled.
- The gallery's `/i` pattern is modelled by ASCII case folding. Under a non-Unicode pattern no other character folds onto these letters.
- Concurrency of requests is out of scope. The routes run one at a time.
