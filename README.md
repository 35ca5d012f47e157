# Static file server: the request decision, verified

`serve.js` is a small Node static file server. For each request it decides
on exactly one response:

- `405 Method Not Allowed` for any method other than `GET`;
- `403 Forbidden` when the resolved file path does not start with the server
  root `ROOT` (the script's own directory, `__dirname`);
- `404 Not Found` when `fs.stat` fails or finds no regular file;
- `200` with a content type taken from the file's extension.

It builds the file path in five steps. It cuts the URL at the first `?`. It
maps `/` to `/index.html`. It applies POSIX `path.normalize`. It strips leading
`../` or `..\` steps with the regular expression `^(\.\.[\/\\])+`. Then it
applies `path.join(ROOT, …)`.

This project models that decision as pure Dafny functions and proves its
properties as lemmas. There are four modules:

- `PosixPath` (`posix_path.dfy`) models the three routines of Node's POSIX
  `path` module that the handler calls:
  - `Normalize` resolves segments on a stack, as Node's `normalizeString`
    does. Empty and `.` segments vanish. A `..` drops the last name. When
    nothing is left to drop, a relative path keeps the `..` and an absolute
    path drops it. A trailing separator is kept.
  - `Join` skips empty arguments and normalizes; it gives `.` when both
    arguments are empty.
  - `ExtName` looks at the last segment after trailing `/` are trimmed. The
    extension runs from that segment's last dot. It is empty when the segment
    has no dot, when the dot is its first character, or when the segment is
    `..`.
- `Mime` (`mime.dfy`) holds the extension table and the case-insensitive
  lookup with the `application/octet-stream` default.
- `Serve` (`serve.dfy`) holds the pipeline itself (`BeforeQuery`,
  `RequestPath`, `StripParentSteps`, `SafePath`, `FilePath`, `ContentTypeOf`)
  and `Handle`, the decision for one request. The file system is a parameter
  `isRegularFile: string -> bool`: true exactly when `fs.stat` succeeds and
  reports a regular file. `ROOT` is the parameter `root`.
- `Containment` (`containment.dfy`) covers what the sanitizing steps and the
  prefix check achieve together. It assumes a root of the form `__dirname`
  has (`ValidRoot`): absolute, normalized, no trailing `/`, and not `/`
  itself.

The main results, for a valid root:

- A `GET` is refused with 403 exactly when its sanitized path is the bare
  `..`. The regular expression cannot strip that path, because it needs a
  separator after `..`.
- Every path that passes the prefix check is the root itself or lies under
  `root + "/"`. The check itself is kept as the plain string prefix the code
  uses. `PrefixCheckAcceptsSibling` shows that the check alone would admit
  `/srv/wwwevil/…` for the root `/srv/www`. `ServedInsideRoot` shows that the
  normalize, strip and join steps never produce such a path.

Two details of the code:

- For `/` the code substitutes `/index.html`; `join` then gives
  `root + "/index.html"`.
- The regular expression strips `..\` as well as `../`; `\` is an ordinary
  character in a POSIX path.

## Model

| member | source | states |
|---|---|---|
| Mime.TypesKeys | serve.js:8-20 | every table key is a dot followed by lower-case letters, and the lookup finds each entry under its own key |
| Mime.ContentType | serve.js:45 | definition; properties in `Mime.ContentTypeIgnoresCase`, `Mime.ContentTypeDefault`, `Mime.JpegSpellings` and `Mime.TypesKeys` |
| Mime.Lower | serve.js:44 | the result has the input's length, and each character is lower-cased (ASCII letters) |
| Mime.LowerIdempotent | serve.js:44 | lower-casing twice is the same as lower-casing once |
| Mime.ContentTypeIgnoresCase | serve.js:44-45 | an extension gets the same content type as its lower-case form |
| Mime.ContentTypeDefault | serve.js:45 | `application/octet-stream` is given exactly when the lower-cased extension has no table entry |
| Mime.JpegSpellings | serve.js:14-15 | `image/jpeg` is given exactly for `.jpg` and `.jpeg`, in any letter case |
| Mime.HtmlType | serve.js:9 | `.html` gives `text/html` |
| Mime.UpperCaseExtensions | serve.js:44-45 | `.PNG` gives `image/png`, `.JPEG` gives `image/jpeg`, and `.Html` gives `text/html` |
| Mime.UnknownExtensions | serve.js:45 | `.bin` and the empty extension get the default type |
| PosixPath.Split | serve.js:34 | a path splits into at least one segment, and no segment holds a `/` |
| PosixPath.JoinSplit | serve.js:34 | joining a path's segments with `/` gives the path back |
| PosixPath.SplitConcat | serve.js:35 | the segments of `a + "/" + b` are those of `a` followed by those of `b` |
| PosixPath.SplitJoin | serve.js:34 | separator-free segments are recovered from their joined text |
| PosixPath.Step | serve.js:34 | definition; properties in `PosixPath.StepValid` and `PosixPath.ResolveValid` |
| PosixPath.Resolve | serve.js:34 | definition; properties in `PosixPath.ResolveValid`, `PosixPath.ResolveWithoutParents`, `PosixPath.ResolveKeepsValid` and `PosixPath.ResolveAppend` |
| PosixPath.StepValid | serve.js:34 | one step keeps the stack valid: names only, `..` only at the front, and no `..` when the path may not climb |
| PosixPath.ResolveAppend | serve.js:34 | resolving `a + b` is resolving `a`, then `b` from where `a` left the stack |
| PosixPath.ResolveValid | serve.js:34 | resolving keeps the stack valid: names only, `..` only at the front, and no `..` for an absolute path |
| PosixPath.ResolveWithoutParents | serve.js:34 | without `..`, resolving keeps exactly the names and drops empty and `.` segments |
| PosixPath.ResolveKeepsValid | serve.js:34 | resolving segments that already are a valid stack changes nothing |
| PosixPath.Normalize | serve.js:34 | `path.normalize` never returns the empty string |
| PosixPath.NormalizeShape | serve.js:34 | the result is absolute exactly when the input is; every `..` comes first; an absolute result has no `..` |
| PosixPath.NormalizeIdempotent | serve.js:34 | normalizing twice gives the same as normalizing once |
| PosixPath.NormalizeDropsParentOfRoot | serve.js:34 | a `..` directly under `/` is dropped: `/../q` normalizes as `/q` does |
| PosixPath.Join | serve.js:35 | `path.join` never returns the empty string |
| PosixPath.TrimTrailingSeparators | serve.js:44 | the result is a prefix that does not end in `/`, and only `/` characters were removed |
| PosixPath.LastSegment | serve.js:44 | the result is a suffix without `/`, and it is preceded by a `/` or starts the text |
| PosixPath.LastDot | serve.js:44 | the result is -1 or the index of a `.`, and no `.` follows it |
| PosixPath.SegmentExtension | serve.js:44 | the extension is empty or a proper suffix that starts with its only dot |
| PosixPath.ExtName | serve.js:44 | `path.extname` is empty, or a proper suffix of the path with trailing `/` removed that is a `.` followed by text with no `.` and no `/` |
| PosixPath.ExtNameOfDotlessName | serve.js:44 | a last segment (trailing `/` ignored) without a `.` has no extension |
| PosixPath.ExtNameOfFile | serve.js:44 | the name `stem.e` under any directory has extension `.e` |
| PosixPath.ExtNameOfHiddenFile | serve.js:44 | a name whose only dot is its first character has no extension |
| PosixPath.ExtNameIgnoresTrailingSeparator | serve.js:44 | a trailing `/` does not change the extension |
| Serve.Handle | serve.js:22-54 | definition; properties in `Serve.MethodCheck`, `Serve.ContainmentCheck`, `Serve.StatDecides`, `Containment.ForbiddenExactlyBareParent` and `Containment.ServedInsideRoot` |
| Serve.Respond | serve.js:38-54 | definition; properties in `Serve.ContainmentCheck`, `Serve.StatDecides` and `Serve.OracleOnlyDecidesExistence` |
| Serve.RequestPath | serve.js:30-31 | definition; properties in `Serve.RequestPathDecides` and `Serve.IndexSubstitution` |
| Serve.SafePath | serve.js:34 | definition; properties in `Serve.SafePathStripped`, `Containment.SafePathShape` and `Serve.SafePathDecides` |
| Serve.FilePath | serve.js:35 | definition; properties in `Containment.JoinPassesCheckUnlessParent` and `Containment.ServedInsideRoot` |
| Serve.ContentTypeOf | serve.js:44-45 | definition; properties in `Serve.ServedContentType` and `Containment.IndexIsHtml` |
| Serve.StartsWith | serve.js:38 | definition (`prefix <= s`); properties in `Serve.ContainmentCheck` and `Containment.PrefixCheckAcceptsSibling` |
| Serve.BeforeQuery | serve.js:30 | the result is a prefix of the URL with no `?`, and the URL either ends there or continues with `?` |
| Serve.BeforeQueryOfQuery | serve.js:30 | appending `"?" + query` to a URL does not change the part before the query |
| Serve.BeforeQueryPrefix | serve.js:30 | a prefix without `?` is kept in front of the cut |
| Serve.StripParentSteps | serve.js:34 | the result is a suffix, everything removed before it is made of `../` or `..\` steps, and it does not itself start with such a step |
| Serve.SafePathStripped | serve.js:34 | the sanitized path never starts with `../` or `..\`, and the normalized path is the removed steps followed by it |
| Serve.MethodCheck | serve.js:23-27 | the result is 405 exactly when the method is not `GET`, and then the URL, the root and the file system play no part |
| Serve.RequestPathDecides | serve.js:30-35 | two URLs with the same requested path are decided alike |
| Serve.SafePathDecides | serve.js:34-35 | two URLs with the same sanitized path are decided alike |
| Serve.QueryIgnored | serve.js:30 | two URLs that agree up to their first `?` are decided alike |
| Serve.QueryAppendIgnored | serve.js:30 | appending a query to a URL changes nothing |
| Serve.BeforeQueryWithoutQuery | serve.js:30 | a URL without `?` is its own path |
| Serve.IndexSubstitution | serve.js:31 | a URL whose path is `/` is decided exactly as `/index.html` is |
| Serve.ClimbAboveRootIgnored | serve.js:30-35 | putting `/..` in front of an absolute URL, other than `/`, changes nothing |
| Serve.ContainmentCheck | serve.js:38-42 | a `GET` is 403 exactly when the joined path does not start with the root, and every 404 and 200 passed that check |
| Serve.StatDecides | serve.js:47-54 | past the check, the result is 404 exactly when the path is not a regular file, and otherwise 200 with that file and its extension's type |
| Serve.ServedContentType | serve.js:44-54 | a served file's type is the table entry for its case-folded extension; it is the default exactly when there is no entry, and otherwise a table value |
| Serve.OracleOnlyDecidesExistence | serve.js:44-54 | a different file system can only turn 404 into 200 or back, and never changes a 405, a 403 or the type of a 200 |
| Serve.ResponseShapes | serve.js:24-54 | 405, 403 and 404 are sent as `text/plain`, and 200 is sent with the computed type and the file's contents |
| Containment.StripKeepsShape | serve.js:34 | stripping a path whose `..` segments all come first leaves the bare `..` or a path without `..` |
| Containment.SafePathShape | serve.js:34 | the sanitized path is the bare `..` or has no `..` segment |
| Containment.ValidRootNormalized | serve.js:6 | a valid root is its own normal form |
| Containment.JoinUnderRoot | serve.js:35 | a non-empty path without `..`, joined onto the root, is the root, then `/` and the path's names, then its trailing `/` if any |
| Containment.JoinStaysInside | serve.js:35 | a path without `..`, joined onto the root, is the root or lies under `root + "/"` |
| Containment.JoinParentLeaves | serve.js:35-38 | `..` joined onto the root is shorter than the root and fails the prefix check |
| Containment.JoinPassesCheckUnlessParent | serve.js:35-38 | a sanitized path passes the prefix check exactly when it is not `..`, and then it lies inside the root |
| Containment.ForbiddenExactlyBareParent | serve.js:34-42 | a `GET` is 403 exactly when its sanitized path is the bare `..` |
| Containment.ServedInsideRoot | serve.js:34-54 | every 404 or 200 path, and every file served, is the root or lies under `root + "/"` |
| Containment.PrefixCheckAcceptsSibling | serve.js:38 | the plain prefix test accepts `/srv/wwwevil/secret` for the root `/srv/www`, which `root + "/"` would not |
| Containment.AbsoluteFormClimbsOut | serve.js:30-42 | a target `scheme//host/../../..` normalizes to the bare `..` and is refused with 403 |
| Containment.BareParentRefused | serve.js:30-42 | the absolute-form target `http://x/../../..` is refused with 403 |
| Containment.IndexSafePath | serve.js:31-34 | `/index.html` comes out of the sanitizing steps unchanged |
| Containment.IndexUnderRoot | serve.js:35 | `/index.html` joined onto the root is `root + "/index.html"` |
| Containment.IndexIsHtml | serve.js:44-45 | `…/index.html` gets `text/html` |
| Containment.IndexServed | serve.js:30-54 | `GET /`, with any query, gives 200 `text/html` with `root + "/index.html"` when that is a regular file, and 404 otherwise |

## Left out

- The HTTP server, `listen` on 127.0.0.1:8889 and the `error` and `clientError` handlers, including the raw 400 reply (serve.js:65-78). These are network I/O.
- Streaming the file with `createReadStream().pipe(res)` and the 500 branch of its error callback (serve.js:55-61). This is asynchronous I/O. A 200 stands for "the file's bytes follow"; the bytes themselves are not modelled.
- `fs.stat` is not modelled. It is the parameter `isRegularFile`, which folds the error case and `!stats.isFile()` into one answer.
- Logging with `console.log` and `console.error` produces no output that any modelled decision reads.
- Windows path rules are out: only POSIX `normalize`, `join` and `extname` are modelled. `\` is an ordinary character, except inside the regular expression, which accepts it as written.
- `ecosystem.config.js` is process-manager configuration with no logic.
- Concurrency is out: requests are independent and read nothing that another request writes.
- Mime.Lower: models `toLowerCase` on ASCII letters only. This changes no lookup. Every table key is a dot and lower-case ASCII letters. The only other characters that lower-case into ASCII are KELVIN SIGN (U+212A), which becomes `k`, and U+0130, which becomes two characters. No key contains `k` or U+0307.
- Strings are Dafny `string`s, sequences of Unicode characters rather than UTF-16 code units. Every character the model inspects is ASCII, so no decision depends on the difference.
- Looking up `MIME_TYPES[ext]` on a JavaScript object could reach inherited properties. Every extension is empty or starts with `.`, and no inherited property name does, so the table is modelled as a plain map.
- The `Containment` results assume `ValidRoot`. It excludes the root `/`, which `__dirname` gives only when serve.js sits at the file-system root; `ServedInsideRoot` as stated would not hold there, since `root + "/"` is then `//`. The `Serve` lemmas hold for any root string.
- Node's `path` module is not part of this model. `Normalize`, `Join` and `ExtName` follow the documented behaviour of its POSIX implementation.
