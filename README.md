# pypiserver request handlers in Dafny

pypiserver is a minimal PyPI-compatible package index. Its web application
(`pypiserver/_app.py`) accepts uploads and removals through `POST /`. It
answers pip's XML-RPC `search`, serves the PEP 503 `simple` pages, the
`/<project>/json` metadata and the package files themselves. Some actions
(`update`, `list`, `download`) can be protected with HTTP Basic
authentication.

This project models the decisions those handlers make. The model covers
which requests are refused, with which HTTP status, and how the backend's
package list changes.

- Module `Packages` holds the package record and the backend's package list
  (`seq<PkgFile>`). It models `add_package`, `remove_package` and `exists` as
  functions on that list.
- Module `Filenames` is the upload-name validator: the regular expression
  `^[a-z0-9_.!+-]+$` with `re.I`, under Python's `re.match` semantics.
- Module `Text` holds the Python string operations the handlers use:
  `str.count`, `<` on `str`, and `str.rstrip`.
- Module `Sorting` is `sorted` as a stable sort by a strict weak order. It
  also covers the first element of such a sort.
- Module `Auth` is the `auth` decorator's `protector`.
- Module `Handlers` has the handlers as functions of the package list:
  - `update` dispatch;
  - `doc_upload`, `remove_pkg` and `file_upload`;
  - `update` behind `auth("update")`;
  - the `search` branch of `handle_rpc`;
  - `simple` and `json_info`.
- Module `Server` has class `Backend`, whose `packages` field the handlers
  change in place:
  - `FileUpload`, `RemovePkg` and `HandleRpc` run the source's loops step
    by step.
  - `FileUpload`, `RemovePkg`, `Update`, `Post` and `HandleRpc` are proved
    equal to the matching function of `Handlers`.
  - `AddPackage` and `RemovePackage` apply `Packages.Added` and
    `Packages.Without`.
  - `ServeStatic` is the `server_static` loop. Its first-match result is
    stated directly in its contract.

The collaborators that live outside `_app.py` are parameters of the model,
gathered in the datatypes `Config` and `Helpers`:
- the password checker `config.auther`;
- `guess_pkgname_and_version`;
- `normalize_pkgname_for_url`;
- the version order of `parsed_version`, modelled as an integer rank of the
  version string;
- the backend's project and version matching behind `find_project_packages`
  and `find_version`;
- the zip-archive check of `doc_upload`.

Where a reading of the intended behaviour and the code differ, the model
follows `_app.py`:

- **The validator accepts more than ASCII letters, digits and `_ . ! + -`.**
  Python's `$` also matches before one final newline. With `re.I`, `[a-z]`
  also matches U+0130, U+0131, U+017F and U+212A. `Filenames.IsValidPkgFilename`
  accepts exactly that language.
- **An upload is not all-or-nothing.** The package is stored before the
  signature is checked. A signature rejected afterwards (400 or 409) leaves
  the package stored (`Handlers.UploadPartialEffect`).
- **Removal can fail.** Removing a name and version that the backend does
  not find is a 404, not a silent success.

## Model

| member | source | states |
|---|---|---|
| Auth.Protect | pypiserver/_app.py:38-49 | the handler runs exactly when the action is unprotected or credentials with a password are accepted; a protected action without credentials or password is 401; refused credentials are 403 |
| Auth.ProtectMonotone | pypiserver/_app.py:38-49 | protecting fewer actions never refuses a request that a larger protected set lets through |
| Auth.UnprotectedIgnoresCredentials | pypiserver/_app.py:40 | for an action outside `authenticate`, the credentials and the checker play no part |
| Filenames.ValidIffPatternLanguage | pypiserver/_app.py:106-111 | a name without a trailing newline is valid iff it is non-empty and all its characters are in the pattern's class; `t + "\n"` is valid iff `t` is |
| Filenames.ValidNamesHaveNoInnerNewline | pypiserver/_app.py:106-111 | a valid name contains no newline except possibly as its last character |
| Filenames.AsciiValidIff | pypiserver/_app.py:106-111 | on ASCII names without a newline, valid iff non-empty and only letters, digits and `_ . ! + -` |
| Filenames.ValidNamesAreSafe | pypiserver/_app.py:106-111 | a valid name has no `/`, `\` or space, and no control character except a final newline, so it cannot leave the package directory |
| Filenames.ValidatorRejects | pypiserver/_app.py:106-111 | concrete refusals: a name with a space, a name with `/`, the empty name and a lone newline |
| Filenames.ValidatorAccepts | pypiserver/_app.py:106-111 | concrete acceptances: a plain name, the same name with a trailing newline, and a name starting with U+017F |
| Text.CountPositiveIffOccurs | pypiserver/_app.py:237 | `s.count(sub) > 0` holds exactly when `sub` occurs in `s` |
| Text.StrLessIrreflexive | pypiserver/_app.py:313 | no string is `<` itself |
| Text.StrLessTransitive | pypiserver/_app.py:313 | `<` on str is transitive |
| Text.StrLessTotal | pypiserver/_app.py:313 | any two distinct strings are ordered one way or the other |
| Text.RStrip | pypiserver/_app.py:317 | `rstrip('/')` returns a prefix of the input that does not end in `/`, and only `/` was removed |
| Sorting.Insert | pypiserver/_app.py:311-314 | inserting adds exactly one element: the length grows by one and the multiset gains `x` |
| Sorting.SortBy | pypiserver/_app.py:311-314 | `sorted` returns a permutation of its input |
| Sorting.InsertSorted | pypiserver/_app.py:311-314 | inserting into a sorted list under a strict weak order keeps it sorted |
| Sorting.SortedCons | pypiserver/_app.py:311-314 | a sorted list stays sorted when an element that nothing in it goes strictly before is put in front |
| Sorting.SortBySorted | pypiserver/_app.py:311-314 | under a strict weak order, `sorted` output has no element strictly before an earlier one |
| Sorting.FirstLeast | pypiserver/_app.py:462-471 | picks an element no other is strictly before, and that is strictly before all earlier ones: the earliest among the tied leaders |
| Sorting.SortByHead | pypiserver/_app.py:462-471 | the head of the stable sort is that earliest tied leader |
| Sorting.TiedApart | pypiserver/_app.py:311-314 | two elements one strictly before the other never both tie with the same element |
| Sorting.InsertStable | pypiserver/_app.py:311-314 | among the elements tied with any a, insertion puts the new element first and keeps the others in order |
| Sorting.SortByStable | pypiserver/_app.py:311-314 | `sorted` is stable: the elements tied with any a come out in their input order |
| Packages.Keep | pypiserver/_app.py:134 | filtering keeps exactly the elements that satisfy the predicate and never lengthens the list |
| Packages.Without | pypiserver/_app.py:137-138 | the list after removing the given records holds exactly the others |
| Packages.WithoutNothing | pypiserver/_app.py:137-138 | removing no records leaves the list as it was |
| Packages.WithoutAppend | pypiserver/_app.py:137-138 | removing records one after another is removing them all at once |
| Packages.WithoutPrefixStep | pypiserver/_app.py:137-138 | removing one more found package extends the removed prefix of the found list by one |
| Packages.WithoutSelected | pypiserver/_app.py:134-138 | removing the records a filter found splits the list: what is left plus what was found is the original multiset |
| Packages.Added | pypiserver/_app.py:179 | after `add_package` the new record is listed last and `exists` finds its name; every other record is one from before at a different path |
| Packages.ExistsAfterAdd | pypiserver/_app.py:168-179 | after `add_package`, a name other than the stored file's exists only if it existed before |
| Handlers.Dispatch | pypiserver/_app.py:189-204 | a missing or unknown `:action` is 400; `verify` and `submit` are ignored; a handler runs only under its own action name |
| Handlers.DispatchRoundTrip | pypiserver/_app.py:195-202 | each handler's action name reaches that handler, and only that name does |
| Handlers.DocUploadOutcome | pypiserver/_app.py:114-124 | success iff a `content` field is present and is a zip archive holding index.html; otherwise 400 |
| Handlers.RemoveOutcome | pypiserver/_app.py:127-138 | 400 iff name or version is missing or empty; 404 iff no package matches; on error the list is unchanged; on success exactly the matching packages are removed (membership and multiset) |
| Handlers.FileCheck | pypiserver/_app.py:162-177 | a file is accepted iff the validator and parser accept its name and it is new or overwrite is on; 400 iff the name is rejected; 409 only when overwrite is off and the name exists |
| Handlers.ProcessFiles | pypiserver/_app.py:159-179 | the loop answers Ok, 400 or 409, never 409 with overwrite on, and every new record is at the path of an uploaded file |
| Handlers.UploadOutcome | pypiserver/_app.py:144-179 | a missing `content` field or a signature not named `<package>.asc` is 400 with nothing changed; the answer is Ok, 400 or 409, and never 409 with overwrite on |
| Handlers.UploadInOrder | pypiserver/_app.py:159-179 | the package is checked and stored first, the signature second; the first rejection decides the answer, and the list keeps what was stored before it |
| Handlers.UploadPartialEffect | pypiserver/_app.py:159-179 | a rejected signature leaves the accepted package stored while the request fails |
| Handlers.UploadStoresEverything | pypiserver/_app.py:144-179 | a successful upload lists the package and, when one was sent, its signature |
| Handlers.UploadFrame | pypiserver/_app.py:159-179 | records at other paths survive an upload, and the only new records are the uploaded files |
| Handlers.UploadConflictCause | pypiserver/_app.py:168-177 | a 409 means overwrite is off and the package or its signature was already listed before the request |
| Handlers.UploadConflictOnExisting | pypiserver/_app.py:159-177 | with overwrite off, re-uploading a listed, well-named package always gets 409 and changes nothing |
| Handlers.UpdateOutcome | pypiserver/_app.py:189-206 | `doc_upload`, `remove_pkg` and `file_upload` give exactly their handler's outcome; a bad action is 400 and an ignored one Ok, both without change; the list changes only for `remove_pkg` or `file_upload` |
| Handlers.PostOutcome | pypiserver/_app.py:187-206 | a request the `update` gate approves gets exactly `update`'s outcome; one it refuses gets 401 or 403 and changes nothing; the status is one of Ok, 400, 401, 403, 404, 409 |
| Handlers.SearchResults | pypiserver/_app.py:234-247 | every hit is a matching package, tagged with its position in the full list, in increasing position order |
| Handlers.SearchResultsLast | pypiserver/_app.py:236-247 | one more step of the loop appends the last package's hit exactly when it matches |
| Handlers.SearchResultsComplete | pypiserver/_app.py:234-247 | no matching package is missed: the package at position i is in the response, tagged i |
| Handlers.SearchIsSubstringMatch | pypiserver/_app.py:237 | a package is found exactly when the query is a substring of its name |
| Handlers.EmptyQueryListsAll | pypiserver/_app.py:234-247 | the empty query returns every package, tagged 0, 1, 2, ... |
| Handlers.EmptyQueryLength | pypiserver/_app.py:234-247 | the empty query hits as many packages as are listed |
| Handlers.EmptyQueryHit | pypiserver/_app.py:234-247 | the k-th hit of the empty query is the k-th package, tagged k |
| Handlers.NewestFirstIsStrictWeakOrder | pypiserver/_app.py:462-466 | the descending version key is a strict weak order |
| Handlers.ListingOrderIsStrictWeakOrder | pypiserver/_app.py:311-314 | the key `(parsed_version, relfn)` is a strict weak order |
| Handlers.Simple | pypiserver/_app.py:305-318 | a non-normalised name is redirected permanently to `/simple/<normalised>/`; an unknown project is redirected to `<fallback_url without trailing slashes>/<project>/` when fallback is on and is a 404 when it is off; a listing is non-empty, a permutation of the project's files, sorted by version then path |
| Handlers.SimpleListingStable | pypiserver/_app.py:311-314 | files whose (version, path) keys tie keep their backend order in the listing |
| Handlers.JsonInfo | pypiserver/_app.py:456-471 | a non-normalised name is redirected to `/<normalised>/json`; 404 iff unknown; otherwise the latest version is that of the earliest package with the highest version rank, and no package ranks above it |
| Server.Backend.AddPackage | pypiserver/_app.py:179 | the list becomes `Added(old list, ...)`, and the name now exists |
| Server.Backend.RemovePackage | pypiserver/_app.py:138 | the list becomes the old list without that record |
| Server.Backend.FileUpload | pypiserver/_app.py:144-179 | the loop's answer and final list equal `UploadOutcome` of the old list |
| Server.Backend.RemovePkg | pypiserver/_app.py:127-138 | the lookup and the removal loop give exactly `RemoveOutcome` of the old list |
| Server.Backend.Update | pypiserver/_app.py:189-206 | answer and new list equal `UpdateOutcome` |
| Server.Backend.Post | pypiserver/_app.py:187-206 | answer and new list equal `PostOutcome` |
| Server.Backend.HandleRpc | pypiserver/_app.py:228-251 | a `search` call answers `SearchResults` of the current list; any other method name answers nothing |
| Server.Backend.ServeStatic | pypiserver/_app.py:435-451 | 404 iff no listed package has that forward-slash path; otherwise the first such package is served |

## Left out

- HTTP plumbing is not modelled: request parsing, headers, the
  `before_request` hooks, logging, templates and HTML rendering. The same
  holds for the routes `root`, `favicon`, `pep_503_redirects`, `bad_url`,
  `simpleindex` and `list_packages`, which do not decide anything about
  the package list.
- XML parsing of the RPC body (`methodName`, the query string and their
  `strip()`) is left out. `Server.Backend.HandleRpc` takes the already
  extracted method name and query. Encoding the reply with
  `xmlrpclib.dumps` is left out too.
- For `server_static`, reading the file (`static_file`), guessing the MIME
  type and the `Cache-Control` header are left out. The reply names the
  package that would be served.
- For `json_info`, the `releases` map and the URLs built with `urljoin` are
  left out. Only the redirect, the 404 and the choice of the latest version
  are modelled.
- For `simple`, the link list (base names and hash URLs) is left out. The
  reply is the sorted list of package records.
- The zip check of `doc_upload` (`zipfile` and `getinfo("index.html")`) is
  the parameter `isDocZip`. No documentation is ever stored, and the model
  says so.
- These collaborators are uninterpreted parameters: `guess_pkgname_and_version`,
  `normalize_pkgname_for_url`, `config.auther`, and the backend's
  `find_project_packages` and `find_version` (modelled as filters of the
  package list in backend order). Their definitions are not part of this
  model.
- `parsed_version` is modelled as an integer rank of the version string.
  The rank is a total preorder, as PEP 440 versions are. The model does not
  implement PEP 440.
- The backend's `add_package`, `remove_package` and `exists` are modelled
  as operations on an in-memory list:
  - a stored file replaces any record at the same path;
  - the new record is appended at the end of the list. This placement is
    a modelling choice about a backend whose listing order is not part of
    this model. It decides where a freshly uploaded file shows up in later
    search results and in the first-match lookup of `server_static`.
  - removal drops the equal records;
  - `exists` looks for a listed file of that name.

  Disk I/O, the package root and the cache are left out.
- The `auth("list")` and `auth("download")` gates on `handle_rpc`, `simple`,
  `json_info` and `server_static` are the same function `Auth.Protect`,
  applied with those action names. Only the `update` route's composition of
  gate and handler is modelled as a member (`Handlers.PostOutcome`).
- Concurrent requests are left out. Each handler is modelled as running
  alone against the package list.
