/** The decisions the request handlers of pypiserver/_app.py make, as
    functions of the backend's package list: what each request answers and
    what the list is afterwards. The class in server.dfy runs them step by
    step and is proved to agree with them. */
module Handlers {
  import opened Packages
  import opened Filenames
  import opened Text
  import opened Sorting
  import opened Auth

  /** The part of the run configuration the handlers read. */
  datatype Config = Config(
    overwrite: bool,
    authenticate: set<string>,
    auther: (string, string) -> bool,
    disableFallback: bool,
    fallbackUrl: string)

  /** Collaborators defined outside this file, left uninterpreted: the
      file-name parser, the project-name normaliser, the version order (as
      an integer rank of the version string), and the backend's matching of
      a package to a project and to a project and version. */
  datatype Helpers = Helpers(
    guess: string -> Option<NameVersion>,
    normalize: string -> string,
    versionRank: string -> int,
    inProject: (PkgFile, string) -> bool,
    isVersion: (PkgFile, string, string) -> bool)

  function ProjectMatch(h: Helpers, project: string): PkgFile -> bool
  {
    (p: PkgFile) => h.inProject(p, project)
  }

  function VersionMatch(h: Helpers, name: string, version: string): PkgFile -> bool
  {
    (p: PkgFile) => h.isVersion(p, name, version)
  }

  /** The backend's `find_project_packages`, in backend order. */
  function ProjectPackages(s: seq<PkgFile>, h: Helpers, project: string): seq<PkgFile>
  {
    Keep(s, ProjectMatch(h, project))
  }

  /** The backend's `find_version`, in backend order. */
  function FindVersion(s: seq<PkgFile>, h: Helpers, name: string, version: string): seq<PkgFile>
  {
    Keep(s, VersionMatch(h, name, version))
  }

  // ---------------------------------------------------------------- update

  datatype Handler = DocUploadCall | RemovePkgCall | FileUploadCall

  /** What `update` does with the `:action` field. */
  datatype Route = Ignore | Invoke(handler: Handler) | BadAction

  function ActionName(handler: Handler): string
  {
    match handler
    case DocUploadCall => "doc_upload"
    case RemovePkgCall => "remove_pkg"
    case FileUploadCall => "file_upload"
  }

  const KnownActions: set<string> := {"verify", "submit", "doc_upload", "remove_pkg", "file_upload"}

  /** `update`'s dispatch: a missing or unknown action is a 400, `verify`
      and `submit` are ignored, the three others run their handler. */
  function Dispatch(action: Option<string>): (r: Route)
    ensures r.BadAction? <==> action.None? || action.value !in KnownActions
    ensures r.Ignore? <==> action == Some("verify") || action == Some("submit")
    ensures r.Invoke? ==> action == Some(ActionName(r.handler))
  {
    if action.None? then BadAction
    else if action.value == "verify" || action.value == "submit" then Ignore
    else if action.value == "doc_upload" then Invoke(DocUploadCall)
    else if action.value == "remove_pkg" then Invoke(RemovePkgCall)
    else if action.value == "file_upload" then Invoke(FileUploadCall)
    else BadAction
  }

  /** Each handler is reached by its own action name and by no other. */
  lemma DispatchRoundTrip(handler: Handler, action: Option<string>)
    ensures Dispatch(Some(ActionName(handler))) == Invoke(handler)
    ensures Dispatch(action) == Invoke(handler) ==> action == Some(ActionName(handler))
  {
  }

  /** `doc_upload`: 400 without a `content` field or when the bytes are not a
      zip archive holding index.html (the zip check is a parameter). Nothing
      is stored. */
  function DocUploadOutcome(content: Option<FileField>, isDocZip: seq<bv8> -> bool): (r: Response)
    ensures r == Ok <==> content.Some? && isDocZip(content.value.data)
    ensures r != Ok ==> r == HttpError(400)
  {
    if content.None? then HttpError(400)
    else if !isDocZip(content.value.data) then HttpError(400)
    else Ok
  }

  // ------------------------------------------------------------ remove_pkg

  /** Python's `not field` on an optional form field. */
  predicate MissingField(field: Option<string>)
  {
    field.None? || field.value == ""
  }

  /** `remove_pkg`: 400 when name or version is missing or empty, 404 when the
      backend finds no package of that name and version, otherwise every
      found package is removed and nothing else. */
  function RemoveOutcome(s: seq<PkgFile>, h: Helpers, name: Option<string>, version: Option<string>)
    : (out: (Response, seq<PkgFile>))
    ensures out.0 == Ok || out.0 == HttpError(400) || out.0 == HttpError(404)
    ensures out.0 == HttpError(400) <==> MissingField(name) || MissingField(version)
    ensures out.0 == HttpError(404) <==>
      !MissingField(name) && !MissingField(version)
      && forall p :: p in s ==> !h.isVersion(p, name.value, version.value)
    ensures out.0 != Ok ==> out.1 == s
    ensures out.0 == Ok ==>
      && (forall p :: p in out.1 <==> p in s && !h.isVersion(p, name.value, version.value))
      && multiset(out.1) + multiset(FindVersion(s, h, name.value, version.value)) == multiset(s)
  {
    if MissingField(name) || MissingField(version) then (HttpError(400), s)
    else
      var pkgs := FindVersion(s, h, name.value, version.value);
      if pkgs == [] then
        (HttpError(404), s)
      else
        assert pkgs[0] in pkgs;
        WithoutSelected(s, pkgs, VersionMatch(h, name.value, version.value));
        (Ok, Without(s, pkgs))
  }

  // ----------------------------------------------------------- file_upload

  /** The checks `file_upload` makes of one file, in order: 400 when the
      validator or the parser rejects its name, then 409 when a file of that
      name exists and overwrite is off. */
  function FileCheck(s: seq<PkgFile>, f: FileField, overwrite: bool, guess: string -> Option<NameVersion>)
    : (r: Response)
    ensures r == Ok <==>
      IsValidPkgFilename(f.rawFilename) && guess(f.rawFilename).Some? && (overwrite || !Exists(s, f.rawFilename))
    ensures r == HttpError(400) <==> !IsValidPkgFilename(f.rawFilename) || guess(f.rawFilename).None?
    ensures r == HttpError(409) ==> !overwrite && Exists(s, f.rawFilename)
    ensures r == Ok || r == HttpError(400) || r == HttpError(409)
  {
    if !IsValidPkgFilename(f.rawFilename) || guess(f.rawFilename).None? then HttpError(400)
    else if !overwrite && Exists(s, f.rawFilename) then HttpError(409)
    else Ok
  }

  /** The loop of `file_upload` over the uploaded files: absent fields are
      skipped; the first rejected file ends the request with the files before
      it already stored. */
  function ProcessFiles(s: seq<PkgFile>, files: seq<Option<FileField>>, overwrite: bool,
                        guess: string -> Option<NameVersion>): (out: (Response, seq<PkgFile>))
    ensures out.0 == Ok || out.0 == HttpError(400) || out.0 == HttpError(409)
    ensures overwrite ==> out.0 != HttpError(409)
    ensures forall p :: p in out.1 ==> p in s || exists k :: 0 <= k < |files| && files[k].Some? && p.relfn == files[k].value.rawFilename
    decreases |files|
  {
    if files == [] then (Ok, s)
    else
      match files[0]
      case None => ProcessFiles(s, files[1..], overwrite, guess)
      case Some(f) =>
        var check := FileCheck(s, f, overwrite, guess);
        if check != Ok then (check, s)
        else
          var out := ProcessFiles(Added(s, guess(f.rawFilename).value, f), files[1..], overwrite, guess);
          assert forall k :: 0 <= k < |files| - 1 ==> files[1..][k] == files[k + 1];
          out
  }

  /** `file_upload`: 400 without a `content` field, 400 when a signature is
      present whose name is not the package's name plus ".asc", and then the
      package and the signature are checked and stored one after the other. */
  function UploadOutcome(s: seq<PkgFile>, overwrite: bool, guess: string -> Option<NameVersion>,
                         content: Option<FileField>, gpgSignature: Option<FileField>)
    : (out: (Response, seq<PkgFile>))
    ensures out.0 == Ok || out.0 == HttpError(400) || out.0 == HttpError(409)
    ensures overwrite ==> out.0 != HttpError(409)
    ensures content.None? ==> out == (HttpError(400), s)
    ensures content.Some? && gpgSignature.Some?
            && content.value.rawFilename + ".asc" != gpgSignature.value.rawFilename
            ==> out == (HttpError(400), s)
  {
    if content.None? then (HttpError(400), s)
    else if gpgSignature.Some? && content.value.rawFilename + ".asc" != gpgSignature.value.rawFilename then
      (HttpError(400), s)
    else ProcessFiles(s, [content, gpgSignature], overwrite, guess)
  }

  /** The package is handled first and the signature second; a rejection of
      the signature keeps the package that was already stored. */
  lemma UploadInOrder(s: seq<PkgFile>, overwrite: bool, guess: string -> Option<NameVersion>,
                      pkg: FileField, sig: Option<FileField>)
    requires sig.Some? ==> sig.value.rawFilename == pkg.rawFilename + ".asc"
    ensures var out := UploadOutcome(s, overwrite, guess, Some(pkg), sig);
      var first := FileCheck(s, pkg, overwrite, guess);
      && (first != Ok ==> out == (first, s))
      && (first == Ok ==>
            var s1 := Added(s, guess(pkg.rawFilename).value, pkg);
            && (sig.None? ==> out == (Ok, s1))
            && (sig.Some? ==>
                  var second := FileCheck(s1, sig.value, overwrite, guess);
                  && (second != Ok ==> out == (second, s1))
                  && (second == Ok ==> out == (Ok, Added(s1, guess(sig.value.rawFilename).value, sig.value)))))
  {
    var files := [Some(pkg), sig];
    assert files[0] == Some(pkg) && files[1..] == [sig] && [sig][0] == sig && [sig][1..] == [];
    if FileCheck(s, pkg, overwrite, guess) == Ok {
      var s1 := Added(s, guess(pkg.rawFilename).value, pkg);
      assert ProcessFiles(s, files, overwrite, guess) == ProcessFiles(s1, [sig], overwrite, guess);
      if sig.None? {
        assert ProcessFiles(s1, [sig], overwrite, guess) == ProcessFiles(s1, [], overwrite, guess);
      } else if FileCheck(s1, sig.value, overwrite, guess) == Ok {
        var s2 := Added(s1, guess(sig.value.rawFilename).value, sig.value);
        assert ProcessFiles(s1, [sig], overwrite, guess) == ProcessFiles(s2, [], overwrite, guess);
      }
    }
  }

  /** A signature turned away after its package was accepted leaves the
      package stored, and the request still fails. */
  lemma UploadPartialEffect(s: seq<PkgFile>, overwrite: bool, guess: string -> Option<NameVersion>,
                            pkg: FileField, sig: FileField)
    requires sig.rawFilename == pkg.rawFilename + ".asc"
    requires FileCheck(s, pkg, overwrite, guess) == Ok
    requires FileCheck(Added(s, guess(pkg.rawFilename).value, pkg), sig, overwrite, guess) != Ok
    ensures var out := UploadOutcome(s, overwrite, guess, Some(pkg), Some(sig));
      out.0.HttpError? && Stored(guess(pkg.rawFilename).value, pkg) in out.1 && Exists(out.1, pkg.rawFilename)
  {
    UploadInOrder(s, overwrite, guess, pkg, Some(sig));
  }

  /** A successful upload stores the package and, when sent, its signature:
      both are listed afterwards under the names the client gave. */
  lemma UploadStoresEverything(s: seq<PkgFile>, overwrite: bool, guess: string -> Option<NameVersion>,
                               content: Option<FileField>, gpgSignature: Option<FileField>)
    requires UploadOutcome(s, overwrite, guess, content, gpgSignature).0 == Ok
    ensures var out := UploadOutcome(s, overwrite, guess, content, gpgSignature);
      && content.Some?
      && guess(content.value.rawFilename).Some?
      && Stored(guess(content.value.rawFilename).value, content.value) in out.1
      && (gpgSignature.Some? ==>
            guess(gpgSignature.value.rawFilename).Some?
            && Stored(guess(gpgSignature.value.rawFilename).value, gpgSignature.value) in out.1)
  {
    var pkg := content.value;
    UploadInOrder(s, overwrite, guess, pkg, gpgSignature);
    if gpgSignature.Some? {
      assert |gpgSignature.value.rawFilename| == |pkg.rawFilename| + 4;
    }
  }

  /** The only records an upload adds are the uploaded files, and the only
      records it drops are ones at the path an uploaded file now occupies. */
  lemma UploadFrame(s: seq<PkgFile>, overwrite: bool, guess: string -> Option<NameVersion>,
                    pkg: FileField, sig: Option<FileField>)
    ensures var out := UploadOutcome(s, overwrite, guess, Some(pkg), sig);
      && (forall p :: p in s && p.relfn != pkg.rawFilename && (sig.None? || p.relfn != sig.value.rawFilename)
                      ==> p in out.1)
      && (forall p :: p in out.1 && p !in s ==>
            (guess(pkg.rawFilename).Some? && p == Stored(guess(pkg.rawFilename).value, pkg))
            || (sig.Some? && guess(sig.value.rawFilename).Some?
                && p == Stored(guess(sig.value.rawFilename).value, sig.value)))
  {
    if sig.Some? && sig.value.rawFilename != pkg.rawFilename + ".asc" {
    } else {
      UploadInOrder(s, overwrite, guess, pkg, sig);
    }
  }

  /** A 409 means overwrite is off and one of the uploaded names was already
      listed before the request. */
  lemma UploadConflictCause(s: seq<PkgFile>, overwrite: bool, guess: string -> Option<NameVersion>,
                            pkg: FileField, sig: Option<FileField>)
    requires UploadOutcome(s, overwrite, guess, Some(pkg), sig).0 == HttpError(409)
    ensures !overwrite
    ensures Exists(s, pkg.rawFilename) || (sig.Some? && Exists(s, sig.value.rawFilename))
  {
    UploadInOrder(s, overwrite, guess, pkg, sig);
    if !Exists(s, pkg.rawFilename) {
      var s1 := Added(s, guess(pkg.rawFilename).value, pkg);
      assert |sig.value.rawFilename| == |pkg.rawFilename| + 4;
      ExistsAfterAdd(s, guess(pkg.rawFilename).value, pkg, sig.value.rawFilename);
    }
  }

  /** With overwrite off, re-uploading a listed package whose name passes the
      checks always gives 409 and changes nothing. */
  lemma UploadConflictOnExisting(s: seq<PkgFile>, guess: string -> Option<NameVersion>,
                                 pkg: FileField, sig: Option<FileField>)
    requires sig.None? || sig.value.rawFilename == pkg.rawFilename + ".asc"
    requires IsValidPkgFilename(pkg.rawFilename) && guess(pkg.rawFilename).Some?
    requires Exists(s, pkg.rawFilename)
    ensures UploadOutcome(s, false, guess, Some(pkg), sig) == (HttpError(409), s)
  {
  }

  // ------------------------------------------------------------ POST / (update behind auth)

  /** The form fields `update` and its handlers read. */
  datatype Form = Form(
    action: Option<string>,
    name: Option<string>,
    version: Option<string>,
    content: Option<FileField>,
    gpgSignature: Option<FileField>)

  /** `update`: dispatch on `:action` and run the chosen handler. */
  function UpdateOutcome(s: seq<PkgFile>, cfg: Config, h: Helpers, form: Form, isDocZip: seq<bv8> -> bool)
    : (out: (Response, seq<PkgFile>))
    ensures out.1 != s ==> form.action == Some("remove_pkg") || form.action == Some("file_upload")
    ensures Dispatch(form.action).BadAction? ==> out == (HttpError(400), s)
    ensures Dispatch(form.action).Ignore? ==> out == (Ok, s)
    ensures Dispatch(form.action) == Invoke(DocUploadCall) ==> out == (DocUploadOutcome(form.content, isDocZip), s)
    ensures Dispatch(form.action) == Invoke(RemovePkgCall) ==> out == RemoveOutcome(s, h, form.name, form.version)
    ensures Dispatch(form.action) == Invoke(FileUploadCall) ==>
      out == UploadOutcome(s, cfg.overwrite, h.guess, form.content, form.gpgSignature)
  {
    match Dispatch(form.action)
    case BadAction => (HttpError(400), s)
    case Ignore => (Ok, s)
    case Invoke(DocUploadCall) => (DocUploadOutcome(form.content, isDocZip), s)
    case Invoke(RemovePkgCall) => RemoveOutcome(s, h, form.name, form.version)
    case Invoke(FileUploadCall) => UploadOutcome(s, cfg.overwrite, h.guess, form.content, form.gpgSignature)
  }

  /** `update` behind `auth("update")`: a request the gate turns away gets the
      gate's status and changes nothing; the package list changes only through
      an authorised `remove_pkg` or `file_upload`. */
  function PostOutcome(s: seq<PkgFile>, cfg: Config, h: Helpers, auth: Option<Credentials>, form: Form,
                       isDocZip: seq<bv8> -> bool): (out: (Response, seq<PkgFile>))
    ensures Protect("update", cfg.authenticate, auth, cfg.auther).Deny? ==>
      out.1 == s && (out.0 == HttpError(401) || out.0 == HttpError(403))
    ensures out.1 != s ==>
      Protect("update", cfg.authenticate, auth, cfg.auther) == Proceed
      && (form.action == Some("remove_pkg") || form.action == Some("file_upload"))
    ensures Protect("update", cfg.authenticate, auth, cfg.auther) == Proceed ==>
      out == UpdateOutcome(s, cfg, h, form, isDocZip)
    ensures out.0 == Ok || (out.0.HttpError? && out.0.status in {400, 401, 403, 404, 409})
  {
    var gate := Protect("update", cfg.authenticate, auth, cfg.auther);
    if gate.Deny? then (HttpError(gate.status), s)
    else UpdateOutcome(s, cfg, h, form, isDocZip)
  }

  // ------------------------------------------------------------ RPC2 search

  /** One entry of the search response. The backend has no summary, so the
      version stands in for it. */
  datatype SearchHit = SearchHit(ordering: nat, version: string, name: string, summary: string)

  function HitFor(ordering: nat, p: PkgFile): SearchHit
  {
    SearchHit(ordering, p.version, p.pkgname, p.version)
  }

  /** `p.pkgname.count(value) > 0`. */
  predicate NameMatches(p: PkgFile, value: string)
  {
    Count(p.pkgname, value) > 0
  }

  /** The response of a `search` call over the list s: matching packages
      only, in list order, each tagged with its position in the whole list. */
  function SearchResults(s: seq<PkgFile>, value: string): (hits: seq<SearchHit>)
    ensures |hits| <= |s|
    ensures forall k :: 0 <= k < |hits| ==>
      hits[k].ordering < |s| && hits[k] == HitFor(hits[k].ordering, s[hits[k].ordering])
      && NameMatches(s[hits[k].ordering], value)
    ensures forall k, l :: 0 <= k < l < |hits| ==> hits[k].ordering < hits[l].ordering
    decreases |s|
  {
    if s == [] then []
    else
      var n := |s| - 1;
      var before := SearchResults(s[..n], value);
      assert forall i :: 0 <= i < n ==> s[..n][i] == s[i];
      before + (if NameMatches(s[n], value) then [HitFor(n, s[n])] else [])
  }

  /** The search over a list is the search over all but its last package,
      followed by that package's hit if it matches. */
  lemma SearchResultsLast(s: seq<PkgFile>, value: string)
    requires s != []
    ensures SearchResults(s, value) ==
      SearchResults(s[..|s| - 1], value)
      + (if NameMatches(s[|s| - 1], value) then [HitFor(|s| - 1, s[|s| - 1])] else [])
  {
  }

  /** No matching package is missed: the package at position i is in the
      response, tagged i, whenever its name matches. */
  lemma {:induction false} SearchResultsComplete(s: seq<PkgFile>, value: string, i: nat)
    requires i < |s| && NameMatches(s[i], value)
    ensures exists k :: 0 <= k < |SearchResults(s, value)| && SearchResults(s, value)[k].ordering == i
    decreases |s|
  {
    var n := |s| - 1;
    var before := SearchResults(s[..n], value);
    var last := if NameMatches(s[n], value) then [HitFor(n, s[n])] else [];
    SearchResultsLast(s, value);
    var hits := SearchResults(s, value);
    assert hits == before + last;
    if i < n {
      assert s[..n][i] == s[i];
      SearchResultsComplete(s[..n], value, i);
      var k :| 0 <= k < |before| && before[k].ordering == i;
      assert hits[k] == before[k];
    } else {
      assert last == [HitFor(n, s[n])];
      assert hits[|before|] == HitFor(n, s[n]);
    }
  }

  /** A package is found exactly when the query is a substring of its name. */
  lemma SearchIsSubstringMatch(p: PkgFile, value: string)
    ensures NameMatches(p, value) <==> Occurs(value, p.pkgname)
  {
    CountPositiveIffOccurs(p.pkgname, value);
  }

  /** Every name contains the empty string, so the empty query hits every
      package. */
  lemma {:induction false} EmptyQueryLength(s: seq<PkgFile>)
    ensures |SearchResults(s, "")| == |s|
    decreases |s|
  {
    if s != [] {
      EmptyQueryLength(s[..|s| - 1]);
      SearchResultsLast(s, "");
      assert Count(s[|s| - 1].pkgname, "") > 0;
    }
  }

  /** The k-th hit of the empty query is the k-th package. */
  lemma {:induction false} EmptyQueryHit(s: seq<PkgFile>, k: nat)
    requires k < |s|
    ensures k < |SearchResults(s, "")| && SearchResults(s, "")[k] == HitFor(k, s[k])
    decreases |s|
  {
    var n := |s| - 1;
    EmptyQueryLength(s[..n]);
    SearchResultsLast(s, "");
    assert Count(s[n].pkgname, "") > 0;
    if k < n {
      EmptyQueryHit(s[..n], k);
      assert s[..n][k] == s[k];
    }
  }

  /** The empty query returns every package, tagged 0, 1, 2, ... */
  lemma {:induction false} EmptyQueryListsAll(s: seq<PkgFile>)
    ensures |SearchResults(s, "")| == |s|
    ensures forall k :: 0 <= k < |s| ==> SearchResults(s, "")[k] == HitFor(k, s[k])
  {
    EmptyQueryLength(s);
    forall k | 0 <= k < |s|
      ensures SearchResults(s, "")[k] == HitFor(k, s[k])
    {
      EmptyQueryHit(s, k);
    }
  }

  // ------------------------------------------------------------ simple and json

  /** `json_info`'s order: `sorted(key=parsed_version, reverse=True)`, so a
      goes strictly before b when its version ranks higher. */
  function NewestFirst(rank: string -> int): (PkgFile, PkgFile) -> bool
  {
    (a: PkgFile, b: PkgFile) => rank(b.version) < rank(a.version)
  }

  /** `simple`'s order: key `(parsed_version, relfn)`, ascending. */
  function ListingOrder(rank: string -> int): (PkgFile, PkgFile) -> bool
  {
    (a: PkgFile, b: PkgFile) =>
      rank(a.version) < rank(b.version) || (rank(a.version) == rank(b.version) && StrLess(a.relfn, b.relfn))
  }

  lemma NewestFirstIsStrictWeakOrder(rank: string -> int)
    ensures StrictWeakOrder(NewestFirst(rank))
  {
  }

  lemma ListingOrderIsStrictWeakOrder(rank: string -> int)
    ensures StrictWeakOrder(ListingOrder(rank))
  {
    var lt := ListingOrder(rank);
    forall a: PkgFile
      ensures !lt(a, a)
    {
      StrLessIrreflexive(a.relfn);
    }
    forall a: PkgFile, b: PkgFile, c: PkgFile | lt(a, b) && lt(b, c)
      ensures lt(a, c)
    {
      if rank(a.version) == rank(b.version) == rank(c.version) {
        StrLessTransitive(a.relfn, b.relfn, c.relfn);
      }
    }
    forall a: PkgFile, b: PkgFile, c: PkgFile | lt(a, c)
      ensures lt(a, b) || lt(b, c)
    {
      if rank(a.version) == rank(b.version) == rank(c.version) && !lt(a, b) && !lt(b, c) {
        StrLessTotal(a.relfn, b.relfn);
        StrLessTotal(b.relfn, c.relfn);
        StrLessIrreflexive(a.relfn);
        if StrLess(b.relfn, a.relfn) && StrLess(c.relfn, b.relfn) {
          StrLessTransitive(c.relfn, b.relfn, a.relfn);
          StrLessTransitive(a.relfn, c.relfn, a.relfn);
        } else if StrLess(b.relfn, a.relfn) {
          StrLessTransitive(a.relfn, c.relfn, a.relfn);
        } else if StrLess(c.relfn, b.relfn) {
          StrLessTransitive(a.relfn, c.relfn, a.relfn);
        }
      }
    }
  }

  /** What `simple` answers. */
  datatype SimpleReply = Redirect(url: string, permanent: bool) | Listing(files: seq<PkgFile>) | NotFound

  /** `simple(project)`: a name that is not in normalised form is redirected
      permanently to the normalised one; an unknown project is redirected to
      the fallback index, or is a 404 when the fallback is disabled; otherwise
      the project's files are listed by version, then path. */
  function Simple(s: seq<PkgFile>, cfg: Config, h: Helpers, project: string): (r: SimpleReply)
    ensures (r.Redirect? && r.permanent) <==> h.normalize(project) != project
    ensures r.Redirect? && r.permanent ==> r.url == "/simple/" + h.normalize(project) + "/"
    ensures r.Redirect? && !r.permanent ==> r.url == RStrip(cfg.fallbackUrl, '/') + "/" + project + "/"
    ensures (r.Redirect? && !r.permanent) <==>
      h.normalize(project) == project && ProjectPackages(s, h, project) == [] && !cfg.disableFallback
    ensures r.NotFound? <==>
      h.normalize(project) == project && ProjectPackages(s, h, project) == [] && cfg.disableFallback
    ensures r.Listing? ==>
      && r.files != []
      && multiset(r.files) == multiset(ProjectPackages(s, h, project))
      && Sorted(r.files, ListingOrder(h.versionRank))
  {
    var normalized := h.normalize(project);
    if project != normalized then Redirect("/simple/" + normalized + "/", true)
    else
      var found := ProjectPackages(s, h, project);
      var packages := SortBy(found, ListingOrder(h.versionRank));
      if packages == [] then
        if !cfg.disableFallback then Redirect(RStrip(cfg.fallbackUrl, '/') + "/" + project + "/", false)
        else NotFound
      else
        ListingOrderIsStrictWeakOrder(h.versionRank);
        SortBySorted(found, ListingOrder(h.versionRank));
        Listing(packages)
  }

  /** A listing keeps the backend order of files whose (version, path) keys
      tie, as Python's stable `sorted` does. */
  lemma SimpleListingStable(s: seq<PkgFile>, cfg: Config, h: Helpers, project: string, a: PkgFile)
    requires Simple(s, cfg, h, project).Listing?
    ensures Keep(Simple(s, cfg, h, project).files, Tied(ListingOrder(h.versionRank), a))
         == Keep(ProjectPackages(s, h, project), Tied(ListingOrder(h.versionRank), a))
  {
    ListingOrderIsStrictWeakOrder(h.versionRank);
    SortByStable(ProjectPackages(s, h, project), ListingOrder(h.versionRank), a);
  }

  /** What `json_info` answers (the release links are not modelled). */
  datatype JsonReply = JsonRedirect(url: string) | JsonNotFound | Info(latestVersion: string)

  /** `json_info(project)`: redirect a non-normalised name, 404 for an unknown
      project, otherwise report as latest the version of the first package of
      the descending sort: among the packages with the highest version rank,
      the earliest in backend order. */
  function JsonInfo(s: seq<PkgFile>, h: Helpers, project: string): (r: JsonReply)
    ensures r.JsonRedirect? <==> h.normalize(project) != project
    ensures r.JsonRedirect? ==> r.url == "/" + h.normalize(project) + "/json"
    ensures r.JsonNotFound? <==> h.normalize(project) == project && ProjectPackages(s, h, project) == []
    ensures r.Info? ==>
      var found := ProjectPackages(s, h, project);
      && found != []
      && r.latestVersion == found[FirstLeast(found, NewestFirst(h.versionRank))].version
      && forall p :: p in found ==> h.versionRank(p.version) <= h.versionRank(r.latestVersion)
  {
    var normalized := h.normalize(project);
    if project != normalized then JsonRedirect("/" + normalized + "/json")
    else
      var found := ProjectPackages(s, h, project);
      var packages := SortBy(found, NewestFirst(h.versionRank));
      if packages == [] then JsonNotFound
      else
        SortByHead(found, NewestFirst(h.versionRank));
        NewestFirstIsStrictWeakOrder(h.versionRank);
        Info(packages[0].version)
  }

  // ------------------------------------------------------------ static files

  /** What `server_static` answers: the file of a listed package, or 404. */
  datatype StaticReply = Serve(pkg: PkgFile) | FileNotFound
}
