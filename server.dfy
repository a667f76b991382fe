/** The request handlers of pypiserver/_app.py as they run: step by step
    against a backend whose package list they change in place. Each method
    is proved to agree with the decision function of module Handlers. */
module Server {
  import opened Packages
  import opened Filenames
  import opened Auth
  import opened Handlers

  /** The backend's package list, with the run configuration and the
      collaborators the handlers consult. */
  class Backend {
    var packages: seq<PkgFile>
    const config: Config
    const helpers: Helpers

    constructor (packages: seq<PkgFile>, config: Config, helpers: Helpers)
      ensures this.packages == packages && this.config == config && this.helpers == helpers
    {
      this.packages := packages;
      this.config := config;
      this.helpers := helpers;
    }

    /** The backend's `add_package`: the file is written under the name the
        client gave and listed. */
    method AddPackage(nv: NameVersion, f: FileField)
      modifies this
      ensures packages == Added(old(packages), nv, f)
      ensures Exists(packages, f.rawFilename)
    {
      packages := Added(packages, nv, f);
    }

    /** The backend's `remove_package`: the file is deleted and no longer listed. */
    method RemovePackage(p: PkgFile)
      modifies this
      ensures packages == Without(old(packages), [p])
      ensures p !in packages
    {
      packages := Without(packages, [p]);
    }

    /** `file_upload`: the two up-front checks, then the loop over the
        package and the signature. */
    method FileUpload(content: Option<FileField>, gpgSignature: Option<FileField>) returns (r: Response)
      modifies this
      ensures (r, packages) == UploadOutcome(old(packages), config.overwrite, helpers.guess, content, gpgSignature)
    {
      if content.None? {
        return HttpError(400);
      }
      if gpgSignature.Some? && content.value.rawFilename + ".asc" != gpgSignature.value.rawFilename {
        return HttpError(400);
      }
      var ufiles := [content, gpgSignature];
      var i := 0;
      while i < |ufiles|
        invariant 0 <= i <= |ufiles|
        invariant ProcessFiles(packages, ufiles[i..], config.overwrite, helpers.guess)
               == ProcessFiles(old(packages), ufiles, config.overwrite, helpers.guess)
      {
        var uf := ufiles[i];
        assert ufiles[i..][0] == uf && ufiles[i..][1..] == ufiles[i + 1..];
        if uf.Some? {
          var fname := uf.value.rawFilename;
          if !IsValidPkgFilename(fname) || helpers.guess(fname).None? {
            return HttpError(400);
          }
          if !config.overwrite && Exists(packages, fname) {
            return HttpError(409);
          }
          AddPackage(helpers.guess(fname).value, uf.value);
        }
        i := i + 1;
      }
      return Ok;
    }

    /** `remove_pkg`: the field checks, the lookup, then one `remove_package`
        per package found. */
    method RemovePkg(name: Option<string>, version: Option<string>) returns (r: Response)
      modifies this
      ensures (r, packages) == RemoveOutcome(old(packages), helpers, name, version)
    {
      if MissingField(name) || MissingField(version) {
        return HttpError(400);
      }
      var pkgs := FindVersion(packages, helpers, name.value, version.value);
      if pkgs == [] {
        return HttpError(404);
      }
      ghost var before := packages;
      WithoutNothing(before);
      for i := 0 to |pkgs|
        invariant packages == Without(before, pkgs[..i])
      {
        WithoutPrefixStep(before, pkgs, i);
        RemovePackage(pkgs[i]);
      }
      assert pkgs[..|pkgs|] == pkgs;
      return Ok;
    }

    /** `update`: dispatch on the `:action` field. */
    method Update(form: Form, isDocZip: seq<bv8> -> bool) returns (r: Response)
      modifies this
      ensures (r, packages) == UpdateOutcome(old(packages), config, helpers, form, isDocZip)
    {
      match Dispatch(form.action)
      case BadAction =>
        r := HttpError(400);
      case Ignore =>
        r := Ok;
      case Invoke(DocUploadCall) =>
        r := DocUploadOutcome(form.content, isDocZip);
      case Invoke(RemovePkgCall) =>
        r := RemovePkg(form.name, form.version);
      case Invoke(FileUploadCall) =>
        r := FileUpload(form.content, form.gpgSignature);
    }

    /** `POST /`: `update` behind `auth("update")`. */
    method Post(auth: Option<Credentials>, form: Form, isDocZip: seq<bv8> -> bool) returns (r: Response)
      modifies this
      ensures (r, packages) == PostOutcome(old(packages), config, helpers, auth, form, isDocZip)
    {
      var gate := Protect("update", config.authenticate, auth, config.auther);
      if gate.Deny? {
        return HttpError(gate.status);
      }
      r := Update(form, isDocZip);
    }

    /** `handle_rpc`: for a `search` call, the packages whose name contains
        the query, each with the running `_pypi_ordering` counter; any other
        method name gets an empty answer. */
    method HandleRpc(methodName: string, value: string) returns (r: Option<seq<SearchHit>>)
      ensures methodName != "search" ==> r == None
      ensures methodName == "search" ==> r == Some(SearchResults(packages, value))
    {
      if methodName != "search" {
        return None;
      }
      var all := packages;
      var response: seq<SearchHit> := [];
      var ordering := 0;
      var i := 0;
      while i < |all|
        invariant 0 <= i <= |all|
        invariant ordering == i
        invariant response == SearchResults(all[..i], value)
      {
        var p := all[i];
        assert all[..i + 1][..i] == all[..i] && all[..i + 1][i] == p;
        SearchResultsLast(all[..i + 1], value);
        if NameMatches(p, value) {
          response := response + [HitFor(ordering, p)];
        }
        ordering := ordering + 1;
        i := i + 1;
      }
      assert all[..|all|] == all;
      return Some(response);
    }

    /** `server_static`: the first listed package whose forward-slash
        relative path is the requested name, or 404. */
    method ServeStatic(filename: string) returns (r: StaticReply)
      ensures r.FileNotFound? <==> forall i :: 0 <= i < |packages| ==> packages[i].relfnUnix != filename
      ensures r.Serve? ==>
        exists i :: 0 <= i < |packages| && packages[i] == r.pkg && r.pkg.relfnUnix == filename
                    && forall j :: 0 <= j < i ==> packages[j].relfnUnix != filename
    {
      var entries := packages;
      for i := 0 to |entries|
        invariant forall j :: 0 <= j < i ==> entries[j].relfnUnix != filename
      {
        if entries[i].relfnUnix == filename {
          return Serve(entries[i]);
        }
      }
      return FileNotFound;
    }
  }
}
