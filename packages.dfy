/** Package records as the backend lists them, the form fields a request
    carries, and the list operations the handlers perform on the backend. */
module Packages {

  datatype Option<+T> = None | Some(value: T)

  /** One distribution file known to the backend: project name and version
      as parsed from the file name, the path relative to its root (native
      and with forward slashes), the base name, and the file's bytes. */
  datatype PkgFile = PkgFile(
    pkgname: string,
    version: string,
    relfn: string,
    relfnUnix: string,
    filename: string,
    data: seq<bv8>)

  /** What the file-name parser extracts from a distribution file name. */
  datatype NameVersion = NameVersion(name: string, version: string)

  /** A file field of a multipart form: the file name the client sent and
      the bytes. */
  datatype FileField = FileField(rawFilename: string, data: seq<bv8>)

  /** The outcome of a handler: success (an empty 200 body) or an HTTP error. */
  datatype Response = Ok | HttpError(status: int)

  /** The elements of s that satisfy f, in their order in s. */
  function Keep<T(!new)>(s: seq<T>, f: T -> bool): (r: seq<T>)
    ensures |r| <= |s|
    ensures forall x :: x in r <==> x in s && f(x)
  {
    if s == [] then [] else (if f(s[0]) then [s[0]] else []) + Keep(s[1..], f)
  }

  /** The elements of s that do not occur in xs, in their order in s. */
  function Without<T(==,!new)>(s: seq<T>, xs: seq<T>): (r: seq<T>)
    ensures |r| <= |s|
    ensures forall x :: x in r <==> x in s && x !in xs
  {
    if s == [] then [] else (if s[0] in xs then [] else [s[0]]) + Without(s[1..], xs)
  }

  lemma {:induction false} WithoutNothing<T(!new)>(s: seq<T>)
    ensures Without(s, []) == s
  {
    if s != [] {
      WithoutNothing(s[1..]);
      assert s == [s[0]] + s[1..];
    }
  }

  /** Removing the elements of xs and then y is removing the elements of xs + [y]. */
  lemma {:induction false} WithoutAppend<T(!new)>(s: seq<T>, xs: seq<T>, y: T)
    ensures Without(Without(s, xs), [y]) == Without(s, xs + [y])
  {
    if s != [] {
      var x, rest := s[0], s[1..];
      WithoutAppend(rest, xs, y);
      var w := Without(rest, xs);
      assert x in xs + [y] <==> x in xs || x == y;
      if x in xs {
        assert Without(s, xs) == w;
        assert Without(s, xs + [y]) == Without(rest, xs + [y]);
      } else {
        var t := [x] + w;
        assert Without(s, xs) == t;
        assert t[0] == x && t[1..] == w;
        if x == y {
          assert Without(t, [y]) == Without(w, [y]);
          assert Without(s, xs + [y]) == Without(rest, xs + [y]);
        } else {
          assert Without(t, [y]) == [x] + Without(w, [y]);
          assert Without(s, xs + [y]) == [x] + Without(rest, xs + [y]);
        }
      }
    }
  }

  /** One more removal extends the prefix of xs already removed. */
  lemma WithoutPrefixStep<T(!new)>(s: seq<T>, xs: seq<T>, i: nat)
    requires i < |xs|
    ensures Without(Without(s, xs[..i]), [xs[i]]) == Without(s, xs[..i + 1])
  {
    assert xs[..i + 1] == xs[..i] + [xs[i]];
    WithoutAppend(s, xs[..i], xs[i]);
  }

  /** Removing the elements that a predicate selects leaves exactly the
      others: the removed part and the remaining part make up s. */
  lemma {:induction false} WithoutSelected<T(!new)>(s: seq<T>, xs: seq<T>, f: T -> bool)
    requires forall x :: x in s ==> (x in xs <==> f(x))
    ensures multiset(Without(s, xs)) + multiset(Keep(s, f)) == multiset(s)
  {
    if s != [] {
      var x, rest := s[0], s[1..];
      assert s == [x] + rest;
      assert x in s;
      assert forall y :: y in rest ==> y in s;
      WithoutSelected(rest, xs, f);
      assert multiset(s) == multiset{x} + multiset(rest);
      if f(x) {
        assert Without(s, xs) == Without(rest, xs);
        assert Keep(s, f) == [x] + Keep(rest, f);
        assert multiset(Keep(s, f)) == multiset{x} + multiset(Keep(rest, f));
      } else {
        assert Without(s, xs) == [x] + Without(rest, xs);
        assert multiset(Without(s, xs)) == multiset{x} + multiset(Without(rest, xs));
        assert Keep(s, f) == Keep(rest, f);
      }
    }
  }

  /** The backend's `exists`: some listed file has this base name. */
  predicate Exists(s: seq<PkgFile>, filename: string)
  {
    exists i :: 0 <= i < |s| && s[i].filename == filename
  }

  /** The record an upload becomes: stored at the top of the root under the
      name the client sent, with the name and version the parser gave. */
  function Stored(nv: NameVersion, f: FileField): PkgFile
  {
    PkgFile(nv.name, nv.version, f.rawFilename, f.rawFilename, f.rawFilename, f.data)
  }

  /** The list after the backend's `add_package`: a file already at that
      path is replaced, and the new record is listed last. */
  function Added(s: seq<PkgFile>, nv: NameVersion, f: FileField): (r: seq<PkgFile>)
    ensures r != [] && r[|r| - 1] == Stored(nv, f) && Exists(r, f.rawFilename)
    ensures forall p :: p in r <==> p == Stored(nv, f) || (p in s && p.relfn != f.rawFilename)
  {
    var r := Keep(s, (p: PkgFile) => p.relfn != f.rawFilename) + [Stored(nv, f)];
    assert r[|r| - 1] == Stored(nv, f);
    r
  }

  /** A name other than the stored file's exists after `add_package` only
      if it existed before. */
  lemma ExistsAfterAdd(s: seq<PkgFile>, nv: NameVersion, f: FileField, name: string)
    requires name != f.rawFilename
    requires Exists(Added(s, nv, f), name)
    ensures Exists(s, name)
  {
  }
}
