/** The module-proxy client of proxy/proxy.go: the base URL of the service, the URLs it
    requests, the search for the module root by probing shorter and shorter paths for a
    zip archive (`makeZip`), the version list, and `GetDoc`, which puts them together.
    The HTTP client is an oracle `get` from URLs to responses. */
module Proxy {
  import opened GoStrings
  import opened Seqs
  import opened GoSource
  import opened Doc
  import opened Assembly
  import opened Builder

  /** The service of `NewService`: the proxy's base URL. */
  datatype Service = Service(url: string)

  /** What a GET request yields: a response with its status and body, or a transport
      error (the error of `http.DefaultClient.Do`). */
  datatype Response = Response(status: int, body: string) | TransportError(message: string)

  /** `NewService`: the base URL without one trailing `/`. */
  function NewService(url: string): (r: Service)
    ensures HasSuffix(url, "/") ==> r.url + "/" == url
    ensures !HasSuffix(url, "/") ==> r.url == url
  {
    Service(TrimSuffix(url, "/"))
  }

  /** Only one slash goes: a base URL ending in two keeps one of them. */
  lemma NewServiceDropsOneSlash(url: string)
    ensures NewService(url).url <= url && |url| - 1 <= |NewService(url).url|
    ensures |url| >= 2 && url[|url| - 1] == '/' && url[|url| - 2] == '/' ==>
              NewService(url).url[|url| - 2] == '/'
  {
    var r := NewService(url).url;
    if |url| >= 1 && url[|url| - 1] == '/' {
      assert url[|url| - 1..] == "/";
      assert r + "/" == url;
      assert url[..|r|] == r;
    } else {
      assert !HasSuffix(url, "/");
    }
  }

  /** The URL `fetch` requests: `<url>/<mod>/@v/<ver><ext>`. */
  function FetchURL(base: string, mod: string, ver: string, ext: string): string
  {
    base + "/" + mod + "/@v/" + ver + ext
  }

  /** Module paths carry no `@`, so a request URL names its module and version: two
      requests of the same service and extension for different modules or versions go to
      different URLs. */
  lemma FetchURLInjective(base: string, m1: string, v1: string, m2: string, v2: string, ext: string)
    requires '@' !in m1 && '@' !in m2
    requires FetchURL(base, m1, v1, ext) == FetchURL(base, m2, v2, ext)
    ensures m1 == m2 && v1 == v2
  {
    var t1 := RequestPath(base, m1, v1, ext);
    var t2 := RequestPath(base, m2, v2, ext);
    Cancel(base + "/", t1, t2);
    var k1 := PathAt(m1, v1 + ext);
    var k2 := PathAt(m2, v2 + ext);
    assert |m1| == |m2|;
    assert m1 == t1[..|m1|] && m2 == t2[..|m2|];
    assert t1[|m1| + 4..] == v1 + ext && t2[|m2| + 4..] == v2 + ext;
    Cancel'(v1, v2, ext);
  }

  /** The part of a request URL after the base and its slash. */
  lemma RequestPath(base: string, mod: string, ver: string, ext: string) returns (t: string)
    ensures t == mod + "/@v/" + (ver + ext) && FetchURL(base, mod, ver, ext) == (base + "/") + t
  {
    t := mod + "/@v/" + (ver + ext);
  }

  /** The first `@` of `mod/@v/rest`, for a module path without one, follows the slash
      after the path. */
  lemma PathAt(mod: string, rest: string) returns (k: int)
    requires '@' !in mod
    ensures k == IndexOf(mod + "/@v/" + rest, '@') == |mod| + 1
  {
    var t := mod + "/@v/" + rest;
    assert t == (mod + "/") + ("@v/" + rest);
    assert '@' !in mod + "/";
    IndexOfAfter(mod + "/", "@v/" + rest, '@');
    k := IndexOf(t, '@');
  }

  lemma Cancel(a: string, x: string, y: string)
    requires a + x == a + y
    ensures x == y
  {
    assert x == (a + x)[|a|..];
    assert y == (a + y)[|a|..];
  }

  lemma Cancel'(x: string, y: string, e: string)
    requires x + e == y + e
    ensures x == y
  {
    assert x == (x + e)[..|x|];
    assert y == (y + e)[..|y|];
  }

  /** The proxy's answer to the request for the archive of `path` at `ver`. */
  function ZipResponse(s: Service, ver: string, get: string -> Response, path: string): Response
  {
    get(FetchURL(s.url, path, ver, ".zip"))
  }

  /** The outcome of `makeZip`'s probes: the path that served the archive and the
      requested package's directory below it; the probe reaching `.` ("invalid path");
      or a transport error. */
  datatype ZipOutcome = Found(path: string, subdir: string) | InvalidPath(mod: string) | Transport(message: string)

  /** The shape of the probing loop's state: the first probe is `mod` with no
      sub-directory, later ones a parent of `mod` with the rest of `mod` below it, or `.`. */
  predicate ProbeState(mod: string, path: string, subdir: string)
  {
    path == "." || (path == mod && subdir == "") || mod == path + "/" + subdir
  }

  /** Smaller for every parent taken: `Dir` shortens a path with a `/` and gives `.`
      for one without. */
  function ProbeMeasure(path: string): nat
  {
    if path == "." then 0 else |path| + 1
  }

  lemma DirShrinks(path: string)
    requires path != "."
    ensures ProbeMeasure(Dir(path)) < ProbeMeasure(path)
  {
  }

  /** The parent probed after `path`, with its sub-directory. */
  lemma ParentState(mod: string, path: string, subdir: string)
    requires |mod| >= 2 && ProbeState(mod, path, subdir) && path != "."
    ensures |Dir(path)| + 1 <= |mod|
    ensures ProbeState(mod, Dir(path), mod[|Dir(path)| + 1..])
  {
    var p := Dir(path);
    if p != "." {
      assert p + "/" <= path;
      assert path <= mod;
      assert mod == p + "/" + mod[|p| + 1..];
    }
  }

  /** The probes of `makeZip` from `path` on, as a function of the responses. */
  function Probe(s: Service, mod: string, ver: string, get: string -> Response, path: string, subdir: string): (r: ZipOutcome)
    requires |mod| >= 2 && ProbeState(mod, path, subdir)
    decreases ProbeMeasure(path)
  {
    if path == "." then InvalidPath(mod)
    else
      match ZipResponse(s, ver, get, path)
      case TransportError(e) => Transport(e)
      case Response(status, _) =>
        if status == 200 then Found(path, subdir)
        else
          DirShrinks(path);
          ParentState(mod, path, subdir);
          Probe(s, mod, ver, get, Dir(path), mod[|Dir(path)| + 1..])
  }

  /** The paths `makeZip` may probe from `path` on: `path`, its parent, and so on up to
      (without) `.`. */
  function Candidates(path: string): seq<string>
    decreases ProbeMeasure(path)
  {
    if path == "." then [] else DirShrinks(path); [path] + Candidates(Dir(path))
  }

  /** The proxy declines `path`: it answers, with a status other than 200. */
  predicate Declines(s: Service, ver: string, get: string -> Response, path: string)
  {
    var resp := ZipResponse(s, ver, get, path);
    resp.Response? && resp.status != 200
  }

  /** The position of the first candidate of `c` the proxy does not decline, or `|c|`. */
  function FirstAnswered(s: Service, ver: string, get: string -> Response, c: seq<string>): (i: nat)
    ensures i <= |c|
    ensures forall j :: 0 <= j < i ==> Declines(s, ver, get, c[j])
    ensures i < |c| ==> !Declines(s, ver, get, c[i])
  {
    if c == [] then 0
    else if !Declines(s, ver, get, c[0]) then 0
    else 1 + FirstAnswered(s, ver, get, c[1..])
  }

  /** The probe stops at the first candidate the proxy does not decline, and is an
      invalid path exactly when every candidate is declined. */
  lemma {:induction false} ProbeInvalidWhenAllDecline(s: Service, mod: string, ver: string, get: string -> Response,
                                                      path: string, subdir: string)
    requires |mod| >= 2 && ProbeState(mod, path, subdir)
    ensures Probe(s, mod, ver, get, path, subdir).InvalidPath? <==>
            FirstAnswered(s, ver, get, Candidates(path)) == |Candidates(path)|
    decreases ProbeMeasure(path)
  {
    if path != "." {
      DirShrinks(path);
      var c := Candidates(path);
      assert c[0] == path && c[1..] == Candidates(Dir(path));
      if Declines(s, ver, get, path) {
        ParentState(mod, path, subdir);
        var sub := mod[|Dir(path)| + 1..];
        assert Probe(s, mod, ver, get, path, subdir) == Probe(s, mod, ver, get, Dir(path), sub);
        assert FirstAnswered(s, ver, get, c) == 1 + FirstAnswered(s, ver, get, c[1..]);
        ProbeInvalidWhenAllDecline(s, mod, ver, get, Dir(path), sub);
      } else {
        assert FirstAnswered(s, ver, get, c) == 0;
      }
    }
  }

  /** A found archive is served at the first candidate the proxy does not decline, and
      it is served with status 200. */
  lemma {:induction false} ProbeFoundAtFirst(s: Service, mod: string, ver: string, get: string -> Response,
                                             path: string, subdir: string)
    requires |mod| >= 2 && ProbeState(mod, path, subdir)
    ensures var r := Probe(s, mod, ver, get, path, subdir);
            var c := Candidates(path);
            var i := FirstAnswered(s, ver, get, c);
            r.Found? ==> i < |c| && r.path == c[i] && ZipResponse(s, ver, get, c[i]).Response? &&
                         ZipResponse(s, ver, get, c[i]).status == 200
    decreases ProbeMeasure(path)
  {
    if path != "." {
      DirShrinks(path);
      var c := Candidates(path);
      assert c[0] == path && c[1..] == Candidates(Dir(path));
      if Declines(s, ver, get, path) {
        ParentState(mod, path, subdir);
        var sub := mod[|Dir(path)| + 1..];
        assert Probe(s, mod, ver, get, path, subdir) == Probe(s, mod, ver, get, Dir(path), sub);
        assert FirstAnswered(s, ver, get, c) == 1 + FirstAnswered(s, ver, get, c[1..]);
        ProbeFoundAtFirst(s, mod, ver, get, Dir(path), sub);
      } else {
        assert FirstAnswered(s, ver, get, c) == 0;
      }
    }
  }

  /** A transport error is the answer to the first candidate the proxy does not decline. */
  lemma {:induction false} ProbeTransportAtFirst(s: Service, mod: string, ver: string, get: string -> Response,
                                                 path: string, subdir: string)
    requires |mod| >= 2 && ProbeState(mod, path, subdir)
    ensures var r := Probe(s, mod, ver, get, path, subdir);
            var c := Candidates(path);
            var i := FirstAnswered(s, ver, get, c);
            r.Transport? ==> i < |c| && ZipResponse(s, ver, get, c[i]) == TransportError(r.message)
    decreases ProbeMeasure(path)
  {
    if path != "." {
      DirShrinks(path);
      var c := Candidates(path);
      assert c[0] == path && c[1..] == Candidates(Dir(path));
      if Declines(s, ver, get, path) {
        ParentState(mod, path, subdir);
        var sub := mod[|Dir(path)| + 1..];
        assert Probe(s, mod, ver, get, path, subdir) == Probe(s, mod, ver, get, Dir(path), sub);
        assert FirstAnswered(s, ver, get, c) == 1 + FirstAnswered(s, ver, get, c[1..]);
        ProbeTransportAtFirst(s, mod, ver, get, Dir(path), sub);
      } else {
        assert FirstAnswered(s, ver, get, c) == 0;
      }
    }
  }

  /** A found archive is the module's own, or a parent's with the rest of the module
      path as the package's directory. */
  lemma {:induction false} FoundSplitsPath(s: Service, mod: string, ver: string, get: string -> Response,
                                           path: string, subdir: string)
    requires |mod| >= 2 && ProbeState(mod, path, subdir)
    requires Probe(s, mod, ver, get, path, subdir).Found?
    ensures var r := Probe(s, mod, ver, get, path, subdir);
            (r.path == mod && r.subdir == "") || mod == r.path + "/" + r.subdir
    decreases ProbeMeasure(path)
  {
    if ZipResponse(s, ver, get, path).Response? && ZipResponse(s, ver, get, path).status != 200 {
      DirShrinks(path);
      ParentState(mod, path, subdir);
      FoundSplitsPath(s, mod, ver, get, Dir(path), mod[|Dir(path)| + 1..]);
    }
  }

  /** `makeZip`'s probing loop: `mod`, then its parents, until the proxy serves the
      archive, fails to answer, or the path is used up. */
  method MakeZip(s: Service, mod: string, ver: string, get: string -> Response) returns (r: ZipOutcome)
    requires |mod| >= 2
    ensures r == Probe(s, mod, ver, get, mod, "")
  {
    var path := mod;
    var subdir := "";
    while true
      invariant ProbeState(mod, path, subdir)
      invariant Probe(s, mod, ver, get, path, subdir) == Probe(s, mod, ver, get, mod, "")
      decreases ProbeMeasure(path)
    {
      if path == "." {
        return InvalidPath(mod);
      }
      var resp := ZipResponse(s, ver, get, path);
      if resp.TransportError? {
        return Transport(resp.message);
      }
      if resp.status == 200 {
        break;
      }
      DirShrinks(path);
      ParentState(mod, path, subdir);
      path := Dir(path);
      subdir := mod[|path| + 1..];
    }
    return Found(path, subdir);
  }

  /** `GetDoc`'s module root: `mod` itself, or `mod` without the requested package's
      directory and the slash before it. */
  function ModRoot(mod: string, subpkg: string): string
    requires |subpkg| <= |mod|
  {
    if subpkg != "" then TrimSuffix(mod[..|mod| - |subpkg|], "/") else mod
  }

  /** For a module path without a trailing slash, the module root is the path that
      served the archive, and the package's directory below it makes up the module path. */
  lemma ModRootIsFoundPath(s: Service, mod: string, ver: string, get: string -> Response)
    requires |mod| >= 2 && mod[|mod| - 1] != '/'
    requires Probe(s, mod, ver, get, mod, "").Found?
    ensures var r := Probe(s, mod, ver, get, mod, "");
            && |r.subdir| <= |mod|
            && ModRoot(mod, r.subdir) == r.path
            && (r.subdir != "" ==> ModRoot(mod, r.subdir) + "/" + r.subdir == mod)
  {
    FoundSplitsPath(s, mod, ver, get, mod, "");
    var r := Probe(s, mod, ver, get, mod, "");
    if r.subdir != "" {
      assert mod[..|mod| - |r.subdir|] == r.path + "/";
    }
  }

  /** `getVersions`: the lines of the proxy's version list, or nothing when the request
      fails or is not answered with 200 (the channel is closed without a value). */
  function GetVersions(s: Service, mod: string, get: string -> Response): (r: Option<seq<string>>)
    ensures r.Some? <==> get(FetchURL(s.url, mod, "list", "")).Response? &&
                         get(FetchURL(s.url, mod, "list", "")).status == 200
    ensures r.Some? ==> |r.value| >= 1 && forall k :: 0 <= k < |r.value| ==> '\n' !in r.value[k]
  {
    match get(FetchURL(s.url, mod, "list", ""))
    case TransportError(_) => None
    case Response(status, body) => if status == 200 then Some(Split(body, '\n')) else None
  }

  /** The version list holds the whole body: joining its lines gives it back. */
  lemma GetVersionsKeepsBody(s: Service, mod: string, get: string -> Response)
    requires GetVersions(s, mod, get).Some?
    ensures Join(GetVersions(s, mod, get).value, '\n') == get(FetchURL(s.url, mod, "list", "")).body
  {
    JoinSplit(get(FetchURL(s.url, mod, "list", "")).body, '\n');
  }

  /** Why `GetDoc` could not produce a page: the archive could not be found, or the
      builder failed on it. */
  datatype DocError = ZipFailed(outcome: ZipOutcome) | BuildFailed(error: BuildError)

  /** `GetDoc`: find the archive, build the page of the requested package with a new
      builder, and add the module root and the version list. `files` are the entries
      of the archive the proxy served. */
  method GetDoc(s: Service, mod: string, ver: string, get: string -> Response, files: seq<ZipEntry>, tc: Toolchain)
    returns (r: Result<Documentation, DocError>)
    requires |mod| >= 2
    requires forall n, m :: PackageWellFormed(tc.docNew(n, m))
    ensures var z := Probe(s, mod, ver, get, mod, "");
            !z.Found? ==> r == Err(ZipFailed(z))
    ensures var z := Probe(s, mod, ver, get, mod, "");
            z.Found? ==>
              var scan := ScanAll(files, KindIn(z.subdir), tc, []);
              && (scan.Err? ==> r == Err(BuildFailed(scan.error)))
              && (scan.Ok? ==> (r.Err? <==> |scan.value.mods| > 0 && ClosestModFile(scan.value.mods, mod).None?))
              && (r.Err? ==> r.error.BuildFailed?)
    ensures r.Ok? ==>
              var z := Probe(s, mod, ver, get, mod, "");
              && z.Found? && |z.subdir| <= |mod|
              && var sc := ScanAll(files, KindIn(z.subdir), tc, []).value;
                 var importPath := tc.decodePath(mod).GetOr("");
                 var goMod := if |sc.mods| > 0 then GoModText(ClosestModFile(sc.mods, mod).value, tc) else "";
                 var modRoot := ModRoot(mod, z.subdir);
                 && SubdirsOf(r.value.subdirs, sc.dirs, importPath, ver, files, tc)
                 && r.value == DocFor(sc, tc.examples(sc.tests), tc.docNew(mod, sc.sources), ver, importPath,
                                      r.value.subdirs, goMod, tc.toHTML)
                                 .(moduleRoot := tc.decodePath(modRoot).GetOr(""),
                                   versions := GetVersions(s, modRoot, get).GetOr([]))
  {
    var zip := MakeZip(s, mod, ver, get);
    if !zip.Found? {
      return Err(ZipFailed(zip));
    }
    FoundSplitsPath(s, mod, ver, get, mod, "");
    var subpkg := zip.subdir;
    var modRoot := mod;
    if subpkg != "" {
      var rootIdx := |mod| - |subpkg|;
      modRoot := TrimSuffix(mod[0..rootIdx], "/");
    }
    var versions := GetVersions(s, modRoot, get);
    var bldr := new Builder();
    var proxyDoc := bldr.GetGoDoc(mod, ver, subpkg, files, tc);
    if proxyDoc.Err? {
      return Err(BuildFailed(proxyDoc.error));
    }
    r := Ok(proxyDoc.value.(moduleRoot := tc.decodePath(modRoot).GetOr(""), versions := versions.GetOr([])));
  }
}
