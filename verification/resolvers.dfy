/**
  The two resolvers the bundler hands to the reference parser. The file
  resolver reads local and `file:` locations; the http resolver reads `http:`
  and `https:` locations after passing the resolved URL through the location
  table. The injected reader, the URL resolver and `path.relative` are
  function parameters the model does not interpret. Each read records the URL
  it was given in `fetched`, so the contracts can say which URL was fetched and
  how many times.
 */
module Resolvers {
  import opened Wrappers
  import opened Strings
  import opened Protocol
  import opened LocationTable

  /** What one bundling call is given: the base URL and the injected collaborators. */
  datatype Env = Env(
    baseUrl: string,
    resolveUrl: (string, string) -> string,
    relative: (string, string) -> string,
    table: Table)

  /** The environment `bundleFileWithRefs` builds: its collaborators and its fixed table. */
  function BundlerEnv(
    baseUrl: string,
    resolveUrl: (string, string) -> string,
    relative: (string, string) -> string): Env
  {
    Env(baseUrl, resolveUrl, relative, TranslateLocations)
  }

  datatype Resolver = FileResolver | HttpResolver

  datatype ResolveError = UnsupportedProtocol(url: string)

  /** The `canRead` test of each resolver. */
  predicate CanRead(resolver: Resolver, url: string) {
    match resolver
    case FileResolver => FileCanRead(url)
    case HttpResolver => HttpCanRead(url)
  }

  /** The resolvers that claim `url`: never more than one. */
  function Claimants(url: string): (claim: set<Resolver>)
    ensures |claim| <= 1
    ensures forall r :: r in claim <==> CanRead(r, url)
  {
    CanReadDisjoint(url);
    if FileCanRead(url) then {FileResolver}
    else if HttpCanRead(url) then {HttpResolver}
    else {}
  }

  /** The URL the file resolver hands to the reader. */
  function FileLocation(url: string, env: Env): string {
    env.resolveUrl(env.relative(".", url), env.baseUrl)
  }

  /** The URL the http resolver hands to the reader. */
  function HttpLocation(url: string, env: Env): string {
    Translate(env.resolveUrl(url, env.baseUrl), env.table)
  }

  /** `read` of the file resolver: one read of the resolved relative path, with no table lookup. */
  method FileRead<C>(url: string, env: Env, read: string -> C) returns (content: C, fetched: seq<string>)
    ensures fetched == [FileLocation(url, env)]
    ensures content == read(fetched[0])
  {
    var relativePath := env.relative(".", url);
    var resolved := env.resolveUrl(relativePath, env.baseUrl);
    content := read(resolved);
    fetched := [resolved];
  }

  /**
    `read` of the http resolver: resolve against the base URL, scan the table in
    order, and on the first key that is a suffix read the mapped URL instead.
   */
  method HttpRead<C>(url: string, env: Env, read: string -> C) returns (content: C, fetched: seq<string>)
    ensures |fetched| == 1 && content == read(fetched[0])
    ensures IsTranslation(env.resolveUrl(url, env.baseUrl), env.table, fetched[0])
  {
    var resolved := env.resolveUrl(url, env.baseUrl);
    var urlPom := resolved;
    var i := 0;
    while i < |env.table|
      invariant 0 <= i <= |env.table|
      invariant urlPom == resolved
      invariant forall j :: 0 <= j < i ==> !EndsWith(resolved, env.table[j].key)
    {
      if EndsWith(urlPom, env.table[i].key) {
        assert FirstMatchAt(resolved, env.table, i);
        urlPom := env.table[i].location;
        content := read(urlPom);
        fetched := [urlPom];
        return;
      }
      i := i + 1;
    }
    content := read(urlPom);
    fetched := [urlPom];
  }

  /** The http resolver reads exactly the URL the location table yields. */
  lemma HttpReadsTranslation(url: string, env: Env, r: string)
    requires IsTranslation(env.resolveUrl(url, env.baseUrl), env.table, r)
    ensures r == HttpLocation(url, env)
  {
    TranslationUnique(env.resolveUrl(url, env.baseUrl), env.table, r, HttpLocation(url, env));
  }

  /**
    How the reference parser uses the two resolvers for one reference: the
    resolver that claims it reads it; when neither does, the reference fails
    without any read.
   */
  method ReadRef<C>(url: string, env: Env, read: string -> C)
    returns (res: Result<C, ResolveError>, fetched: seq<string>)
    ensures FileCanRead(url) ==> fetched == [FileLocation(url, env)]
    ensures HttpCanRead(url) ==> fetched == [HttpLocation(url, env)]
    ensures CanRead(FileResolver, url) || CanRead(HttpResolver, url) <==> res.Success?
    ensures res.Success? ==> |fetched| == 1 && res.value == read(fetched[0])
    ensures res.Failure? ==> fetched == [] && res.error == UnsupportedProtocol(url)
  {
    if FileCanRead(url) {
      var content;
      content, fetched := FileRead(url, env, read);
      res := Success(content);
    } else if HttpCanRead(url) {
      var content;
      content, fetched := HttpRead(url, env, read);
      HttpReadsTranslation(url, env, fetched[0]);
      res := Success(content);
    } else {
      res := Failure(UnsupportedProtocol(url));
      fetched := [];
    }
  }

  /** The file resolver's read does not depend on the location table at all. */
  lemma FileLocationIgnoresTable(url: string, env: Env, table: Table)
    ensures FileLocation(url, env) == FileLocation(url, env.(table := table))
  {
  }

  /** In the bundler's environment, a reference whose resolved URL ends with a known key reads that key's location. */
  lemma KnownLocationRead(
    url: string, baseUrl: string,
    resolveUrl: (string, string) -> string, relative: (string, string) -> string, i: int)
    requires 0 <= i < |TranslateLocations|
    requires EndsWith(resolveUrl(url, baseUrl), TranslateLocations[i].key)
    ensures HttpLocation(url, BundlerEnv(baseUrl, resolveUrl, relative)) == TranslateLocations[i].location
  {
    TranslateLocationsSuffixFree();
    SuffixFreeTranslation(resolveUrl(url, baseUrl), TranslateLocations, TranslateLocations[i]);
  }
}
