/** The path half of a cookie: clean-up when it is stored, and comparison with a request. */
module CookiePath {
  import opened Text

  /** The path with its enclosing quotes and one trailing slash removed; "/" itself becomes "". */
  function Sanitize(path: string): string {
    var p := if path != [] && path[0] == '\"' then path[1..] else path;
    var q := if p != [] && p[|p| - 1] == '\"' then p[..|p| - 1] else p;
    if q == [] || q[0] != '/' then "/"
    else if q[|q| - 1] == '/' then q[..|q| - 1]
    else q
  }

  /** The part of a request target before its query, "/" when that is not an absolute path. */
  function UriPath(uri: string): (path: string)
    ensures path != [] && path[0] == '/'
    ensures if uri == "" || uri[0] != '/' then path == "/"
            else path <= uri && '?' !in path && (|path| < |uri| ==> uri[|path|] == '?')
  {
    var p := Until(uri, '?');
    if p == [] || p[0] != '/' then "/" else p
  }

  predicate PathMatch(cookiePath: string, uri: string) {
    |cookiePath| == 1
    || (var path := UriPath(uri);
        && cookiePath <= path
        && (|cookiePath| == |path| || path[|cookiePath|] == '/'))
  }

  /** Section 5.1.4 of RFC 6265. */
  predicate RfcPathMatch(cookiePath: string, path: string) {
    cookiePath <= path
    && (|cookiePath| == |path|
        || (cookiePath != [] && cookiePath[|cookiePath| - 1] == '/')
        || path[|cookiePath|] == '/')
  }

  /** A sanitized path that still ends in a slash is where the code is narrower than the RFC. */
  lemma PathMatchIsRfc(path: string, spath: string)
    requires spath == Sanitize(path)
    ensures (forall uri :: PathMatch(spath, uri) <==> RfcPathMatch(spath, UriPath(uri)))
       <==> |spath| <= 1 || spath[|spath| - 1] != '/' || '?' in spath
  {
    if |spath| > 1 && spath[|spath| - 1] == '/' && '?' !in spath {
      var uri := spath + "a";
      UntilIsAll(uri, '?');
      assert UriPath(uri) == uri && uri[|spath|] == 'a' && uri[..|spath|] == spath;
      assert !PathMatch(spath, uri) && RfcPathMatch(spath, UriPath(uri));
    } else if '?' in spath {
      forall uri ensures !(spath <= UriPath(uri)) {
        assert '?' !in UriPath(uri);
      }
    }
  }

  /** Of two slashes at the end of a path one is kept, and the cookie is not sent to what lies under it. */
  lemma DoubleSlashIsNarrower()
    ensures Sanitize("/a//") == "/a/"
    ensures !PathMatch("/a/", "/a/b") && RfcPathMatch("/a/", UriPath("/a/b"))
  {
    UntilIsAll("/a/b", '?');
    assert "/a/b"[..3] == "/a/";
  }

  /** Against the path attribute as it was given the code differs where it cuts something off: it then matches the
      path without its last slash or quote, which the standard does not. */
  lemma StoredPathIsRfcExactly(path: string)
    requires path != "" && path[0] == '/'
    ensures (forall uri :: PathMatch(Sanitize(path), uri) <==> RfcPathMatch(path, UriPath(uri)))
       <==> path == "/" || '?' in path || (path[|path| - 1] != '/' && path[|path| - 1] != '\"')
  {
    var spath, last := Sanitize(path), path[|path| - 1];
    if '?' in path {
      assert '?' in spath;
      forall uri ensures !(spath <= UriPath(uri)) && !(path <= UriPath(uri)) {
        assert '?' !in UriPath(uri);
      }
    } else if path != "/" && (last == '/' || last == '\"') {
      var uri := if spath == "" then "/" else spath;
      UntilIsAll(uri, '?');
      assert PathMatch(spath, uri) && !RfcPathMatch(path, UriPath(uri));
    }
  }

  /** "/a/" is stored as "/a", and sent to "/a". */
  lemma SlashIsWider()
    ensures PathMatch(Sanitize("/a/"), "/a") && !RfcPathMatch("/a/", UriPath("/a"))
  {
    UntilIsAll("/a", '?');
  }
}
