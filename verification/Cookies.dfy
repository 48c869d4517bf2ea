/** A cookie as it is kept in the jar, and the operations and tests on single cookies. */
module Cookies {
  import opened Ascii
  import opened CookieDomain
  import opened CookiePath
  import opened Wrappers

  datatype Cookie = Cookie(
    name: string,
    value: Option<string>,
    path: Option<string>,
    spath: Option<string>,
    domain: Option<string>,
    expires: int,
    tailmatch: bool,
    secure: bool,
    livecookie: bool,
    httponly: bool,
    creationtime: int)

  function DifferentTimes(): (Cookie, Cookie) -> bool {
    (c: Cookie, d: Cookie) => c.creationtime != d.creationtime
  }

  function NotExpired(now: int): Cookie -> bool {
    (c: Cookie) => !(c.expires != 0 && c.expires < now)
  }

  function NotSession(): Cookie -> bool {
    (c: Cookie) => c.expires != 0
  }

  /** The request tests: secure channel, domain, path. */
  function Applies(host: string, path: string, secure: bool): Cookie -> bool {
    (c: Cookie) =>
      && (c.secure ==> secure)
      && (c.domain.None?
          || (c.tailmatch && !IsIp(host) && TailMatch(c.domain.value, host))
          || ((!c.tailmatch || IsIp(host)) && EqualNoCase(host, c.domain.value)))
      && (c.spath.None? || PathMatch(c.spath.value, path))
  }

  predicate SameDomain(c: Cookie, d: Cookie) {
    if c.domain.Some? && d.domain.Some? then EqualNoCase(c.domain.value, d.domain.value) && c.tailmatch == d.tailmatch
    else c.domain.None? && d.domain.None?
  }

  /** What makes a new cookie stand for an old one. */
  predicate SameKey(c: Cookie, d: Cookie) {
    && EqualNoCase(c.name, d.name)
    && SameDomain(c, d)
    && (if c.spath.Some? && d.spath.Some? then EqualNoCase(c.spath.value, d.spath.value)
        else c.spath.None? && d.spath.None?)
  }

  function DifferentKeys(): (Cookie, Cookie) -> bool {
    (c: Cookie, d: Cookie) => !SameKey(c, d)
  }

  lemma SameKeySymmetric(c: Cookie, d: Cookie)
    ensures SameKey(c, d) == SameKey(d, c)
  {
  }

  lemma SameKeyTransitive(c: Cookie, d: Cookie, e: Cookie)
    requires SameKey(c, d) && SameKey(d, e)
    ensures SameKey(c, e)
  {
  }

  /** Cookies that stand for each other are kept in the same bucket. */
  lemma SameKeySameBucket(c: Cookie, d: Cookie)
    requires SameKey(c, d)
    ensures CookieHash(c.domain) == CookieHash(d.domain)
  {
    if c.domain.Some? { SameNameSameBucket(c.domain.value, d.domain.value); }
  }
}
