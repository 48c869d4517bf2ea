/** Which host a cookie's domain matches, and which bucket of the jar a domain is kept in. */
module CookieDomain {
  import opened Ascii
  import opened Wrappers

  const COOKIE_HASH_SIZE := 256

  /** The host ends in the cookie's domain, on a label boundary. */
  predicate TailMatch(domain: string, host: string) {
    |domain| <= |host|
    && EqualNoCase(domain, host[|host| - |domain|..])
    && (|domain| == |host| || host[|host| - |domain| - 1] == '.')
  }

  /** memrchr(s, '.', |s|): the index of the last dot, -1 when there is none. */
  function LastDot(s: string): (r: int)
    ensures -1 <= r < |s|
    ensures r >= 0 ==> s[r] == '.'
    ensures forall i :: r < i < |s| ==> s[i] != '.'
  {
    if s == [] then -1
    else if s[|s| - 1] == '.' then |s| - 1
    else LastDot(s[..|s| - 1])
  }

  /** The last two labels of a name, or all of it when it has fewer than two dots. */
  function TopDomain(domain: string): string {
    var last := LastDot(domain);
    if last < 0 then domain
    else
      var first := LastDot(domain[..last]);
      if first < 0 then domain else domain[first + 1..]
  }

  /** A `char` widened to size_t: C's plain char is signed. */
  function SizeOf(c: char): bv64 {
    var b := (c as int % 256) as bv8;
    if b < 128 then b as bv64 else b as bv64 | 0xFFFF_FFFF_FFFF_FF00
  }

  function HashStep(h: bv64, upper: char): bv64 {
    (h + (h << 5)) ^ SizeOf(upper)
  }

  function HashFrom(h: bv64, s: string): bv64 {
    if s == [] then h else HashStep(HashFrom(h, s[..|s| - 1]), s[|s| - 1])
  }

  function HashDomain(s: string): nat {
    (HashFrom(5381, Upper(s)) % 256) as bv8 as nat
  }

  /** The loop that computes the hash. */
  method ComputeHashDomain(domain: string) returns (bucket: nat)
    ensures bucket == HashDomain(domain)
    ensures bucket < COOKIE_HASH_SIZE
  {
    var h: bv64 := 5381;
    ghost var upper := Upper(domain);
    for i := 0 to |domain|
      invariant h == HashFrom(5381, upper[..i])
    {
      assert upper[..i + 1][..i] == upper[..i];
      h := HashStep(h, ToUpper(domain[i]));
    }
    assert upper[..|domain|] == upper;
    bucket := (h % 256) as bv8 as nat;
  }

  // ---- Textual IP addresses

  /** inet_pton4 as an automaton: value of the octet being read, octets begun, digit seen in this octet. */
  predicate Quad(s: string, octet: nat, octets: nat, sawDigit: bool) {
    if s == [] then octets >= 4
    else if IsDigit(s[0]) then
      var val := octet * 10 + DigitValue(s[0]);
      !(sawDigit && octet == 0) && val <= 255 && (sawDigit || octets < 4)
      && Quad(s[1..], val, if sawDigit then octets else octets + 1, true)
    else
      s[0] == '.' && sawDigit && octets != 4 && Quad(s[1..], 0, octets, false)
  }

  predicate IsIpv4(s: string) { Quad(s, 0, 0, false) }

  /** inet_pton6 as an automaton: bytes written, bytes before "::" if seen, hex digits in this group, text of the
      group. */
  predicate Groups(s: string, tp: nat, colon: Option<nat>, saw: nat, token: string)
    decreases s
  {
    if s == [] then
      var end := if saw > 0 then tp + 2 else tp;
      end <= 16 && (if colon.Some? then end != 16 else end == 16)
    else if IsXDigit(s[0]) then
      saw < 4 && Groups(s[1..], tp, colon, saw + 1, token)
    else if s[0] == ':' then
      if saw == 0 then
        colon.None? && Groups(s[1..], tp, Some(tp), 0, s[1..])
      else
        tp + 2 <= 16 && Groups(s[1..], tp + 2, colon, 0, s[1..])
    else
      s[0] == '.' && tp + 4 <= 16 && IsIpv4(token)
      && (if colon.Some? then tp + 4 != 16 else tp + 4 == 16)
  }

  predicate IsIpv6(s: string) {
    if s != [] && s[0] == ':' then
      |s| > 1 && s[1] == ':' && Groups(s[1..], 0, None, 0, s[1..])
    else
      Groups(s, 0, None, 0, s)
  }

  predicate IsIp(s: string) { IsIpv4(s) || IsIpv6(s) }

  /** The bucket a cookie with this domain is kept in; a cookie without a domain is kept in bucket 0. */
  function CookieHash(domain: Option<string>): (bucket: nat)
    ensures bucket < COOKIE_HASH_SIZE
  {
    if domain.None? || IsIp(domain.value) then 0 else HashDomain(TopDomain(domain.value))
  }

  /** Cookies without a domain, and those of addresses, are kept in the first bucket of 256. */
  lemma AddressesAreFirst(domain: Option<string>)
    ensures COOKIE_HASH_SIZE == 256 && CookieHash(domain) < 256
    ensures domain.None? || IsIpv4(domain.value) || IsIpv6(domain.value) ==> CookieHash(domain) == 0
  {
  }

  // ---- Nothing above depends on the case of letters

  lemma UpperTail(s: string, t: string)
    requires s != [] && EqualNoCase(s, t)
    ensures t != [] && ToUpper(s[0]) == ToUpper(t[0]) && EqualNoCase(s[1..], t[1..])
  {
    assert Upper(s)[0] == Upper(t)[0];
    assert |Upper(s)| == |Upper(t)|;
    assert Upper(s[1..]) == Upper(s)[1..] == Upper(t)[1..] == Upper(t[1..]);
  }

  lemma {:induction false} QuadIgnoresCase(s: string, t: string, octet: nat, octets: nat, sawDigit: bool)
    requires EqualNoCase(s, t)
    ensures Quad(s, octet, octets, sawDigit) == Quad(t, octet, octets, sawDigit)
    decreases s
  {
    assert |Upper(s)| == |Upper(t)|;
    if s != [] {
      UpperTail(s, t);
      if IsDigit(s[0]) {
        QuadIgnoresCase(s[1..], t[1..], octet * 10 + DigitValue(s[0]), if sawDigit then octets else octets + 1, true);
      } else {
        QuadIgnoresCase(s[1..], t[1..], 0, octets, false);
      }
    }
  }

  lemma {:induction false} GroupsIgnoreCase(s: string, t: string, tp: nat, colon: Option<nat>, saw: nat,
                                            token: string, token': string)
    requires EqualNoCase(s, t) && EqualNoCase(token, token')
    ensures Groups(s, tp, colon, saw, token) == Groups(t, tp, colon, saw, token')
    decreases s
  {
    assert |Upper(s)| == |Upper(t)|;
    if s != [] {
      UpperTail(s, t);
      if IsXDigit(s[0]) {
        GroupsIgnoreCase(s[1..], t[1..], tp, colon, saw + 1, token, token');
      } else if s[0] == ':' {
        var tp', colon' := if saw == 0 then tp else tp + 2, if saw == 0 then Some(tp) else colon;
        GroupsIgnoreCase(s[1..], t[1..], tp', colon', 0, s[1..], t[1..]);
      } else {
        QuadIgnoresCase(token, token', 0, 0, false);
      }
    }
  }

  lemma IsIpIgnoresCase(s: string, t: string)
    requires EqualNoCase(s, t)
    ensures IsIp(s) == IsIp(t)
  {
    QuadIgnoresCase(s, t, 0, 0, false);
    assert |Upper(s)| == |Upper(t)|;
    if s != [] {
      UpperTail(s, t);
      if s[0] == ':' {
        if |s| > 1 { UpperTail(s[1..], t[1..]); }
        GroupsIgnoreCase(s[1..], t[1..], 0, None, 0, s[1..], t[1..]);
      }
    }
    GroupsIgnoreCase(s, t, 0, None, 0, s, t);
  }

  // ---- The bucket of a host is the bucket of every domain that matches it

  lemma {:induction false} LastDotIs(s: string, r: int)
    requires -1 <= r < |s|
    requires r >= 0 ==> s[r] == '.'
    requires forall i :: r < i < |s| ==> s[i] != '.'
    ensures LastDot(s) == r
  {
  }

  lemma {:induction false} LastDotIgnoresCase(s: string, t: string)
    requires EqualNoCase(s, t)
    ensures LastDot(s) == LastDot(t)
  {
    assert |Upper(s)| == |Upper(t)|;
    forall i | 0 <= i < |s| ensures s[i] == '.' <==> t[i] == '.' {
      assert Upper(s)[i] == Upper(t)[i];
    }
    LastDotIs(t, LastDot(s));
  }

  lemma StartIgnoresCase(s: string, t: string, i: nat)
    requires EqualNoCase(s, t) && i <= |s|
    ensures |s| == |t| && EqualNoCase(s[..i], t[..i])
  {
    assert |Upper(s)| == |Upper(t)|;
    assert Upper(s[..i]) == Upper(s)[..i] == Upper(t)[..i] == Upper(t[..i]);
  }

  lemma EndIgnoresCase(s: string, t: string, i: nat)
    requires EqualNoCase(s, t) && i <= |s|
    ensures |s| == |t| && EqualNoCase(s[i..], t[i..])
  {
    assert |Upper(s)| == |Upper(t)|;
    assert Upper(s[i..]) == Upper(s)[i..] == Upper(t)[i..] == Upper(t[i..]);
  }

  lemma {:induction false} TopDomainIgnoresCase(s: string, t: string)
    requires EqualNoCase(s, t)
    ensures EqualNoCase(TopDomain(s), TopDomain(t))
  {
    hide LastDot, EqualNoCase;
    LastDotIgnoresCase(s, t);
    var last := LastDot(s);
    if last >= 0 {
      StartIgnoresCase(s, t, last);
      LastDotIgnoresCase(s[..last], t[..last]);
      EndIgnoresCase(s, t, LastDot(s[..last]) + 1);
    }
  }

  lemma {:induction false} TopDomainFrom(s: string, first: int, last: nat)
    requires -1 <= first < last < |s| && s[last] == '.' && (first >= 0 ==> s[first] == '.')
    requires forall i :: first < i < |s| && i != last ==> s[i] != '.'
    ensures TopDomain(s) == s[first + 1..]
  {
    LastDotIs(s, last);
    LastDotIs(s[..last], first);
  }

  lemma {:induction false} LastTwoDots(s: string) returns (first: int, last: nat)
    requires '.' in s
    ensures -1 <= first < last < |s| && s[last] == '.' && (first >= 0 ==> s[first] == '.')
    ensures forall i :: first < i < |s| && i != last ==> s[i] != '.'
  {
    last := LastDot(s);
    first := LastDot(s[..last]);
    forall i | first < i < last ensures s[i] != '.' {
      assert s[..last][i] != '.';
    }
  }

  lemma {:induction false} TopDomainOfDottedTail(host: string, tail: string, k: nat)
    requires |host| == k + |tail| && (forall i :: k <= i < |host| ==> host[i] == tail[i - k])
    requires k > 0 && host[k - 1] == '.' && '.' in tail
    ensures TopDomain(host) == TopDomain(tail)
  {
    hide TopDomain, LastDot;
    var first, last := LastTwoDots(tail);
    TopDomainFrom(tail, first, last);
    assert host[k + last] == tail[last];
    assert first >= 0 ==> host[k + first] == tail[first];
    TopDomainFrom(host, k + first, k + last);
    assert tail[first + 1..] == host[k + first + 1..];
  }

  lemma {:induction false} TopDomainOfBareTail(host: string, k: nat)
    requires 0 < k <= |host| && host[k - 1] == '.' && '.' !in host[k..]
    ensures |TopDomain(host)| > |TopDomain(host[k..])|
  {
    forall i | k <= i < |host| ensures host[i] != '.' {
      assert host[i] == host[k..][i - k];
    }
    LastDotIs(host, k - 1);
    LastDotIs(host[k..], -1);
  }

  /** Two names share their hash key exactly when the shorter one has a dot or is the whole name. */
  lemma {:induction false} TailMatchTopDomain(domain: string, host: string)
    requires TailMatch(domain, host)
    ensures EqualNoCase(TopDomain(domain), TopDomain(host)) <==> '.' in domain || |domain| == |host|
  {
    hide TopDomain, LastDot;
    var k := |host| - |domain|;
    var tail := host[k..];
    assert |Upper(domain)| == |Upper(tail)|;
    TopDomainIgnoresCase(domain, tail);
    LastDotIgnoresCase(domain, tail);
    assert '.' in domain <==> LastDot(domain) >= 0;
    assert '.' in tail <==> LastDot(tail) >= 0;
    if k == 0 {
      assert tail == host;
    } else if '.' in domain {
      TopDomainOfDottedTail(host, tail, k);
    } else {
      TopDomainOfBareTail(host, k);
      assert |Upper(TopDomain(domain))| == |Upper(TopDomain(tail))|;
      assert |Upper(TopDomain(host))| == |TopDomain(host)|;
    }
  }

  /** A host is looked up in the bucket of each domain that tail-matches it, when the domain has a dot. */
  lemma TailMatchSameBucket(domain: string, host: string)
    requires TailMatch(domain, host) && '.' in domain && !IsIp(domain) && !IsIp(host)
    ensures CookieHash(Some(domain)) == CookieHash(Some(host))
  {
    hide TopDomain, HashFrom, TailMatch, IsIp;
    TailMatchTopDomain(domain, host);
  }

  lemma SameNameSameBucket(domain: string, host: string)
    requires EqualNoCase(domain, host)
    ensures CookieHash(Some(domain)) == CookieHash(Some(host))
  {
    hide TopDomain, HashFrom, IsIp;
    IsIpIgnoresCase(domain, host);
    TopDomainIgnoresCase(domain, host);
  }
}
