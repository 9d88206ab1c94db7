/** The response cache of rate-guard/app/cache.py.  SHA-256 is taken to be free of collisions, so the framed bytes
    themselves serve as key; UTF-8 is one to one and writes a zero byte only for the NUL character, so framing is
    stated on characters. */
module Caching {
  import opened Prelude
  import opened Upstreams

  const NUL := '\0'

  function UpperChar(c: char): char { if 'a' <= c <= 'z' then c - 'a' + 'A' else c }

  /** str.upper() of an ASCII text. */
  function Upper(s: string): (r: string)
    ensures |r| == |s| && forall i | 0 <= i < |s| :: r[i] == UpperChar(s[i])
  {
    seq(|s|, i requires 0 <= i < |s| => UpperChar(s[i]))
  }

  /** What `key` feeds to the hasher: each part and a NUL, then the body. */
  function Key(upstream: string, httpMethod: string, url: string, body: string): string {
    upstream + [NUL] + (Upper(httpMethod) + [NUL] + (url + [NUL] + body))
  }

  /** The first NUL ends the first part. */
  lemma FirstPartIsReadable(a: string, x: string, b: string, y: string)
    requires NUL !in a && NUL !in b && a + [NUL] + x == b + [NUL] + y
    ensures a == b && x == y
  {
    var s := a + [NUL] + x;
    assert s[|a|] == NUL && s[|b|] == NUL;
    assert forall i | 0 <= i < |b| :: s[i] == b[i];
    assert forall i | 0 <= i < |a| :: s[i] == a[i];
    assert |a| == |b|;
    assert a == s[..|a|] && b == s[..|b|] && x == s[|a| + 1..] && y == s[|b| + 1..];
  }

  /** For NUL-free urls the key determines the upstream, the upper-case method, the url and the body. */
  lemma KeyIsInjective(
      u: string, m: string, url: string, body: string, u': string, m': string, url': string, body': string)
    requires NUL !in u && NUL !in m && NUL !in url && NUL !in u' && NUL !in m' && NUL !in url'
    requires Key(u, m, url, body) == Key(u', m', url', body')
    ensures u == u' && Upper(m) == Upper(m') && url == url' && body == body'
  {
    FirstPartIsReadable(u, Upper(m) + [NUL] + (url + [NUL] + body), u', Upper(m') + [NUL] + (url' + [NUL] + body'));
    FirstPartIsReadable(Upper(m), url + [NUL] + body, Upper(m'), url' + [NUL] + body');
    FirstPartIsReadable(url, body, url', body');
  }

  /** Without that restriction a request shares its key with another exactly when its url or its body holds a NUL. */
  lemma KeyIsAmbiguousIffNul(u: string, m: string, url: string, body: string)
    requires NUL !in u && NUL !in m
    ensures (exists url', body' :: (url', body') != (url, body) && Key(u, m, url', body') == Key(u, m, url, body))
            <==> NUL in url || NUL in body
  {
    if NUL in url {
      var k := IndexOf(url, NUL);
      var url', body' := url[..k], url[k + 1..] + [NUL] + body;
      assert url' + [NUL] + body' == url + [NUL] + body;
      assert |url'| < |url|;
      assert Key(u, m, url', body') == Key(u, m, url, body);
    } else if NUL in body {
      var k := IndexOf(body, NUL);
      var url', body' := url + [NUL] + body[..k], body[k + 1..];
      assert url' + [NUL] + body' == url + [NUL] + body;
      assert |body'| < |body|;
      assert Key(u, m, url', body') == Key(u, m, url, body);
    } else {
      forall url', body' | Key(u, m, url', body') == Key(u, m, url, body) ensures url' == url && body' == body {
        FirstPartIsReadable(u, Upper(m) + [NUL] + (url + [NUL] + body), u, Upper(m) + [NUL] + (url' + [NUL] + body'));
        FirstPartIsReadable(Upper(m), url + [NUL] + body, Upper(m), url' + [NUL] + body');
        OneNulOnly(url, body, url', body');
      }
    }
  }

  lemma OneNulOnly(url: string, body: string, url': string, body': string)
    requires NUL !in url && NUL !in body && url + [NUL] + body == url' + [NUL] + body'
    ensures url == url' && body == body'
  {
    var s := url + [NUL] + body;
    assert s[|url'|] == NUL;
    assert forall i | |url| < i < |s| :: s[i] == body[i - |url| - 1];
    assert |url'| == |url|;
    assert url == s[..|url|] && url' == s[..|url|] && body == s[|url| + 1..] && body' == s[|url| + 1..];
  }

  datatype Entry = Entry(response: Response, storedAt: real)

  /** `get`: a present entry no older than ttl; a ttl of zero never hits. */
  function Lookup(entries: map<string, Entry>, key: string, ttl: real, now: real): Option<Entry> {
    if ttl <= 0.0 || key !in entries || now - entries[key].storedAt > ttl then None else Some(entries[key])
  }

  class ResponseCache {
    var entries: map<string, Entry>

    constructor ()
      ensures entries == map[]
    {
      entries := map[];
    }

    method Get(key: string, ttl: real, now: real) returns (entry: Option<Entry>)
      ensures entry == Lookup(entries, key, ttl, now)
      ensures entry.Some? ==> key in entries && entry.value == entries[key] && now - entry.value.storedAt <= ttl
    {
      if ttl <= 0.0 {
        return None;
      }
      if key !in entries {
        return None;
      }
      if now - entries[key].storedAt > ttl {
        return None;
      }
      return Some(entries[key]);
    }

    /** The entry is published in one atomic rename. */
    method Put(key: string, response: Response, now: real)
      modifies this
      ensures entries == old(entries)[key := Entry(response, now)]
    {
      entries := entries[key := Entry(response, now)];
    }
  }

  // ----- requests

  /** A parsed url, scheme and host in lower case; parsing itself is not modelled. */
  datatype Url = Url(text: string, scheme: string, host: string, path: string)

  datatype Request = Request(upstream: string, httpMethod: string, url: Url, body: string, maxAge: Option<real>) {
    function CacheKey(): string { Key(upstream, httpMethod, url.text, body) }
  }

  function Ttl(configured: real, maxAge: Option<real>): real {
    if maxAge.Some? then Min(configured, maxAge.value) else configured
  }

  /** How old a cached answer to this request may be. */
  function TtlOf(u: Upstream, req: Request): real { Ttl(ConfiguredTtl(u, req.url.path), req.maxAge) }

  /** The age allowed: the long ttl for paths that start with one of the prefixes, the short one for others, and never
      more than the override; only GET and POST answers with a positive configured ttl are kept. */
  lemma CachingRules(u: Upstream, req: Request, k: nat)
    ensures k < |u.cacheLongPrefixes| && u.cacheLongPrefixes[k] <= req.url.path ==>
              TtlOf(u, req) <= u.cacheLongTtl && (req.maxAge.None? ==> TtlOf(u, req) == u.cacheLongTtl)
    ensures (forall p | p in u.cacheLongPrefixes :: !(p <= req.url.path)) ==>
              TtlOf(u, req) <= u.cacheTtl && (req.maxAge.None? ==> TtlOf(u, req) == u.cacheTtl)
    ensures req.maxAge.Some? ==> TtlOf(u, req) <= req.maxAge.value
    ensures TtlOf(u, req) == ConfiguredTtl(u, req.url.path) || Some(TtlOf(u, req)) == req.maxAge
    ensures MayCache(u, req) <==>
              && ConfiguredTtl(u, req.url.path) > 0.0
              && (Upper(req.httpMethod) == "GET" || Upper(req.httpMethod) == "POST")
  {
    forall i | 0 <= i < |u.cacheLongPrefixes|
      ensures u.cacheLongPrefixes[i] in u.cacheLongPrefixes
      ensures StartsWith(req.url.path, u.cacheLongPrefixes[i]) <==> u.cacheLongPrefixes[i] <= req.url.path
    {
    }
  }

  /** The method is compared in upper case: nothing lower-case is left, and get and post are GET and POST. */
  lemma MethodInUpperCase(s: string)
    ensures Upper(Upper(s)) == Upper(s) && forall c | c in Upper(s) :: !('a' <= c <= 'z')
    ensures Upper("get") == Upper("Get") == "GET" && Upper("post") == Upper("Post") == "POST"
  {
    assert forall i | 0 <= i < |s| :: !('a' <= Upper(s)[i] <= 'z');
  }

  predicate MayCache(u: Upstream, req: Request) {
    ConfiguredTtl(u, req.url.path) > 0.0 && Upper(req.httpMethod) in ["GET", "POST"]
  }

  predicate SameRequest(a: Request, b: Request) {
    && a.upstream == b.upstream && Upper(a.httpMethod) == Upper(b.httpMethod)
    && a.url.text == b.url.text && a.body == b.body
  }

  /** Among the requests that one upstream may cache, NUL-free urls make the key name the request. */
  lemma KeyNamesRequest(u: Upstream, a: Request, b: Request)
    requires a.upstream == b.upstream && MayCache(u, a) && MayCache(u, b)
    requires NUL !in a.url.text && NUL !in b.url.text
    ensures a.CacheKey() == b.CacheKey() <==> SameRequest(a, b)
  {
    if a.CacheKey() == b.CacheKey() {
      var nul := [NUL];
      var x := Upper(a.httpMethod) + nul + (a.url.text + nul + a.body);
      var y := Upper(b.httpMethod) + nul + (b.url.text + nul + b.body);
      assert x == a.CacheKey()[|a.upstream| + 1..] && y == b.CacheKey()[|b.upstream| + 1..];
      FirstPartIsReadable(
        Upper(a.httpMethod), a.url.text + nul + a.body, Upper(b.httpMethod), b.url.text + nul + b.body);
      FirstPartIsReadable(a.url.text, a.body, b.url.text, b.body);
    }
  }

  /** What is stored for one request is found by the same request until the ttl runs out, and by no other. */
  lemma FoundBySameRequest(
      u: Upstream, entries: map<string, Entry>, stored: Request, e: Entry, asked: Request, now: real)
    requires stored.upstream == asked.upstream && MayCache(u, stored) && MayCache(u, asked)
    requires NUL !in stored.url.text && NUL !in asked.url.text
    ensures Lookup(entries[stored.CacheKey() := e], asked.CacheKey(), TtlOf(u, asked), now) ==
            if !SameRequest(stored, asked) then Lookup(entries, asked.CacheKey(), TtlOf(u, asked), now)
            else if 0.0 < TtlOf(u, asked) && now - e.storedAt <= TtlOf(u, asked) then Some(e)
            else None
  {
    KeyNamesRequest(u, stored, asked);
  }
}
