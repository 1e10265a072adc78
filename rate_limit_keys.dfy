/**
 * The identity key a rate limiter counts against. Both HTTP middlewares build
 * it the same way: the authenticated user id, else the bearer token (the second
 * space-separated field of the `Authorization` header), else the client address,
 * else the literal "anonymous"; the result is namespaced by the bucket prefix.
 */
module RateLimitKeys {
  import opened Wrappers
  import opened Text

  /** The parts of an HTTP request the key depends on; absent values are None. */
  datatype Request = Request(userId: Option<string>, authorization: Option<string>, ip: Option<string>)

  datatype Identity = User(id: string) | Token(token: string) | Address(ip: string)

  /** `req.headers.authorization?.split(" ")[1]`. */
  function BearerToken(authorization: Option<string>): (t: Option<string>)
    ensures t.Some? ==> ' ' !in t.value
  {
    match authorization
    case None => None
    case Some(h) =>
      var parts := Split(h, ' ');
      if |parts| > 1 then Some(parts[1]) else None
  }

  function ResolveIdentity(req: Request): Identity {
    if Truthy(req.userId) then User(req.userId.value)
    else if Truthy(BearerToken(req.authorization)) then Token(BearerToken(req.authorization).value)
    else Address(if Truthy(req.ip) then req.ip.value else "anonymous")
  }

  /** The part of the key after the prefix: `user:{id}`, `token:{token}` or `ip:{address}`. */
  function IdentityKey(identity: Identity): string {
    match identity
    case User(id) => "user:" + id
    case Token(token) => "token:" + token
    case Address(ip) => "ip:" + ip
  }

  /** `generateKey(req, prefix)`, and the `keyGenerator` closure of the express limiters. */
  function GenerateKey(prefix: string, req: Request): string {
    prefix + ":" + IdentityKey(ResolveIdentity(req))
  }

  /** Reads a key back into its prefix and identity; None for a string no limiter produces. */
  function ParseKey(key: string): Option<(string, Identity)> {
    match SplitFirst(key, ':')
    case None => None
    case Some(pr) =>
      var rest := pr.1;
      if |rest| >= 5 && rest[..5] == "user:" then Some((pr.0, User(rest[5..])))
      else if |rest| >= 6 && rest[..6] == "token:" then Some((pr.0, Token(rest[6..])))
      else if |rest| >= 3 && rest[..3] == "ip:" then Some((pr.0, Address(rest[3..])))
      else None
  }

  /** A key names its bucket and its identity: parsing a generated key gives both back. */
  lemma ParseGenerateKey(prefix: string, req: Request)
    requires ':' !in prefix
    ensures ParseKey(GenerateKey(prefix, req)) == Some((prefix, ResolveIdentity(req)))
  {
    var ik := IdentityKey(ResolveIdentity(req));
    assert GenerateKey(prefix, req) == prefix + [':'] + ik;
    SplitFirstGlued(prefix, ik, ':');
    match ResolveIdentity(req)
    case User(id) => assert ik[..5] == "user:" && ik[5..] == id;
    case Token(t) =>
      assert ik[0] == 't' && ik[..6] == "token:" && ik[6..] == t;
      assert |ik| >= 5 ==> ik[..5][0] != "user:"[0];
    case Address(a) =>
      assert ik[0] == 'i' && ik[..3] == "ip:" && ik[3..] == a;
      assert |ik| >= 5 ==> ik[..5][0] != "user:"[0];
      assert |ik| >= 6 ==> ik[..6][0] != "token:"[0];
  }

  /** Different buckets, or different identities, never share a key. */
  lemma KeysSeparateBucketsAndIdentities(p1: string, r1: Request, p2: string, r2: Request)
    requires ':' !in p1 && ':' !in p2
    ensures GenerateKey(p1, r1) == GenerateKey(p2, r2) <==> p1 == p2 && ResolveIdentity(r1) == ResolveIdentity(r2)
  {
    ParseGenerateKey(p1, r1);
    ParseGenerateKey(p2, r2);
  }

  /** An authenticated user id wins over any token and any address. */
  lemma UserIdTakesPrecedence(prefix: string, req: Request)
    requires Truthy(req.userId)
    ensures GenerateKey(prefix, req) == prefix + ":user:" + req.userId.value
  {
  }

  /** Without a user id, `Authorization: <scheme> <token>` keys on the token, whatever the address. */
  lemma BearerTokenKey(prefix: string, scheme: string, token: string, ip: Option<string>)
    requires ' ' !in scheme && ' ' !in token && token != ""
    ensures GenerateKey(prefix, Request(None, Some(scheme + " " + token), ip)) == prefix + ":token:" + token
  {
    assert scheme + " " + token == Join([scheme, token], ' ');
    SplitJoin([scheme, token], ' ');
  }

  /** A header without a space carries no token, so the key falls back to the address. */
  lemma NoSpaceNoToken(prefix: string, header: string, ip: Option<string>)
    requires ' ' !in header
    ensures GenerateKey(prefix, Request(None, Some(header), ip))
            == prefix + ":ip:" + (if Truthy(ip) then ip.value else "anonymous")
  {
    SplitSingleField(header, ' ');
  }

  /** A named rate-limit bucket: its window, its cap and its key prefix. */
  datatype Bucket = Bucket(windowMs: nat, max: nat, prefix: string)

  const Signup := Bucket(60 * 1000, 1000, "signup")
  const Login := Bucket(60 * 1000, 3000, "login")
  const Post := Bucket(30 * 1000, 6000, "post")
  const General := Bucket(30 * 1000, 3000, "general")

  const Buckets: seq<Bucket> := [Signup, Login, Post, General]

  /** Every configured bucket has a positive window, a positive cap and a prefix of its own. */
  lemma ConfiguredBuckets()
    ensures forall b :: b in Buckets ==> b.windowMs > 0 && b.max > 0 && ':' !in b.prefix
    ensures forall i, j :: 0 <= i < j < |Buckets| ==> Buckets[i].prefix != Buckets[j].prefix
  {
  }

  /** Two configured buckets never count the same request, nor any two requests, under one key. */
  lemma BucketsNeverShareKeys(b1: Bucket, b2: Bucket, r1: Request, r2: Request)
    requires b1 in Buckets && b2 in Buckets && b1 != b2
    ensures GenerateKey(b1.prefix, r1) != GenerateKey(b2.prefix, r2)
  {
    ConfiguredBuckets();
    KeysSeparateBucketsAndIdentities(b1.prefix, r1, b2.prefix, r2);
  }
}
