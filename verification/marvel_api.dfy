/** The API helper: signed query parameters, URL assembly, and the shaping of the
    `data.results` field for the three fetchers. The clock, `Math.random`, the MD5 digest,
    `URLSearchParams` serialisation and the server are parameters. */
module MarvelApi {
  import opened Options
  import opened Seqs
  import opened Comics
  import Decimal

  const BaseUrl: string := "https://gateway.marvel.com:443/v1/public"

  /** What `${value}` yields for a build-time environment key: its text, or "undefined". */
  function EnvText(key: Option<string>): string
  {
    key.GetOr("undefined")
  }

  /** The value of the digest input expression: a string, or the number NaN, which is what
      `ts + undefined` yields (`+` with `undefined` and no string operand is numeric). */
  datatype DigestInput = Text(text: string) | NotANumber

  /** The fixed ingredients of every request: the two keys as the build environment supplies
      them, the MD5 hex digest of whatever value it is given, and the query-string serialiser. */
  datatype Config = Config(
    publicKey: Option<string>,
    privateKey: Option<string>,
    md5: DigestInput -> string,
    serialise: seq<Param> -> string)

  /** One query parameter with its value already rendered as text. */
  datatype Param = Param(key: string, value: string)

  /** The parameters of one request, `{ ts, apikey, hash }`. */
  datatype Auth = Auth(ts: int, apikey: string, hash: string)

  /** The digest input `ts + PRIVATE_KEY + PUBLIC_KEY`, evaluated left to right. A present
      private key makes the first `+` a concatenation with the timestamp's text; an absent one
      makes it numeric, giving NaN, which the second `+` renders as "NaN" before a present
      public key and leaves a number when both keys are absent. */
  function HashInput(cfg: Config, ts: int): DigestInput
  {
    match cfg.privateKey
    case Some(k) => Text(Decimal.IntText(ts) + k + EnvText(cfg.publicKey))
    case None =>
      match cfg.publicKey
      case Some(p) => Text("NaN" + p)
      case None => NotANumber
  }

  /** `getAuthParams` at clock reading `now`. */
  function GetAuthParams(cfg: Config, now: int): (a: Auth)
    ensures a.ts == now
    ensures a.apikey == EnvText(cfg.publicKey)
    ensures a.hash == cfg.md5(HashInput(cfg, now))
  {
    Auth(now, EnvText(cfg.publicKey), cfg.md5(HashInput(cfg, now)))
  }

  /** With a private key, distinct timestamps give distinct digest inputs, each starting with
      the timestamp's text and ending with the public key's text. Without one, every timestamp
      gives the same input: "NaN" followed by the public key, or NaN itself. */
  lemma HashInputFreshness(cfg: Config, t1: int, t2: int)
    ensures HashInput(cfg, t1) == HashInput(cfg, t2) <==> t1 == t2 || cfg.privateKey.None?
    ensures cfg.privateKey.Some? ==>
              HashInput(cfg, t1).Text?
              && HashInput(cfg, t1).text[..|Decimal.IntText(t1)|] == Decimal.IntText(t1)
              && HashInput(cfg, t1).text[|HashInput(cfg, t1).text| - |EnvText(cfg.publicKey)|..]
                 == EnvText(cfg.publicKey)
    ensures cfg.privateKey.None? ==>
              HashInput(cfg, t1) ==
                if cfg.publicKey.Some? then Text("NaN" + cfg.publicKey.value) else NotANumber
  {
    if cfg.privateKey.Some? {
      var tail := cfg.privateKey.value + EnvText(cfg.publicKey);
      var a := Decimal.IntText(t1);
      var b := Decimal.IntText(t2);
      assert HashInput(cfg, t1) == Text(a + tail);
      assert HashInput(cfg, t2) == Text(b + tail);
      if a + tail == b + tail {
        assert |a| == |b|;
        assert a == (a + tail)[..|a|];
        assert b == (b + tail)[..|b|];
      }
      Decimal.IntTextInjective(t1, t2);
    }
  }

  /** The value of the first parameter named `key`. */
  function Lookup(ps: seq<Param>, key: string): Option<string>
    decreases |ps|
  {
    if |ps| == 0 then None
    else if ps[0].key == key then Some(ps[0].value)
    else Lookup(ps[1..], key)
  }

  /** A JavaScript object's own keys are distinct. */
  predicate DistinctKeys(ps: seq<Param>)
  {
    forall i, j :: 0 <= i < j < |ps| ==> ps[i].key != ps[j].key
  }

  /** Property assignment on an object: an existing key keeps its position and takes the new
      value, a new key is appended. */
  function Put(ps: seq<Param>, p: Param): (r: seq<Param>)
    ensures Lookup(r, p.key) == Some(p.value)
    ensures forall k :: k != p.key ==> Lookup(r, k) == Lookup(ps, k)
    ensures |ps| <= |r| <= |ps| + 1
    ensures forall i :: 0 <= i < |ps| ==> r[i].key == ps[i].key
    ensures |r| == |ps| + 1 ==> r[|ps|].key == p.key && forall i :: 0 <= i < |ps| ==> ps[i].key != p.key
    decreases |ps|
  {
    if |ps| == 0 then [p]
    else if ps[0].key == p.key then [p] + ps[1..]
    else [ps[0]] + Put(ps[1..], p)
  }

  lemma PutKeepsDistinct(ps: seq<Param>, p: Param)
    ensures DistinctKeys(ps) ==> DistinctKeys(Put(ps, p))
  {
    var r := Put(ps, p);
    if DistinctKeys(ps) {
      forall i, j | 0 <= i < j < |r|
        ensures r[i].key != r[j].key
      {
        assert r[i].key == ps[i].key;
        if j < |ps| {
          assert r[j].key == ps[j].key;
        } else {
          assert j == |ps| && |r| == |ps| + 1;
          assert r[j].key == p.key && ps[i].key != p.key;
        }
      }
    }
  }

  /** `{ ...base, ...extras }`: the properties of `extras` assigned onto `base` in order. */
  function Spread(base: seq<Param>, extras: seq<Param>): (r: seq<Param>)
    ensures |r| >= |base|
    ensures forall i :: 0 <= i < |base| ==> r[i].key == base[i].key
    ensures DistinctKeys(base) ==> DistinctKeys(r)
    decreases |extras|
  {
    if |extras| == 0 then base
    else
      PutKeepsDistinct(base, extras[0]);
      Spread(Put(base, extras[0]), extras[1..])
  }

  /** Every key of either object is present after the spread, and on a collision the later
      object wins. */
  lemma {:induction false} SpreadLookup(base: seq<Param>, extras: seq<Param>, key: string)
    requires DistinctKeys(extras)
    ensures Lookup(Spread(base, extras), key) ==
              if Lookup(extras, key).Some? then Lookup(extras, key) else Lookup(base, key)
    decreases |extras|
  {
    if |extras| > 0 {
      SpreadLookup(Put(base, extras[0]), extras[1..], key);
      if extras[0].key == key {
        assert Lookup(extras[1..], key).None? by {
          LookupAbsent(extras[1..], key);
        }
      }
    }
  }

  /** A key held by no parameter has no value. */
  lemma {:induction false} LookupAbsent(ps: seq<Param>, key: string)
    requires forall i :: 0 <= i < |ps| ==> ps[i].key != key
    ensures Lookup(ps, key).None?
    decreases |ps|
  {
    if |ps| > 0 {
      LookupAbsent(ps[1..], key);
    }
  }

  /** A property assignment touches only its own key's slot: a new key is appended at the
      end, an existing one is overwritten in place, and every other slot keeps its parameter. */
  lemma {:induction false} PutShape(ps: seq<Param>, p: Param)
    ensures Lookup(ps, p.key).None? ==> Put(ps, p) == ps + [p]
    ensures Lookup(ps, p.key).Some? ==> |Put(ps, p)| == |ps|
    ensures forall i :: 0 <= i < |ps| && ps[i].key != p.key ==> Put(ps, p)[i] == ps[i]
    decreases |ps|
  {
    if |ps| > 0 && ps[0].key != p.key {
      PutShape(ps[1..], p);
      var r := Put(ps, p);
      assert r == [ps[0]] + Put(ps[1..], p);
      forall i | 0 < i < |ps| && ps[i].key != p.key
        ensures r[i] == ps[i]
      {
        assert r[i] == Put(ps[1..], p)[i - 1];
        assert ps[i] == ps[1..][i - 1];
      }
      if Lookup(ps, p.key).None? {
        assert ps == [ps[0]] + ps[1..];
      }
    }
  }

  /** The slots of base keys the caller does not supply come through the spread unchanged. */
  lemma {:induction false} SpreadKeepsUntouched(base: seq<Param>, extras: seq<Param>)
    ensures forall i :: 0 <= i < |base| && Lookup(extras, base[i].key).None? ==>
              Spread(base, extras)[i] == base[i]
    decreases |extras|
  {
    if |extras| > 0 {
      var b := Put(base, extras[0]);
      PutShape(base, extras[0]);
      SpreadKeepsUntouched(b, extras[1..]);
      forall i | 0 <= i < |base| && Lookup(extras, base[i].key).None?
        ensures Spread(base, extras)[i] == base[i]
      {
        assert extras[0].key != base[i].key;
        assert b[i] == base[i];
      }
    }
  }

  /** The parameters whose key `base` does not hold yet. */
  function NewKey(base: seq<Param>): Param -> bool
  {
    (p: Param) => Lookup(base, p.key).None?
  }

  /** A key the later caller parameters never mention: assigning it leaves their fate alone. */
  lemma NewKeyAfterPut(base: seq<Param>, e: Param, rest: seq<Param>)
    requires forall i :: 0 <= i < |rest| ==> rest[i].key != e.key
    ensures Filter(rest, NewKey(Put(base, e))) == Filter(rest, NewKey(base))
  {
    FilterAgree(rest, NewKey(Put(base, e)), NewKey(base));
  }

  /** A new key appended by the first assignment stays in its slot through the rest. */
  lemma SpreadKeepsAppended(base: seq<Param>, e: Param, rest: seq<Param>)
    requires Lookup(base, e.key).None?
    requires forall i :: 0 <= i < |rest| ==> rest[i].key != e.key
    ensures |Spread(Put(base, e), rest)| > |base|
    ensures Spread(Put(base, e), rest)[|base|] == e
  {
    PutShape(base, e);
    LookupAbsent(rest, e.key);
    SpreadKeepsUntouched(Put(base, e), rest);
  }

  /** Distinct keys: the first key recurs nowhere in the rest, which stays distinct. */
  lemma TailAvoidsHead(ps: seq<Param>)
    requires |ps| > 0 && DistinctKeys(ps)
    ensures DistinctKeys(ps[1..])
    ensures forall i :: 0 <= i < |ps[1..]| ==> ps[1..][i].key != ps[0].key
  {
    forall i | 0 <= i < |ps[1..]|
      ensures ps[1..][i].key != ps[0].key
    {
      assert ps[1..][i] == ps[i + 1];
    }
  }

  /** A caller parameter with a new key lands right after the base, ahead of the later ones. */
  lemma AppendedFirst(base: seq<Param>, e: Param, rest: seq<Param>, r: seq<Param>)
    requires Lookup(base, e.key).None?
    requires |r| > |base| && r[|base|] == e
    requires r[|base| + 1..] == Filter(rest, NewKey(base))
    ensures r[|base|..] == Filter([e] + rest, NewKey(base))
  {
    SuffixCons(r, |base|);
    assert ([e] + rest)[1..] == rest;
  }

  /** A caller parameter whose key the base holds adds nothing after the base. */
  lemma OverwrittenAddsNothing(base: seq<Param>, e: Param, rest: seq<Param>)
    requires Lookup(base, e.key).Some?
    ensures Filter([e] + rest, NewKey(base)) == Filter(rest, NewKey(base))
  {
    assert ([e] + rest)[1..] == rest;
  }

  /** After the base come exactly the caller's parameters whose key the base lacks, in the
      caller's order; nothing else is added. */
  lemma {:induction false} SpreadAppends(base: seq<Param>, extras: seq<Param>)
    requires DistinctKeys(extras)
    ensures Spread(base, extras)[|base|..] == Filter(extras, NewKey(base))
    decreases |extras|
  {
    if |extras| > 0 {
      var e := extras[0];
      var rest := extras[1..];
      assert extras == [e] + rest;
      var b := Put(base, e);
      var r := Spread(b, rest);
      assert Spread(base, extras) == r;
      assert r[|b|..] == Filter(rest, NewKey(base)) by {
        TailAvoidsHead(extras);
        SpreadAppends(b, rest);
        NewKeyAfterPut(base, e, rest);
      }
      if Lookup(base, e.key).None? {
        assert |b| == |base| + 1 && r[|base|] == e by {
          TailAvoidsHead(extras);
          PutShape(base, e);
          SpreadKeepsAppended(base, e, rest);
        }
        AppendedFirst(base, e, rest, r);
      } else {
        assert |b| == |base| by {
          PutShape(base, e);
        }
        OverwrittenAddsNothing(base, e, rest);
      }
    }
  }

  /** The request `makeApiRequest` issues: the endpoint, the merged parameters, the URL. */
  datatype Request = Request(endpoint: string, params: seq<Param>, url: string)

  function AuthQuery(a: Auth): seq<Param>
  {
    [Param("ts", Decimal.IntText(a.ts)), Param("apikey", a.apikey), Param("hash", a.hash)]
  }

  /** The caller parameters that do not collide with `ts`, `apikey` or `hash`. */
  function NotAuthKey(p: Param): bool
  {
    p.key != "ts" && p.key != "apikey" && p.key != "hash"
  }

  /** The authentication parameters hold exactly the keys `ts`, `apikey` and `hash`. */
  lemma AuthQueryKeys(a: Auth, k: string)
    ensures Lookup(AuthQuery(a), k).None? <==> k != "ts" && k != "apikey" && k != "hash"
  {
    var q := AuthQuery(a);
    assert Lookup(q, k) == if k == "ts" then Some(q[0].value) else Lookup(q[1..], k);
    assert Lookup(q[1..], k) == if k == "apikey" then Some(q[1].value) else Lookup(q[1..][1..], k);
    assert Lookup(q[1..][1..], k) == if k == "hash" then Some(q[2].value) else Lookup(q[1..][1..][1..], k);
  }

  /** Spread onto the authentication parameters, the caller's parameters other than `ts`,
      `apikey` and `hash` follow them in the caller's order. */
  lemma AuthSpreadOrder(a: Auth, extras: seq<Param>)
    requires DistinctKeys(extras)
    ensures |Spread(AuthQuery(a), extras)| >= 3
    ensures Spread(AuthQuery(a), extras)[3..] == Filter(extras, NotAuthKey)
    ensures DistinctKeys(Spread(AuthQuery(a), extras))
  {
    var auth := AuthQuery(a);
    assert DistinctKeys(auth) by {
      assert auth[0].key == "ts" && auth[1].key == "apikey" && auth[2].key == "hash";
    }
    SpreadAppends(auth, extras);
    forall i | 0 <= i < |extras|
      ensures NewKey(auth)(extras[i]) == NotAuthKey(extras[i])
    {
      AuthQueryKeys(a, extras[i].key);
    }
    FilterAgree(extras, NewKey(auth), NotAuthKey);
  }

  /** Spread onto the authentication parameters, every caller value wins and the
      authentication values fill in the keys the caller leaves out. */
  lemma AuthSpreadValues(a: Auth, extras: seq<Param>)
    requires DistinctKeys(extras)
    ensures forall k :: Lookup(extras, k).Some? ==>
              Lookup(Spread(AuthQuery(a), extras), k) == Lookup(extras, k)
    ensures Lookup(extras, "ts").None? ==>
              Lookup(Spread(AuthQuery(a), extras), "ts") == Some(Decimal.IntText(a.ts))
    ensures Lookup(extras, "apikey").None? ==>
              Lookup(Spread(AuthQuery(a), extras), "apikey") == Some(a.apikey)
    ensures Lookup(extras, "hash").None? ==>
              Lookup(Spread(AuthQuery(a), extras), "hash") == Some(a.hash)
  {
    var auth := AuthQuery(a);
    forall k
      ensures Lookup(Spread(auth, extras), k) ==
                if Lookup(extras, k).Some? then Lookup(extras, k) else Lookup(auth, k)
    {
      SpreadLookup(auth, extras, k);
    }
    assert Lookup(auth, "ts") == Some(Decimal.IntText(a.ts));
    assert Lookup(auth, "apikey") == Some(a.apikey) by {
      assert auth[1..][0].key == "apikey";
    }
    assert Lookup(auth, "hash") == Some(a.hash) by {
      assert auth[0].key != "hash" && auth[1].key != "hash";
      assert Lookup(auth, "hash") == Lookup(auth[1..], "hash") == Lookup(auth[1..][1..], "hash");
      assert auth[1..][1..][0].key == "hash";
    }
  }

  /** The request for `endpoint` with caller parameters `extras` at clock reading `now`. */
  function MakeRequest(cfg: Config, now: int, endpoint: string, extras: seq<Param>): (r: Request)
    requires DistinctKeys(extras)
    ensures r.endpoint == endpoint
    ensures |r.params| >= 3
    ensures r.params[0].key == "ts" && r.params[1].key == "apikey" && r.params[2].key == "hash"
    ensures DistinctKeys(r.params)
    ensures forall k :: Lookup(extras, k).Some? ==> Lookup(r.params, k) == Lookup(extras, k)
    ensures Lookup(extras, "ts").None? ==> Lookup(r.params, "ts") == Some(Decimal.IntText(now))
    ensures Lookup(extras, "apikey").None? ==> Lookup(r.params, "apikey") == Some(EnvText(cfg.publicKey))
    ensures Lookup(extras, "hash").None? ==> Lookup(r.params, "hash") == Some(cfg.md5(HashInput(cfg, now)))
    ensures r.params[3..] == Filter(extras, NotAuthKey)
    ensures r.url == BaseUrl + endpoint + "?" + cfg.serialise(r.params)
  {
    var auth := AuthQuery(GetAuthParams(cfg, now));
    var params := Spread(auth, extras);
    AuthSpreadOrder(GetAuthParams(cfg, now), extras);
    AuthSpreadValues(GetAuthParams(cfg, now), extras);
    var url := BaseUrl + endpoint + "?" + cfg.serialise(params);
    Request(endpoint, params, url)
  }

  /** The `data.results` field as the fetchers see it. `NonArray` stands for any other
      value without a numeric `length` (a number, a boolean, a plain object). */
  datatype Results<T> = Undefined | Null | NonArray | Array(items: seq<T>)

  /** What the server and `response.json()` produce: a transport failure, a body that is not
      JSON, or a parsed body whose `data` object is absent (None) or present. */
  datatype Reply<T> = NetworkError | InvalidJson | Body(data: Option<Results<T>>)

  /** The value `makeApiRequest` resolves to: `data.data.results`, or `null` when the fetch,
      the parse or the `data.data` access throws (the catch block). */
  function Unwrap<T>(reply: Reply<T>): (r: Results<T>)
    ensures reply.Body? && reply.data.Some? ==> r == reply.data.value
    ensures !(reply.Body? && reply.data.Some?) ==> r.Null?
  {
    match reply
    case Body(Some(results)) => results
    case _ => Null
  }

  /** The outcome of an async fetcher: it resolves to a value or rejects. */
  datatype Outcome<T> = Rejected | Resolved(value: T)

  function ComicPath(id: int): string
  {
    "/comics/" + Decimal.IntText(id)
  }

  function CharactersPath(id: int): string
  {
    ComicPath(id) + "/characters"
  }

  /** Distinct ids address distinct comics, and no comic path is a characters path. */
  lemma EndpointsDistinct(a: int, b: int)
    ensures ComicPath(a) == ComicPath(b) <==> a == b
    ensures CharactersPath(a) == CharactersPath(b) <==> a == b
    ensures ComicPath(a) != CharactersPath(b)
  {
    var ta := Decimal.IntText(a);
    var tb := Decimal.IntText(b);
    Decimal.IntTextInjective(a, b);
    if ComicPath(a) == ComicPath(b) {
      assert ta == ComicPath(a)[8..];
      assert tb == ComicPath(b)[8..];
    }
    if CharactersPath(a) == CharactersPath(b) {
      assert |ta| == |tb|;
      assert ta == CharactersPath(a)[8..8 + |ta|];
      assert tb == CharactersPath(b)[8..8 + |tb|];
    }
    if |ComicPath(a)| == |CharactersPath(b)| {
      var k := 8 + |tb|;
      assert CharactersPath(b)[k] == '/';
      assert ComicPath(a)[k] == ta[|tb|];
      assert Decimal.IsDigit(ta[|tb|]);
    }
  }

  /** The result of one `fetchRecentComics(limit)` call: the request sent, the random offset it
      carried, and the comics returned. */
  datatype RecentFetch = RecentFetch(request: Request, offset: int, comics: seq<Comic>)

  /** `fetchRecentComics(limit)`. `rand` is the `Math.random()` draw behind the offset, `swaps`
      the transpositions the randomly-compared sort performs, `server` the upstream API. */
  function FetchRecentComics(
    cfg: Config, now: int, limit: int, rand: real, swaps: seq<(int, int)>,
    server: Request -> Reply<Comic>): (f: RecentFetch)
    requires 0.0 <= rand < 1.0
    ensures 0 <= f.offset < 1000
    ensures f.request.endpoint == "/comics"
    ensures Lookup(f.request.params, "orderBy") == Some("-modified")
    ensures Lookup(f.request.params, "limit") == Some(Decimal.IntText(limit))
    ensures Lookup(f.request.params, "offset") == Some(Decimal.IntText(f.offset))
    ensures !Unwrap(server(f.request)).Array? ==> f.comics == []
    ensures Unwrap(server(f.request)).Array? ==>
              multiset(f.comics) == multiset(Unwrap(server(f.request)).items)
  {
    var offset := (rand * 1000.0).Floor;
    var extras := [
      Param("orderBy", "-modified"),
      Param("limit", Decimal.IntText(limit)),
      Param("offset", Decimal.IntText(offset))];
    assert Lookup(extras, "orderBy") == Some("-modified");
    assert Lookup(extras, "limit") == Some(Decimal.IntText(limit)) by {
      assert extras[0].key != "limit" && extras[1..][0].key == "limit";
    }
    assert Lookup(extras, "offset") == Some(Decimal.IntText(offset)) by {
      assert extras[0].key != "offset" && extras[1].key != "offset";
      assert Lookup(extras, "offset") == Lookup(extras[1..], "offset") == Lookup(extras[1..][1..], "offset");
      assert extras[1..][1..][0].key == "offset";
    }
    var request := MakeRequest(cfg, now, "/comics", extras);
    var comics :=
      match Unwrap(server(request))
      case Array(items) => ApplySwaps(items, swaps)
      case _ => [];
    RecentFetch(request, offset, comics)
  }

  /** `fetchComicById(id)`: rejects when the results field is null or undefined (reading its
      `length` throws), resolves to None when there is no first result, else to the first. */
  function FetchComicById(cfg: Config, now: int, id: int, server: Request -> Reply<Comic>)
    : (r: (Request, Outcome<Option<Comic>>))
    ensures r.0.endpoint == ComicPath(id)
    ensures Unwrap(server(r.0)).Null? || Unwrap(server(r.0)).Undefined? <==> r.1.Rejected?
    ensures r.1 == Resolved(None) <==>
              Unwrap(server(r.0)).NonArray? || Unwrap(server(r.0)) == Array([])
    ensures forall c :: r.1 == Resolved(Some(c)) <==>
              Unwrap(server(r.0)).Array? && |Unwrap(server(r.0)).items| > 0
              && Unwrap(server(r.0)).items[0] == c
  {
    var request := MakeRequest(cfg, now, ComicPath(id), []);
    var outcome :=
      match Unwrap(server(request))
      case Undefined => Rejected
      case Null => Rejected
      case NonArray => Resolved(None)
      case Array(items) => Resolved(if |items| > 0 then Some(items[0]) else None);
    (request, outcome)
  }

  /** `fetchComicCharacters(id)`: the results array as it is, or `[]` for anything else. */
  function FetchComicCharacters(cfg: Config, now: int, id: int, server: Request -> Reply<Character>)
    : (r: (Request, seq<Character>))
    ensures r.0.endpoint == CharactersPath(id)
    ensures Unwrap(server(r.0)).Array? ==> r.1 == Unwrap(server(r.0)).items
    ensures !Unwrap(server(r.0)).Array? ==> r.1 == []
  {
    var request := MakeRequest(cfg, now, CharactersPath(id), []);
    var characters :=
      match Unwrap(server(request))
      case Array(items) => items
      case _ => [];
    (request, characters)
  }

  /** The three fetchers disagree on a failed request: when every reply is a transport
      failure, an unparsable body or a body without `data`, the request helper yields `null`;
      the comic lookup then rejects (it reads `length` of `null`), while the recent-comics and
      characters fetchers guard the value and resolve to an empty list. */
  lemma FailedRequestsDiverge(
    cfg: Config, now: int, id: int, limit: int, rand: real, swaps: seq<(int, int)>,
    comicServer: Request -> Reply<Comic>, characterServer: Request -> Reply<Character>)
    requires 0.0 <= rand < 1.0
    requires forall q :: !(comicServer(q).Body? && comicServer(q).data.Some?)
    requires forall q :: !(characterServer(q).Body? && characterServer(q).data.Some?)
    ensures FetchComicById(cfg, now, id, comicServer).1.Rejected?
    ensures FetchRecentComics(cfg, now, limit, rand, swaps, comicServer).comics == []
    ensures FetchComicCharacters(cfg, now, id, characterServer).1 == []
  {
  }

  /** An empty results array, by contrast, is no failure for any of them: the comic lookup
      resolves to no comic and the two list fetchers to an empty list. */
  lemma EmptyResultsAgree(
    cfg: Config, now: int, id: int, limit: int, rand: real, swaps: seq<(int, int)>,
    comicServer: Request -> Reply<Comic>, characterServer: Request -> Reply<Character>)
    requires 0.0 <= rand < 1.0
    requires forall q :: comicServer(q) == Body(Some(Array([])))
    requires forall q :: characterServer(q) == Body(Some(Array([])))
    ensures FetchComicById(cfg, now, id, comicServer).1 == Resolved(None)
    ensures FetchRecentComics(cfg, now, limit, rand, swaps, comicServer).comics == []
    ensures FetchComicCharacters(cfg, now, id, characterServer).1 == []
  {
  }
}
