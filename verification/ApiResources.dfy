/** The cache of API resources and the registry of their URL paths. */
module ApiResources {
  import opened Results
  import opened SlashPaths

  /** An imported resource, or one this program created. */
  datatype ResourceId = External(id: string) | Created(number: nat)

  /** The `api_id` argument as passed; `None` stands for the default gateway. */
  type ApiId = Option<string>

  datatype Request = Request(parent: ResourceId, part: string, api: ApiId)

  predicate PathPart(part: string) {
    part != "" && '/' !in part
  }

  /** `text.lstrip("/")`. */
  function LeftStrip(text: string): string {
    if text != "" && text[0] == '/' then LeftStrip(text[1..]) else text
  }

  /** Exactly the leading slashes are dropped. */
  lemma {:induction false} LeftStripMeaning(slashes: string, text: string)
    requires (forall i | 0 <= i < |slashes| :: slashes[i] == '/') && (text != "" ==> text[0] != '/')
    ensures LeftStrip(slashes + text) == text
    decreases |slashes|
  {
    if slashes == "" {
      assert slashes + text == text;
    } else {
      assert (slashes + text)[1..] == slashes[1..] + text;
      LeftStripMeaning(slashes[1..], text);
    }
  }

  /** One part of a path, with the API argument it was asked for under. */
  datatype PathStep = PathStep(part: string, api: ApiId)

  /** Where a resource sits: the imported resource it hangs from, and the steps from there. */
  datatype Place = Place(root: string, steps: seq<PathStep>)

  /** The URL the registry holds for a sequence of steps. */
  function UrlOf(steps: seq<PathStep>): string {
    if steps == [] then ""
    else LeftStrip(UrlOf(steps[..|steps| - 1]) + "/" + steps[|steps| - 1].part)
  }

  function PartsOf(steps: seq<PathStep>): (parts: Parts)
    ensures |parts| == |steps| && forall i | 0 <= i < |steps| :: parts[i] == steps[i].part
  {
    seq(|steps|, i requires 0 <= i < |steps| => steps[i].part)
  }

  predicate AllPathParts(parts: Parts) {
    forall i | 0 <= i < |parts| :: PathPart(parts[i])
  }

  /** Both registries as values, with the place of every resource and the request that first asked for it. */
  datatype Registry = Registry(
    cache: map<Request, ResourceId>, pathByRef: map<ResourceId, string>, created: nat,
    places: map<ResourceId, Place>, origin: map<ResourceId, Request>)
  {
    /** A parent is an imported resource, or one that was handed out before. */
    ghost predicate Known(parent: ResourceId) {
      parent.External? || parent in places
    }

    ghost function PlaceOf(req: Request): Place
      requires Known(req.parent)
    {
      var step := PathStep(req.part, req.api);
      if req.parent.External? then Place(req.parent.id, [step])
      else Place(places[req.parent].root, places[req.parent].steps + [step])
    }

    ghost predicate Registered(req: Request) {
      && req in cache && cache[req] in places && Known(req.parent) && places[cache[req]] == PlaceOf(req)
    }

    ghost predicate Placed(r: ResourceId)
      requires r in places && r in pathByRef
    {
      && r.Created? && r.number < created
      && places[r].steps != [] && pathByRef[r] == UrlOf(places[r].steps)
      && r in origin && origin[r] in cache && cache[origin[r]] == r
    }

    ghost predicate Valid() {
      && pathByRef.Keys == places.Keys
      && AllPlaced()
      && AllRegistered()
      && DistinctPlaces()
    }

    ghost predicate AllPlaced()
      requires pathByRef.Keys == places.Keys
    {
      forall r {:trigger Placed(r)} | r in places :: Placed(r)
    }

    ghost predicate AllRegistered() {
      forall req {:trigger Registered(req)} | req in cache :: Registered(req)
    }

    ghost predicate DistinctPlaces() {
      forall r, s | r in places && s in places && places[r] == places[s] :: r == s
    }

    /** The registries after one more request that was not cached. */
    ghost function Adding(req: Request): Registry
      requires Known(req.parent)
    {
      var ref := Created(created);
      Registry(cache[req := ref], pathByRef[ref := UrlOf(PlaceOf(req).steps)], created + 1,
               places[ref := PlaceOf(req)], origin[ref := req])
    }

    /** The registries after one request, and after a run of them. */
    ghost function Serving(req: Request): Registry
      requires Known(req.parent)
    {
      if req in cache then this else Adding(req)
    }

    ghost function ServingAll(reqs: seq<Request>): Registry
      requires CanServe(reqs)
      decreases |reqs|
    {
      if reqs == [] then this else Serving(reqs[0]).ServingAll(reqs[1..])
    }

    /** Every request of the run names a parent that exists when it is made. */
    ghost predicate CanServe(reqs: seq<Request>)
      decreases |reqs|
    {
      reqs == [] || (Known(reqs[0].parent) && Serving(reqs[0]).CanServe(reqs[1..]))
    }

    /** `later` still gives every answer given here. */
    ghost predicate KeptBy(later: Registry) {
      && (forall q | q in cache :: q in later.cache && later.cache[q] == cache[q])
      && (forall r | r in places :: r in later.places && later.places[r] == places[r])
    }

    /** The request has an answer, registered under the URL of its place. */
    ghost predicate Answered(req: Request) {
      && Registered(req) && cache[req] in pathByRef
      && pathByRef[cache[req]] == UrlOf(PlaceOf(req).steps)
    }

    lemma ServingAnswers(req: Request)
      requires Valid() && Known(req.parent)
      ensures Serving(req).Valid() && KeptBy(Serving(req)) && req in Serving(req).cache
    {
      if req !in cache {
        AddingKeepsValid(req);
        assert KeptBy(Adding(req)) by {
          AddingKeepsAnswers(req);
        }
      }
    }

    lemma AddingKeepsAnswers(req: Request)
      requires Known(req.parent) && req !in cache && Created(created) !in places
      ensures KeptBy(Adding(req)) && req in Adding(req).cache
    {
    }

    lemma KeptThrough(next: Registry, end: Registry, req: Request)
      requires KeptBy(next) && next.KeptBy(end) && req in next.cache && end.Valid()
      ensures KeptBy(end) && end.Answered(req)
    {
      end.CachedIsAnswered(req);
    }

    lemma CachedIsAnswered(req: Request)
      requires Valid() && req in cache
      ensures Answered(req)
    {
      assert Registered(req) && Placed(cache[req]);
    }

    /** After any run, every request of it is answered under the URL of its place, and every answer given
        before the run stands. */
    lemma {:induction false} RunsAgreeWithTree(reqs: seq<Request>)
      requires Valid() && CanServe(reqs)
      ensures ServingAll(reqs).Valid()
      ensures KeptBy(ServingAll(reqs))
      ensures forall q | q in reqs :: ServingAll(reqs).Answered(q)
      decreases |reqs|
    {
      if reqs == [] {
        assert ServingAll(reqs) == this;
      } else {
        assert forall q | q in reqs :: q == reqs[0] || q in reqs[1..];
        var next := Serving(reqs[0]);
        ServingAnswers(reqs[0]);
        next.RunsAgreeWithTree(reqs[1..]);
        KeptThrough(next, next.ServingAll(reqs[1..]), reqs[0]);
      }
    }

    lemma AddingKeepsValid(req: Request)
      requires Valid() && req !in cache && Known(req.parent)
      ensures Created(created) !in places && Adding(req).Valid()
    {
      assert Created(created) !in places by {
        assert Created(created) in places ==> Placed(Created(created));
      }
      AddingKeepsPlaced(req);
      AddingKeepsRegistered(req);
      FreshPlace(req);
    }

    lemma AddingKeepsPlaced(req: Request)
      requires pathByRef.Keys == places.Keys && AllPlaced() && Known(req.parent)
      requires req !in cache && Created(created) !in places
      ensures Adding(req).pathByRef.Keys == Adding(req).places.Keys && Adding(req).AllPlaced()
    {
      var next := Adding(req);
      var ref := Created(created);
      assert req.parent in places ==> Placed(req.parent);
      forall r | r in next.places ensures next.Placed(r) {
        if r != ref {
          assert Placed(r) && origin[r] != req;
        }
      }
    }

    lemma AddingKeepsRegistered(req: Request)
      requires AllRegistered() && Known(req.parent)
      requires req !in cache && Created(created) !in places
      ensures Adding(req).AllRegistered()
    {
      var next := Adding(req);
      assert next.PlaceOf(req) == PlaceOf(req);
      forall q | q in next.cache ensures next.Registered(q) {
        if q != req {
          assert Registered(q);
        }
      }
    }

    /** Nothing sits yet at the place of a request that is not cached. */
    lemma FreshPlace(req: Request)
      requires Valid() && Known(req.parent) && req !in cache
      ensures forall r | r in places :: places[r] != PlaceOf(req)
    {
      assert forall r | r in places :: Placed(r);
      forall r | r in places ensures places[r] != PlaceOf(req) {
        assert Placed(r) && Registered(origin[r]);
        if places[r] == PlaceOf(req) {
          SameRequest(origin[r], req);
        }
      }
    }

    /** Two resources at slash-free places are the same exactly when they hang from the same import, were
        asked for under the same APIs and have the same URL. */
    lemma SameUrlSameResource(r: ResourceId, s: ResourceId)
      requires Valid() && r in places && s in places
      requires AllPathParts(PartsOf(places[r].steps)) && AllPathParts(PartsOf(places[s].steps))
      ensures r == s <==> places[r].root == places[s].root && pathByRef[r] == pathByRef[s] &&
                          ApisOf(places[r].steps) == ApisOf(places[s].steps)
    {
      var a, b := places[r].steps, places[s].steps;
      assert Placed(r) && Placed(s);
      UrlIsJoin(a);
      UrlIsJoin(b);
      SplitJoin(PartsOf(a));
      SplitJoin(PartsOf(b));
      if PartsOf(a) == PartsOf(b) && ApisOf(a) == ApisOf(b) {
        SameSteps(a, b);
      }
    }

    /** The URL built from the parent's URL is the URL of the place. */
    lemma UrlOfPlace(req: Request)
      requires Valid() && Known(req.parent)
      ensures FullUrl(pathByRef, req.parent, req.part) == UrlOf(PlaceOf(req).steps)
    {
      var steps := PlaceOf(req).steps;
      if req.parent in places {
        assert Placed(req.parent);
        assert steps[..|steps| - 1] == places[req.parent].steps;
      } else {
        assert steps[..0] == [];
      }
    }

    lemma SameRequest(p: Request, q: Request)
      requires Known(p.parent) && Known(q.parent) && PlaceOf(p) == PlaceOf(q)
      requires DistinctPlaces() && forall r | r in places :: r.Created? && places[r].steps != []
      ensures p == q
    {
      var a, b := PlaceOf(p).steps, PlaceOf(q).steps;
      assert a[|a| - 1] == PathStep(p.part, p.api) && b[|b| - 1] == PathStep(q.part, q.api);
      if p.parent.Created? {
        assert a[..|a| - 1] == places[p.parent].steps;
      }
      if q.parent.Created? {
        assert b[..|b| - 1] == places[q.parent].steps;
      }
    }
  }

  function ApisOf(steps: seq<PathStep>): (apis: seq<ApiId>)
    ensures |apis| == |steps| && forall i | 0 <= i < |steps| :: apis[i] == steps[i].api
  {
    seq(|steps|, i requires 0 <= i < |steps| => steps[i].api)
  }

  lemma SameSteps(a: seq<PathStep>, b: seq<PathStep>)
    requires PartsOf(a) == PartsOf(b) && ApisOf(a) == ApisOf(b)
    ensures a == b
  {
    assert |a| == |PartsOf(a)| == |b|;
    forall i | 0 <= i < |a| ensures a[i] == b[i] {
      assert PartsOf(a)[i] == PartsOf(b)[i] && ApisOf(a)[i] == ApisOf(b)[i];
    }
  }

  class CommonResources {
    var cache: map<Request, ResourceId>
    var pathByRef: map<ResourceId, string>
    var created: nat
    ghost var places: map<ResourceId, Place>
    ghost var origin: map<ResourceId, Request>

    constructor ()
      ensures Now() == Registry(map[], map[], 0, map[], map[]) && Now().Valid()
    {
      cache, pathByRef, created := map[], map[], 0;
      places, origin := map[], map[];
    }

    ghost function Now(): Registry
      reads this
    {
      Registry(cache, pathByRef, created, places, origin)
    }

    /** A new resource, registered under its full URL. */
    method CreateResource(parent: ResourceId, part: string) returns (ref: ResourceId)
      modifies this`pathByRef, this`created
      ensures ref == Created(old(created)) && created == old(created) + 1
      ensures pathByRef == old(pathByRef)[ref := FullUrl(old(pathByRef), parent, part)]
    {
      var parentUrl := if parent in pathByRef then pathByRef[parent] else "";
      var fullUrl := LeftStrip(parentUrl + "/" + part);
      ref := Created(created);
      created := created + 1;
      pathByRef := pathByRef[ref := fullUrl];
    }

    /** The resource of a request, from the cache or new. Whatever the calls before, it is the only one
        at its place and is registered under the URL of that place; nothing registered moves. */
    method GetOrCreate(parent: ResourceId, part: string, api: ApiId) returns (ref: ResourceId)
      requires Now().Valid() && Now().Known(parent)
      modifies this
      ensures Now() == old(Now()).Serving(Request(parent, part, api)) && Now().Valid()
      ensures Now().Answered(Request(parent, part, api)) && cache[Request(parent, part, api)] == ref
    {
      var key := Request(parent, part, api);
      ghost var before := Now();
      before.ServingAnswers(key);
      before.Serving(key).CachedIsAnswered(key);
      if key in cache {
        return cache[key];
      }
      before.UrlOfPlace(key);
      ref := CreateAndCache(key);
    }

    method CreateAndCache(key: Request) returns (ref: ResourceId)
      requires Now().Known(key.parent)
      requires FullUrl(pathByRef, key.parent, key.part) == UrlOf(Now().PlaceOf(key).steps)
      modifies this
      ensures Now() == old(Now()).Adding(key) && cache[key] == ref
    {
      ghost var place := Now().PlaceOf(key);
      ref := CreateResource(key.parent, key.part);
      places := places[ref := place];
      origin := origin[ref := key];
      cache := cache[key := ref];
    }
  }

  /** `f"{parent_url}/{path_part}".lstrip("/")`. */
  function FullUrl(pathByRef: map<ResourceId, string>, parent: ResourceId, part: string): string {
    LeftStrip((if parent in pathByRef then pathByRef[parent] else "") + "/" + part)
  }

  lemma {:induction false} JoinAppend(parts: Parts, part: string)
    requires parts != []
    ensures Join(parts + [part]) == Join(parts) + "/" + part
    decreases |parts|
  {
    assert (parts + [part])[1..] == parts[1..] + [part];
    if |parts| > 1 {
      JoinAppend(parts[1..], part);
    }
  }

  lemma JoinStart(parts: Parts)
    requires parts != [] && PathPart(parts[0])
    ensures Join(parts) != "" && Join(parts)[0] == parts[0][0] && parts[0][0] != '/'
  {
    assert parts[0][0] in parts[0];
  }

  /** For non-empty parts without slashes the URL is the joined parts. */
  lemma {:induction false} UrlIsJoin(steps: seq<PathStep>)
    requires AllPathParts(PartsOf(steps))
    ensures UrlOf(steps) == Join(PartsOf(steps))
    decreases |steps|
  {
    if steps != [] {
      var front, part := steps[..|steps| - 1], steps[|steps| - 1].part;
      var parts := PartsOf(front);
      assert PartsOf(steps) == parts + [part];
      assert AllPathParts(parts) && PathPart(PartsOf(steps)[|front|]);
      UrlIsJoin(front);
      JoinOneMore(parts, part);
    }
  }

  /** Joining a URL and a part, without leading slashes, is joining the parts. */
  lemma JoinOneMore(parts: Parts, part: string)
    requires PathPart(part) && AllPathParts(parts)
    ensures LeftStrip(Join(parts) + "/" + part) == Join(parts + [part])
  {
    if parts == [] {
      assert ("" + "/" + part)[1..] == part;
      assert [] + [part] == [part];
      JoinStart([part]);
      assert Join([part]) == part;
    } else {
      assert PathPart(parts[0]);
      JoinStart(parts);
      JoinAppend(parts, part);
      assert (Join(parts) + "/" + part)[0] == Join(parts)[0];
    }
  }
}
