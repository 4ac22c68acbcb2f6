/** The router: one table of handlers for POST requests and one for
    every other method, each keyed by the exact request path. */
module Routing {
  import opened Common
  import opened Http

  /** The answer when no handler is registered for the path. */
  const NotFound: Response := Response(404, TextBody("Not found\n"), [("Content-Type", "text/plain; charset=utf-8")])

  /** The handler `dispatch` picks: only the method `POST`, written exactly
      so, reads the POST table; every other method reads the GET table. */
  function RouteIn<H>(getRoutes: map<string, H>, postRoutes: map<string, H>, r: Request): (h: Option<H>)
    ensures r.httpMethod == "POST" ==> (h.Some? <==> r.path in postRoutes)
    ensures r.httpMethod == "POST" && h.Some? ==> h.value == postRoutes[r.path]
    ensures r.httpMethod != "POST" ==> (h.Some? <==> r.path in getRoutes)
    ensures r.httpMethod != "POST" && h.Some? ==> h.value == getRoutes[r.path]
  {
    var table := if r.httpMethod == "POST" then postRoutes else getRoutes;
    if r.path in table then Some(table[r.path]) else None
  }

  /** Registering a POST handler changes nothing for other methods, and
      registering a GET handler changes nothing for POST. */
  lemma TablesAreSeparate<H>(getRoutes: map<string, H>, postRoutes: map<string, H>, path: string, h: H, r: Request)
    ensures r.httpMethod != "POST" ==> RouteIn(getRoutes, postRoutes[path := h], r) == RouteIn(getRoutes, postRoutes, r)
    ensures r.httpMethod == "POST" ==> RouteIn(getRoutes[path := h], postRoutes, r) == RouteIn(getRoutes, postRoutes, r)
  {
  }

  /** A second registration for a path replaces the first; other paths keep their handlers. */
  lemma LastRegistrationWins<H>(getRoutes: map<string, H>, postRoutes: map<string, H>,
                                path: string, first: H, second: H, r: Request)
    requires r.httpMethod != "POST"
    ensures r.path == path ==> RouteIn(getRoutes[path := first][path := second], postRoutes, r) == Some(second)
    ensures r.path != path ==> RouteIn(getRoutes[path := first][path := second], postRoutes, r) == RouteIn(getRoutes, postRoutes, r)
  {
  }

  /** Handlers are values of type `H`; `call` stands for running one on a request. */
  class Router<H> {
    var getRoutes: map<string, H>
    var postRoutes: map<string, H>

    constructor ()
      ensures getRoutes == map[] && postRoutes == map[]
    {
      getRoutes := map[];
      postRoutes := map[];
    }

    /** `get`: register, or replace, the handler for a path. */
    method Get(path: string, handler: H)
      modifies this
      ensures getRoutes == old(getRoutes)[path := handler] && postRoutes == old(postRoutes)
    {
      getRoutes := getRoutes[path := handler];
    }

    /** `post`: register, or replace, the POST handler for a path. */
    method Post(path: string, handler: H)
      modifies this
      ensures postRoutes == old(postRoutes)[path := handler] && getRoutes == old(getRoutes)
    {
      postRoutes := postRoutes[path := handler];
    }

    /** `dispatch`: the registered handler's response, or 404 with a plain-text body. */
    function Dispatch(r: Request, call: (H, Request) -> Response): (resp: Response)
      reads this
      ensures RouteIn(getRoutes, postRoutes, r).Some? ==> resp == call(RouteIn(getRoutes, postRoutes, r).value, r)
      ensures RouteIn(getRoutes, postRoutes, r).None? ==>
        resp.status == 404 && resp.body == TextBody("Not found\n")
        && resp.headers == [("Content-Type", "text/plain; charset=utf-8")]
    {
      match RouteIn(getRoutes, postRoutes, r)
      case Some(h) => call(h, r)
      case None => NotFound
    }
  }
}
