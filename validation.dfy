/** The `/validate` endpoint: every request is charged to the rate
    limiter before anything else is looked at. */
module Validation {
  import opened Common
  import opened Text
  import opened Http
  import opened Limiter

  /** PHP `ceil` of a non-integral or integral real, as an integer. */
  function Ceil(x: real): (c: int)
    ensures x <= c as real < x + 1.0
  {
    -((-x).Floor)
  }

  /** The `Retry-After` header's seconds: the rounded-up delay, at least one. */
  function RetryAfterSeconds(retry: real): (n: int)
    ensures n >= 1
    ensures retry <= n as real
    ensures retry > 0.0 ==> n == Ceil(retry) && (n as real) < retry + 1.0
    ensures retry <= 0.0 ==> n == 1
  {
    var c := Ceil(retry);
    if c < 1 then 1 else c
  }

  /** The 429 answer: the key and the rounded-up delay in the body, the
      delay of at least one second in `Retry-After`. */
  function TooManyRequests(key: string, retry: real): (resp: Response)
    ensures resp.status == 429
    ensures resp.headers == [("Content-Type", JsonContentType), ("Retry-After", IntToString(RetryAfterSeconds(retry)))]
    ensures resp.body.JsonBody? && resp.body.value.JObject?
    ensures Get(resp.body.value.fields, "retryAfter") == Some(JInt(Ceil(retry)))
    ensures Get(resp.body.value.fields, "key") == Some(JString(key))
  {
    assert |"retryAfter"| != |"error"| && |"retryAfter"| != |"key"| && |"key"| != |"error"|;
    var fields := [("error", JString("Too many requests")), ("key", JString(key)), ("retryAfter", JInt(Ceil(retry)))];
    assert Get(fields[2..], "retryAfter") == Some(JInt(Ceil(retry)));
    assert fields[1..][1..] == fields[2..];
    assert Get(fields[1..], "retryAfter") == Some(JInt(Ceil(retry)));
    Response(429, JsonBody(JObject(fields)),
             [("Content-Type", JsonContentType), ("Retry-After", IntToString(RetryAfterSeconds(retry)))])
  }

  /** The address to validate: from the query string for `GET`, from the
      JSON body for every other method; it must be a non-empty string. */
  function EmailOf(r: Request): (email: Option<string>)
    ensures email.Some? ==> email.value != ""
    ensures r.httpMethod == "GET" ==> (email.Some? <==> Get(r.query, "email").Some? && Get(r.query, "email").value != "")
    ensures r.httpMethod != "GET" ==>
      (email.Some? <==> exists s :: s != "" && JsonField(r.json, "email") == Some(JString(s)))
    ensures r.httpMethod != "GET" && email.Some? ==> JsonField(r.json, "email") == Some(JString(email.value))
  {
    if r.httpMethod == "GET" then
      match Get(r.query, "email")
      case Some(s) => if s != "" then Some(s) else None
      case None => None
    else
      match JsonField(r.json, "email")
      case Some(JString(s)) => if s != "" then Some(s) else None
      case _ => None
  }

  const InvalidEmail: Response := JsonResponse(400, JObject([("error", JString("Missing or invalid \"email\""))]))

  /** The answer once the limiter has spoken; `validate` stands for the
      validator library's result for an address. */
  function Answer(allowed: bool, retry: real, key: string, r: Request, validate: string -> Json): (resp: Response)
    ensures resp.status == 429 <==> !allowed
    ensures resp.status == 400 <==> allowed && EmailOf(r).None?
    ensures resp.status == 200 <==> allowed && EmailOf(r).Some?
    ensures resp.status == 200 ==> resp == JsonResponse(200, validate(EmailOf(r).value))
  {
    if !allowed then TooManyRequests(key, retry)
    else
      match EmailOf(r)
      case None => InvalidEmail
      case Some(email) => JsonResponse(200, validate(email))
  }

  /** A `GET` request's address comes from the query alone, any other
      request's from the JSON body alone. */
  lemma EmailSourceFollowsMethod(r: Request, query: seq<(string, string)>, json: Option<seq<(string, Json)>>)
    ensures r.httpMethod == "GET" ==> EmailOf(r.(json := json)) == EmailOf(r)
    ensures r.httpMethod != "GET" ==> EmailOf(r.(query := query)) == EmailOf(r)
  {
  }

  /** With a positive refill rate a denied hit reports one delay: the body's
      `retryAfter` equals the `Retry-After` header, both at least one second. */
  lemma DeniedHitReportsOneDelay(files: map<string, Option<Bucket>>, file: string, capacity: int,
                                 refillPerSecond: real, cost: int, now: real, key: string, r: Request,
                                 validate: string -> Json)
    requires refillPerSecond > 0.0
    ensures var h := HitOf(files, file, capacity, refillPerSecond, cost, now, true);
      !h.allowed ==> Ceil(h.retryAfter) == RetryAfterSeconds(h.retryAfter) && Ceil(h.retryAfter) >= 1
  {
    HitAdmits(files, file, capacity, refillPerSecond, cost, now);
  }

  class ValidationController {
    const limiter: RateLimiter
    const rateKey: Request -> string
    const validate: string -> Json

    constructor (limiter: RateLimiter, rateKey: Request -> string, validate: string -> Json)
      ensures this.limiter == limiter && this.rateKey == rateKey && this.validate == validate
    {
      this.limiter := limiter;
      this.rateKey := rateKey;
      this.validate := validate;
    }

    /** `handle`: charge one token to the request's key, then answer 429,
        400 or the validator's result. The charge happens whatever the
        request holds, a missing address included. */
    method Handle(r: Request, now: real, canOpen: bool) returns (resp: Response)
      modifies limiter
      ensures var h := HitOf(old(limiter.files), limiter.FileForKey(rateKey(r)), limiter.capacity,
                             limiter.refillPerSecond, 1, now, canOpen);
        limiter.files == h.files && resp == Answer(h.allowed, h.retryAfter, rateKey(r), r, validate)
    {
      var key := rateKey(r);
      var ok, retry := limiter.Hit(key, 1, now, canOpen);
      if !ok {
        return TooManyRequests(key, retry);
      }
      var email := EmailOf(r);
      if email.None? {
        return InvalidEmail;
      }
      resp := JsonResponse(200, validate(email.value));
    }
  }
}
