/** The file-based token-bucket limiter: one bucket per key, each kept in
    its own state file under the storage directory.

    Time and tokens are `real`; the clock is the parameter `now`. The state
    files are the map `files` from path to what decoding the file yields:
    `None` for an empty, undecodable or incomplete state, `Some` for a
    state with both `t` and `tokens`. `sha256` is the oracle `hash`.
    Whether `fopen` succeeds is the parameter `canOpen`. */
module Limiter {
  import opened Common
  import opened Text

  /** A decoded bucket state: when it was last charged and what was left. */
  datatype Bucket = Bucket(t: real, tokens: real)

  /** The outcome of the decision step: a division by a zero refill rate
      throws, which `hit` answers by failing open. */
  datatype Decision = FailOpen | Decided(allowed: bool, retryAfter: real, next: Bucket)

  /** What one hit answers and the state files it leaves behind. */
  datatype HitResult = HitResult(allowed: bool, retryAfter: real, files: map<string, Option<Bucket>>)

  /** The state `hit` starts from: a missing or unusable state is a full bucket stamped `now`. */
  function Current(stored: Option<Bucket>, now: real, capacity: int): (b: Bucket)
    ensures stored.None? ==> b == Bucket(now, capacity as real)
    ensures stored.Some? ==> b == stored.value
  {
    match stored
    case None => Bucket(now, capacity as real)
    case Some(s) => s
  }

  /** Tokens earned since `t` (a clock that went back earns nothing), capped at the capacity. */
  function Refill(b: Bucket, now: real, capacity: int, refillPerSecond: real): (r: Bucket)
    ensures r.t == b.t
    ensures r.tokens <= capacity as real
    ensures refillPerSecond >= 0.0 && b.tokens <= capacity as real ==> b.tokens <= r.tokens
    ensures now <= b.t ==> r.tokens == if b.tokens < capacity as real then b.tokens else capacity as real
  {
    var elapsed := if now - b.t > 0.0 then now - b.t else 0.0;
    var earned := b.tokens + elapsed * refillPerSecond;
    assert refillPerSecond >= 0.0 ==> elapsed * refillPerSecond >= 0.0;
    Bucket(b.t, if capacity as real < earned then capacity as real else earned)
  }

  /** Admit when the bucket holds the cost, otherwise say how long the missing tokens take. */
  function Decide(b: Bucket, cost: int, now: real, refillPerSecond: real): (d: Decision)
    ensures (d.Decided? && d.allowed) <==> b.tokens >= cost as real
    ensures d.FailOpen? <==> b.tokens < cost as real && refillPerSecond == 0.0
    ensures d.Decided? ==> d.next.t == now
    ensures d.Decided? && d.allowed ==> d.next.tokens == b.tokens - cost as real && d.retryAfter == 0.0
    ensures d.Decided? && !d.allowed ==>
      d.next.tokens == b.tokens && d.retryAfter * refillPerSecond == cost as real - b.tokens
    ensures d.Decided? && !d.allowed && refillPerSecond > 0.0 ==> d.retryAfter > 0.0
  {
    if b.tokens >= cost as real then
      Decided(true, 0.0, Bucket(now, b.tokens - cost as real))
    else if refillPerSecond == 0.0 then
      FailOpen
    else
      var need := cost as real - b.tokens;
      Decided(false, need / refillPerSecond, Bucket(now, b.tokens))
  }

  /** The bucket as `hit` sees it after the refill. */
  function Refilled(files: map<string, Option<Bucket>>, file: string, now: real, capacity: int,
                    refillPerSecond: real): Bucket
  {
    var stored := if file in files then files[file] else None;
    Refill(Current(stored, now, capacity), now, capacity, refillPerSecond)
  }

  /** One `hit` on the bucket kept in `file`. Opening with mode `c+` creates
      a missing file empty; a failed open or a thrown division fails open
      without rewriting the state. */
  function HitOf(files: map<string, Option<Bucket>>, file: string, capacity: int, refillPerSecond: real,
                 cost: int, now: real, canOpen: bool): (r: HitResult)
    ensures forall g :: g != file ==> (g in r.files <==> g in files)
    ensures forall g :: g != file && g in files ==> r.files[g] == files[g]
    ensures file in files ==> file in r.files
  {
    var created := if file in files then files else files[file := None];
    if !canOpen then HitResult(true, 0.0, files)
    else
      match Decide(Refilled(files, file, now, capacity, refillPerSecond), cost, now, refillPerSecond)
      case FailOpen => HitResult(true, 0.0, created)
      case Decided(allowed, retryAfter, next) => HitResult(allowed, retryAfter, files[file := Some(next)])
  }

  /** A hit is admitted exactly when the refilled bucket holds the cost;
      admission takes exactly the cost and answers a zero delay, and either
      way the state is stamped with `now`. */
  lemma HitAdmits(files: map<string, Option<Bucket>>, file: string, capacity: int, refillPerSecond: real,
                  cost: int, now: real)
    requires refillPerSecond > 0.0
    ensures var b := Refilled(files, file, now, capacity, refillPerSecond);
      var r := HitOf(files, file, capacity, refillPerSecond, cost, now, true);
      (r.allowed <==> b.tokens >= cost as real)
      && (r.allowed ==> r.retryAfter == 0.0 && r.files[file] == Some(Bucket(now, b.tokens - cost as real)))
      && (!r.allowed ==> r.retryAfter > 0.0 && r.files[file] == Some(Bucket(now, b.tokens))
                         && r.retryAfter * refillPerSecond == cost as real - b.tokens)
  {
    var b := Refilled(files, file, now, capacity, refillPerSecond);
    var d := Decide(b, cost, now, refillPerSecond);
    assert d.Decided?;
  }

  /** A hit that cannot open its file, or whose division by a zero refill
      rate throws, is allowed with no delay and rewrites no state. */
  lemma HitFailsOpen(files: map<string, Option<Bucket>>, file: string, capacity: int, refillPerSecond: real,
                     cost: int, now: real, canOpen: bool)
    requires !canOpen
      || (refillPerSecond == 0.0 && Refilled(files, file, now, capacity, refillPerSecond).tokens < cost as real)
    ensures var r := HitOf(files, file, capacity, refillPerSecond, cost, now, canOpen);
      r.allowed && r.retryAfter == 0.0
      && (file in files ==> r.files == files)
      && (file !in files ==> r.files == files[file := None] || r.files == files)
  {
  }

  /** With a refill rate of zero every hit is allowed: once the bucket is
      short, the retry-after division throws and the limiter fails open. */
  lemma ZeroRefillAllowsEveryHit(files: map<string, Option<Bucket>>, file: string, capacity: int,
                                 cost: int, now: real, canOpen: bool)
    ensures HitOf(files, file, capacity, 0.0, cost, now, canOpen).allowed
  {
    if canOpen {
      var d := Decide(Refilled(files, file, now, capacity, 0.0), cost, now, 0.0);
      assert d.FailOpen? || d.allowed;
    }
  }

  /** The state a hit writes, or finds, where there is one. */
  predicate InBounds(stored: Option<Bucket>, capacity: int)
  {
    stored.Some? ==> 0.0 <= stored.value.tokens <= capacity as real
  }

  /** With a non-negative capacity, cost and refill rate a bucket holding
      between zero and the capacity still does after a hit. */
  lemma HitKeepsBounds(files: map<string, Option<Bucket>>, file: string, capacity: int, refillPerSecond: real,
                       cost: int, now: real, canOpen: bool)
    requires 0 <= capacity && 0 <= cost && 0.0 <= refillPerSecond
    requires file in files ==> InBounds(files[file], capacity)
    ensures var r := HitOf(files, file, capacity, refillPerSecond, cost, now, canOpen);
      file in r.files ==> InBounds(r.files[file], capacity)
  {
    var stored := if file in files then files[file] else None;
    var b := Current(stored, now, capacity);
    assert 0.0 <= b.tokens <= capacity as real;
    var refilled := Refill(b, now, capacity, refillPerSecond);
    assert 0.0 <= refilled.tokens;
  }

  /** Hits with the given costs, one after another on one bucket, all at
      the same instant: the total cost admitted and the final state files. */
  function Run(files: map<string, Option<Bucket>>, file: string, capacity: int, refillPerSecond: real,
               costs: seq<int>, now: real): (r: (int, map<string, Option<Bucket>>))
    decreases |costs|
  {
    if |costs| == 0 then (0, files)
    else
      var h := HitOf(files, file, capacity, refillPerSecond, costs[0], now, true);
      var rest := Run(h.files, file, capacity, refillPerSecond, costs[1..], now);
      ((if h.allowed then costs[0] else 0) + rest.0, rest.1)
  }

  /** While the clock stands still, hits on one bucket are admitted for at
      most the tokens the bucket held when the first of them arrived (or
      for nothing, when it held none). */
  lemma {:induction false} RunAdmitsAtMostTheTokens(files: map<string, Option<Bucket>>, file: string,
                                                   capacity: int, refillPerSecond: real,
                                                   costs: seq<int>, now: real)
    requires refillPerSecond > 0.0
    requires forall i :: 0 <= i < |costs| ==> costs[i] >= 0
    ensures var start := Refilled(files, file, now, capacity, refillPerSecond).tokens;
      Run(files, file, capacity, refillPerSecond, costs, now).0 as real <= if start > 0.0 then start else 0.0
    decreases |costs|
  {
    if |costs| > 0 {
      var b := Refilled(files, file, now, capacity, refillPerSecond);
      var h := HitOf(files, file, capacity, refillPerSecond, costs[0], now, true);
      HitAdmits(files, file, capacity, refillPerSecond, costs[0], now);
      assert costs[1..][0..] == costs[1..];
      RunAdmitsAtMostTheTokens(h.files, file, capacity, refillPerSecond, costs[1..], now);
      var next := Refilled(h.files, file, now, capacity, refillPerSecond);
      assert h.files[file].value.t == now;
      assert next.tokens <= h.files[file].value.tokens;
    }
  }

  /** A `sha256` digest as `hash('sha256', ...)` prints it: 64 lower-case hexadecimal digits. */
  predicate IsHexDigest(s: string)
  {
    |s| == 64 && forall i :: 0 <= i < |s| ==> ('0' <= s[i] <= '9') || ('a' <= s[i] <= 'f')
  }

  type Digest = s: string | IsHexDigest(s)
    witness seq(64, _ => '0')

  class RateLimiter {
    const ns: string
    const capacity: int
    const refillPerSecond: real
    const dir: string
    const hash: string -> Digest
    var files: map<string, Option<Bucket>>

    /** The storage directory is kept without trailing separators. */
    constructor (namespace: string, capacity: int, refillPerSecond: real, storageDir: string,
                 hash: string -> Digest, files: map<string, Option<Bucket>>)
      ensures ns == namespace && this.capacity == capacity && this.refillPerSecond == refillPerSecond
      ensures dir == TrimEnd(storageDir, IsSlash) && this.hash == hash && this.files == files
    {
      ns := namespace;
      this.capacity := capacity;
      this.refillPerSecond := refillPerSecond;
      dir := TrimEnd(storageDir, IsSlash);
      this.hash := hash;
      this.files := files;
    }

    /** The state file of a key: a JSON file directly in the storage
        directory, named after the hash of the namespace and the key. */
    function FileForKey(key: string): (f: string)
      ensures StartsWith(f, dir + "/") && EndsWith(f, ".json")
      ensures |f| == |dir| + 70 && forall i :: |dir| < i < |f| ==> f[i] != '/'
    {
      var d := hash(ns + ":" + key);
      var f := dir + "/" + d + ".json";
      assert f[..|dir + "/"|] == dir + "/";
      assert f[|f| - 5..] == ".json";
      assert forall i :: |dir| < i < |dir| + 65 ==> f[i] == d[i - |dir| - 1];
      f
    }

    /** `hit`: read the bucket, refill it, admit or deny, stamp and write it back. */
    method Hit(key: string, cost: int, now: real, canOpen: bool) returns (allowed: bool, retryAfter: real)
      modifies this
      ensures var r := HitOf(old(files), FileForKey(key), capacity, refillPerSecond, cost, now, canOpen);
        allowed == r.allowed && retryAfter == r.retryAfter && files == r.files
    {
      var file := FileForKey(key);
      if !canOpen {
        return true, 0.0;
      }
      ghost var before := files;
      if file !in files {
        files := files[file := None];
      }
      var t: real, tokens: real;
      match files[file] {
        case None =>
          t, tokens := now, capacity as real;
        case Some(state) =>
          t, tokens := state.t, state.tokens;
      }
      var elapsed := if now - t > 0.0 then now - t else 0.0;
      tokens := if capacity as real < tokens + elapsed * refillPerSecond then capacity as real
                else tokens + elapsed * refillPerSecond;
      assert Bucket(t, tokens) == Refilled(before, file, now, capacity, refillPerSecond);
      allowed := false;
      retryAfter := 0.0;
      if tokens >= cost as real {
        tokens := tokens - cost as real;
        allowed := true;
      } else {
        var need := cost as real - tokens;
        if refillPerSecond == 0.0 {
          return true, 0.0;
        }
        retryAfter := need / refillPerSecond;
      }
      t := now;
      files := files[file := Some(Bucket(t, tokens))];
    }
  }

  /** The bucket file depends only on `namespace:key`: a key is always
      charged against the same bucket, and two limiters sharing a directory
      share a bucket whenever the joined strings agree (`api` with `v:x`
      and `api:v` with `x`, say). */
  lemma NamespacesShareBuckets(a: RateLimiter, b: RateLimiter, k1: string, k2: string)
    requires a.dir == b.dir && a.hash == b.hash && a.ns + ":" + k1 == b.ns + ":" + k2
    ensures a.FileForKey(k1) == b.FileForKey(k2)
  {
  }
}
