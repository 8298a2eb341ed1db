/** The fixed-window rate limiter of src/middleware/security.ts as a step
    function over the store. The store maps a client address to its window:
    the requests counted so far and the millisecond instant the window ends.
    The clock reading `now` and the configured limit and window length are
    inputs. */
module RateLimit {
  import opened Wrappers
  import Arith

  datatype Window = Window(count: int, resetTime: int)

  type Store = map<string, Window>

  /** What the middleware does with one request. A rejection answers 429 with
      the seconds to wait; an acceptance lets the request on with the three
      `X-RateLimit-*` headers. */
  datatype Outcome =
    | Rejected(retryAfter: int)
    | Accepted(limit: int, remaining: int, resetSeconds: int)

  /** The HTTP status of a rejection. */
  const TooManyRequests: int := 429

  /** The status the middleware sets: 429 for a rejection, none for an
      accepted request, which goes on to its route. */
  function StatusOf(out: Outcome): (code: Option<int>)
    ensures out.Rejected? <==> code == Some(TooManyRequests)
    ensures out.Accepted? <==> code.None?
  {
    if out.Rejected? then Some(TooManyRequests) else None
  }

  /** The window length in milliseconds for `API_RATE_WINDOW` minutes. */
  function WindowMs(windowMinutes: int): int {
    windowMinutes * 60 * 1000
  }

  /** The sweep that runs before every request: each window that ended
      strictly before `now` is dropped, every other one is kept unchanged. */
  function Sweep(store: Store, now: int): (r: Store)
    ensures forall ip :: ip in r <==> ip in store && now <= store[ip].resetTime
    ensures forall ip :: ip in r ==> r[ip] == store[ip]
  {
    map ip | ip in store && now <= store[ip].resetTime :: store[ip]
  }

  /** A client whose window is missing or over starts a new one. */
  predicate Fresh(store: Store, ip: string, now: int) {
    ip !in store || now > store[ip].resetTime
  }

  /** One request from `ip` at `now`: sweep, open a new window if needed,
      count the request, and reject it once the count exceeds the limit. The
      count is incremented whether or not the request is rejected. */
  function Step(store: Store, ip: string, now: int, limit: int, windowMinutes: int): (result: (Store, Outcome))
    ensures var (r, out) := result;
      && ip in r
      && (Fresh(store, ip, now) ==> r[ip] == Window(1, now + WindowMs(windowMinutes)))
      && (!Fresh(store, ip, now) ==> r[ip] == Window(store[ip].count + 1, store[ip].resetTime))
      && (forall other :: other != ip ==>
            (other in r <==> other in store && now <= store[other].resetTime))
      && (forall other :: other != ip && other in r ==> r[other] == store[other])
    ensures var (r, out) := result;
      && (out.Rejected? <==> r[ip].count > limit)
      && (out.Rejected? ==> out.retryAfter * 1000 >= r[ip].resetTime - now > (out.retryAfter - 1) * 1000)
      && (out.Rejected? && windowMinutes >= 0 ==> out.retryAfter >= 0)
      && (out.Accepted? ==> out.limit == limit && out.remaining == limit - r[ip].count && out.remaining >= 0)
      && (out.Accepted? ==> out.resetSeconds * 1000 >= r[ip].resetTime > (out.resetSeconds - 1) * 1000)
  {
    var swept := Sweep(store, now);
    var w := if ip !in swept || now > swept[ip].resetTime
             then Window(0, now + WindowMs(windowMinutes))
             else swept[ip];
    var w' := Window(w.count + 1, w.resetTime);
    var r := swept[ip := w'];
    if w'.count > limit then
      (r, Rejected(Arith.CeilDiv(w'.resetTime - now, 1000)))
    else
      (r, Accepted(limit, limit - w'.count, Arith.CeilDiv(w'.resetTime, 1000)))
  }

  /** The outcomes of successive requests from one client at the instants
      `times`, and the store they leave behind. */
  function Requests(store: Store, ip: string, times: seq<int>, limit: int, windowMinutes: int): (Store, seq<Outcome>)
    decreases |times|
  {
    if |times| == 0 then (store, [])
    else
      var (s1, o1) := Step(store, ip, times[0], limit, windowMinutes);
      var (s2, os) := Requests(s1, ip, times[1..], limit, windowMinutes);
      (s2, [o1] + os)
  }

  /** Inside an open window that already counted `k` requests, the next
      requests are counted one by one and pass exactly while the count stays
      within the limit; the window's end does not move. */
  lemma {:induction false} WithinWindow(store: Store, ip: string, times: seq<int>, limit: int, windowMinutes: int, k: int)
    requires ip in store
    requires store[ip].count == k
    requires forall i :: 0 <= i < |times| ==> times[i] <= store[ip].resetTime
    ensures var (r, outs) := Requests(store, ip, times, limit, windowMinutes);
      && |outs| == |times|
      && ip in r && r[ip] == Window(k + |times|, store[ip].resetTime)
      && (forall i :: 0 <= i < |times| ==> (outs[i].Accepted? <==> k + i + 1 <= limit))
    decreases |times|
  {
    if |times| > 0 {
      var (s1, o1) := Step(store, ip, times[0], limit, windowMinutes);
      assert !Fresh(store, ip, times[0]);
      assert s1[ip] == Window(k + 1, store[ip].resetTime);
      WithinWindow(s1, ip, times[1..], limit, windowMinutes, k + 1);
      var (s2, os) := Requests(s1, ip, times[1..], limit, windowMinutes);
      assert Requests(store, ip, times, limit, windowMinutes).1 == [o1] + os;
    }
  }

  /** Exactly the first `limit` requests of a window pass: when a client
      without a live window sends requests, the first at `times[0]` and every
      later one no later than the end of the window it opens, the i-th
      request (counting from 0) is accepted iff i < limit. */
  lemma {:induction false} FirstLimitPass(store: Store, ip: string, times: seq<int>, limit: int, windowMinutes: int)
    requires |times| > 0
    requires Fresh(store, ip, times[0])
    requires forall i :: 0 <= i < |times| ==> times[i] <= times[0] + WindowMs(windowMinutes)
    ensures var outs := Requests(store, ip, times, limit, windowMinutes).1;
      && |outs| == |times|
      && (forall i :: 0 <= i < |times| ==> (outs[i].Accepted? <==> i < limit))
  {
    var (s1, o1) := Step(store, ip, times[0], limit, windowMinutes);
    assert s1[ip] == Window(1, times[0] + WindowMs(windowMinutes));
    var rest := times[1..];
    assert forall i :: 0 <= i < |rest| ==> rest[i] == times[i + 1];
    WithinWindow(s1, ip, rest, limit, windowMinutes, 1);
    var (s2, os) := Requests(s1, ip, rest, limit, windowMinutes);
    assert Requests(store, ip, times, limit, windowMinutes).1 == [o1] + os;
  }

  /** Sweeping twice at the same instant is sweeping once. */
  lemma SweepIdempotent(store: Store, now: int)
    ensures Sweep(Sweep(store, now), now) == Sweep(store, now)
  {
  }
}
