/** `fetchWithCache`: a time-to-live cache in front of the GitHub listing,
    held in one browser-storage slot under a fixed key. The request URL is not
    part of the key, so every URL shares the one slot. */
module Cache {
  import opened Wrappers

  /** The storage key of the single slot. */
  const CACHE_KEY := "gh_projects_cache_v1"
  /** Ten minutes, in milliseconds. */
  const CACHE_TTL_MS := 10 * 60 * 1000

  /** What the slot holds: `{timestamp, data}`. */
  datatype Entry<D> = Entry(timestamp: int, data: D)

  /** What the network does with a request: the transport fails, or a reply
      arrives with an HTTP status and a parsed body. */
  datatype Response<D> = NetworkFailure | Reply(status: int, body: D)

  /** `res.ok` */
  predicate IsOk(status: int) {
    200 <= status <= 299
  }

  datatype FetchError = ApiError(status: int) | NetworkError

  datatype Outcome<D> = Success(data: D) | Failure(error: FetchError)

  /** The slot holds an entry younger than the time to live (strict bound). */
  predicate Fresh<D>(slot: Option<Entry<D>>, now: int) {
    slot.Some? && now - slot.value.timestamp < CACHE_TTL_MS
  }

  class CacheGate<D> {
    /** The entry stored under `CACHE_KEY`, if any. */
    var slot: Option<Entry<D>>
    /** The URLs sent to the network so far, oldest first. */
    var requests: seq<string>

    /** The gate over whatever an earlier page load left in storage. */
    constructor(stored: Option<Entry<D>>)
      ensures slot == stored && requests == []
    {
      slot := stored;
      requests := [];
    }

    /** One call at clock reading `now`; `response` is what the network would
        answer if asked. */
    method FetchWithCache(url: string, now: int, response: Response<D>) returns (result: Outcome<D>)
      modifies this
      ensures Fresh(old(slot), now) ==>
                result == Success(old(slot).value.data) && slot == old(slot) && requests == old(requests)
      ensures !Fresh(old(slot), now) ==> requests == old(requests) + [url]
      ensures !Fresh(old(slot), now) && response.Reply? && IsOk(response.status) ==>
                result == Success(response.body) && slot == Some(Entry(now, response.body))
      ensures !Fresh(old(slot), now) && response.Reply? && !IsOk(response.status) ==>
                result == Failure(ApiError(response.status)) && slot == old(slot)
      ensures !Fresh(old(slot), now) && response.NetworkFailure? ==>
                result == Failure(NetworkError) && slot == old(slot)
    {
      if slot.Some? && now - slot.value.timestamp < CACHE_TTL_MS {
        return Success(slot.value.data);
      }
      requests := requests + [url];
      match response
      case NetworkFailure =>
        return Failure(NetworkError);
      case Reply(status, body) =>
        if !IsOk(status) {
          return Failure(ApiError(status));
        }
        slot := Some(Entry(now, body));
        return Success(body);
    }
  }

  /** Two calls on a page load that starts with empty storage. Within the time
      to live the second call is answered from the slot with the first call's
      data, even for a different URL, and only one request goes out; once the
      time to live has passed, or when the first call failed, the second call
      goes to the network again. */
  method TwoFetches<D>(url1: string, url2: string, t1: int, t2: int, first: Response<D>, second: Response<D>)
    returns (r1: Outcome<D>, r2: Outcome<D>, networkCalls: nat)
    ensures first.Reply? && IsOk(first.status) && t2 - t1 < CACHE_TTL_MS ==>
              r1 == Success(first.body) && r2 == r1 && networkCalls == 1
    ensures first.Reply? && IsOk(first.status) && t2 - t1 >= CACHE_TTL_MS ==>
              r1 == Success(first.body) && networkCalls == 2
    ensures !(first.Reply? && IsOk(first.status)) ==> r1.Failure? && networkCalls == 2
  {
    var gate := new CacheGate<D>(None);
    r1 := gate.FetchWithCache(url1, t1, first);
    r2 := gate.FetchWithCache(url2, t2, second);
    networkCalls := |gate.requests|;
  }
}
