/** How device requests pace a device transfer. The engine registers a flag
    under the transfer's request id; the device sets it with req_transfer, and
    the engine, each time it gets to run, waits for the flag, clears it and
    moves one chunk. The blocking wait is modelled by a schedule of events:
    a Request is one req_transfer call by the device, a Resume is one turn of
    the engine, which moves a chunk only if the flag is set. */
module Pacing {

  datatype Event = Request | Resume

  /** The flag and the chunks still to move after the engine, starting with
      the flag `flag` and `left` chunks to move, has seen the events `evs`.
      With no chunk left the transfer is over and later events do not matter. */
  function Pace(flag: bool, left: nat, evs: seq<Event>): (r: (bool, nat))
    decreases |evs|
    ensures r.1 <= left
  {
    if left == 0 || evs == [] then (flag, left)
    else match evs[0]
      case Request => Pace(true, left, evs[1..])
      case Resume =>
        if flag then Pace(false, left - 1, evs[1..]) else Pace(flag, left, evs[1..])
  }

  /** One more event after a schedule that has not yet moved a chunk: a
      Request sets the flag; a Resume moves a chunk if the flag is set, and
      otherwise changes nothing. */
  lemma {:induction false} PaceSnoc(flag: bool, left: nat, evs: seq<Event>, e: Event)
    requires left > 0 && Pace(flag, left, evs).1 == left
    ensures Pace(flag, left, evs + [e]) ==
      if e == Request then (true, left)
      else if Pace(flag, left, evs).0 then (false, left - 1)
      else (false, left)
    decreases |evs|
  {
    if evs == [] {
      assert evs + [e] == [e] && [e][1..] == [];
    } else {
      assert (evs + [e])[0] == evs[0] && (evs + [e])[1..] == evs[1..] + [e];
      match evs[0]
      case Request =>
        PaceSnoc(true, left, evs[1..], e);
      case Resume =>
        if flag {
          assert false;
        } else {
          PaceSnoc(flag, left, evs[1..], e);
        }
    }
  }

  /** Number of req_transfer calls in a schedule. */
  function RequestCount(evs: seq<Event>): nat
    decreases |evs|
  {
    if evs == [] then 0 else (if evs[0] == Request then 1 else 0) + RequestCount(evs[1..])
  }

  /** Each chunk consumes one request: whatever the schedule, at most one chunk
      moves per request, plus one for a flag already set at the start. */
  lemma {:induction false} PaceNeedsRequests(flag: bool, left: nat, evs: seq<Event>)
    ensures Pace(flag, left, evs).1 + RequestCount(evs) + (if flag then 1 else 0) >= left
    decreases |evs|
  {
    if left > 0 && evs != [] {
      match evs[0]
      case Request => PaceNeedsRequests(true, left, evs[1..]);
      case Resume =>
        if flag {
          PaceNeedsRequests(false, left - 1, evs[1..]);
        } else {
          PaceNeedsRequests(flag, left, evs[1..]);
        }
    }
  }

  /** A transfer of n chunks, registered with a clear flag, finishes only if
      the device made at least n requests. */
  lemma {:induction false} DoneNeedsRequests(n: nat, evs: seq<Event>)
    ensures Pace(false, n, evs).1 == 0 ==> RequestCount(evs) >= n
  {
    PaceNeedsRequests(false, n, evs);
  }

  /** k rounds of the device: a request, then a turn of the engine. */
  function Rounds(k: nat): (evs: seq<Event>)
    ensures |evs| == 2 * k && RequestCount(evs) == k
  {
    if k == 0 then [] else
      var rest := Rounds(k - 1);
      assert ([Request, Resume] + rest)[1..][1..] == rest;
      [Request, Resume] + rest
  }

  /** When the engine runs between requests, every request moves a chunk: n
      chunks finish after exactly n rounds, and k < n rounds leave n - k. */
  lemma {:induction false} PaceRounds(n: nat, k: nat)
    ensures Pace(false, n, Rounds(k)) == if k >= n then (false, 0) else (false, n - k)
    decreases k
  {
    if n > 0 && k > 0 {
      var rest := Rounds(k - 1);
      assert Rounds(k)[1..] == [Resume] + rest;
      assert Rounds(k)[1..][1..] == rest;
      PaceRounds(n - 1, k - 1);
    }
  }

  /** Requests made while the flag is already set are lost: two requests
      before the engine's next turn count as one. */
  lemma {:induction false} PaceCoalesces(flag: bool, left: nat, evs: seq<Event>)
    ensures Pace(flag, left, [Request, Request] + evs) == Pace(flag, left, [Request] + evs)
  {
    if left > 0 {
      assert ([Request, Request] + evs)[1..] == [Request] + evs;
      assert ([Request] + evs)[1..] == evs;
    }
  }
}
