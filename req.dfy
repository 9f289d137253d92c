/** The engine's request-event table: one entry per device-paced transfer in
    flight, mapping its request id to whether its event is set. */
module Requests {

  type Table = map<int, bool>

  predicate IsSet(t: Table, id: int)
  {
    id in t && t[id]
  }

  /** req_transfer(id): set the event of id if id is registered. */
  function Signal(t: Table, id: int): (r: Table)
    ensures r.Keys == t.Keys
    ensures id in t ==> IsSet(r, id)
    ensures forall x :: x in t && x != id ==> r[x] == t[x]
  {
    if id in t then t[id := true] else t
  }

  /** An unregistered id: the table is left exactly as it was. */
  lemma {:induction false} SignalUnknown(t: Table, id: int)
    requires id !in t
    ensures Signal(t, id) == t
  {
  }

  /** A second request before the event is cleared has no further effect. */
  lemma {:induction false} SignalIdempotent(t: Table, id: int)
    ensures Signal(Signal(t, id), id) == Signal(t, id)
  {
  }

  /** Updating an entry twice leaves the second value. */
  lemma {:induction false} Reassign(t: Table, id: int, a: bool, b: bool)
    ensures t[id := a][id := b] == t[id := b]
  {
  }

  /** Removing an entry forgets whatever it was last set to. */
  lemma {:induction false} Unregister(t: Table, id: int, a: bool)
    ensures t[id := a] - {id} == t - {id}
  {
  }
}
