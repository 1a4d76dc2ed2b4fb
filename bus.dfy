/**
 * EventBus: a map from event type to the list of listeners registered for
 * it. Calls of `process_event` on a listener are recorded, in order, in
 * `delivered`.
 */
module Bus {

  datatype Event = Event(eventType: string, payload: string)

  /** Occurrences of `t` in `ts`. */
  function Count(ts: seq<string>, t: string): nat {
    if ts == [] then 0 else Count(ts[..|ts| - 1], t) + (if ts[|ts| - 1] == t then 1 else 0)
  }

  function Repeat<L>(l: L, n: nat): (r: seq<L>)
    ensures |r| == n && forall i | 0 <= i < n :: r[i] == l
  {
    if n == 0 then [] else Repeat(l, n - 1) + [l]
  }

  /** The map after `add_processor(l, ts)`. */
  function Appended<L>(m: map<string, seq<L>>, l: L, ts: seq<string>): map<string, seq<L>> {
    if ts == [] then m
    else
      var m0 := Appended(m, l, ts[..|ts| - 1]);
      var t := ts[|ts| - 1];
      m0[t := (if t in m0 then m0[t] else []) + [l]]
  }

  /** `list.remove(x)`: drops the first occurrence of `x`. */
  function RemoveFirst<L(==)>(s: seq<L>, x: L): seq<L> {
    if s == [] then []
    else if s[0] == x then s[1..]
    else [s[0]] + RemoveFirst(s[1..], x)
  }

  /** The map after `remove_processor(l, ts)`. */
  function Removed<L(==)>(m: map<string, seq<L>>, l: L, ts: seq<string>): map<string, seq<L>> {
    if ts == [] then m
    else
      var m0 := Removed(m, l, ts[..|ts| - 1]);
      var t := ts[|ts| - 1];
      if t in m0 && l in m0[t] then m0[t := RemoveFirst(m0[t], l)] else m0
  }

  /** The `process_event` calls made for `event` by the listeners `ps`. */
  function Deliveries<L>(ps: seq<L>, event: Event): seq<(L, Event)> {
    if ps == [] then [] else Deliveries(ps[..|ps| - 1], event) + [(ps[|ps| - 1], event)]
  }

  lemma {:induction false} CountAbsent(ts: seq<string>, t: string)
    requires t !in ts
    ensures Count(ts, t) == 0
  {
    if ts != [] {
      CountAbsent(ts[..|ts| - 1], t);
    }
  }

  /**
   * After `add_processor(l, ts)` each listed type's list is its old list (or a
   * fresh empty one) followed by one copy of `l` per time the type is
   * listed; other types are untouched.
   */
  lemma {:induction false} AppendedAt<L>(m: map<string, seq<L>>, l: L, ts: seq<string>, t: string)
    ensures t in Appended(m, l, ts) <==> t in m || t in ts
    ensures t in ts ==> Appended(m, l, ts)[t] == (if t in m then m[t] else []) + Repeat(l, Count(ts, t))
    ensures t !in ts && t in m ==> Appended(m, l, ts)[t] == m[t]
  {
    if ts != [] {
      var init, last := ts[..|ts| - 1], ts[|ts| - 1];
      AppendedAt(m, l, init, t);
      assert ts == init + [last];
      assert t in ts <==> t in init || t == last;
      if t == last {
        var old0 := if t in m then m[t] else [];
        if t in init {
          assert Repeat(l, Count(ts, t)) == Repeat(l, Count(init, t)) + [l];
        } else {
          CountAbsent(init, t);
          assert Repeat(l, Count(ts, t)) == [l];
        }
      }
    }
  }

  /** Adding the same listener twice keeps both entries. */
  lemma AddTwiceKeepsBoth<L>(m: map<string, seq<L>>, l: L, t: string)
    requires t !in m
    ensures Appended(Appended(m, l, [t]), l, [t])[t] == [l, l]
  {
    assert [t][..0] == [];
  }

  /** Position of the first occurrence of `x`. */
  function IndexOf<L(==)>(s: seq<L>, x: L): (k: nat)
    requires x in s
    ensures k < |s| && s[k] == x && x !in s[..k]
  {
    if s[0] == x then 0
    else
      assert x in s[1..] by { assert s == [s[0]] + s[1..]; }
      var k := 1 + IndexOf(s[1..], x);
      assert s[..k] == [s[0]] + s[1..][..k - 1];
      k
  }

  /** `list.remove` drops exactly the first occurrence, and nothing for an absent element. */
  lemma {:induction false} RemoveFirstSpec<L>(s: seq<L>, x: L)
    ensures x !in s ==> RemoveFirst(s, x) == s
    ensures x in s ==> RemoveFirst(s, x) == s[..IndexOf(s, x)] + s[IndexOf(s, x) + 1..]
  {
    if s != [] {
      RemoveFirstSpec(s[1..], x);
      if s[0] != x {
        assert s == [s[0]] + s[1..];
        if x in s {
          var k := IndexOf(s[1..], x);
          assert IndexOf(s, x) == k + 1;
          assert s[..k + 1] == [s[0]] + s[1..][..k];
          assert s[k + 2..] == s[1..][k + 1..];
        }
      }
    }
  }

  /** `remove_processor` touches only the listed types, and never creates one. */
  lemma {:induction false} RemovedFrame<L>(m: map<string, seq<L>>, l: L, ts: seq<string>, t: string)
    ensures t in Removed(m, l, ts) <==> t in m
    ensures t !in ts && t in m ==> Removed(m, l, ts)[t] == m[t]
  {
    if ts != [] {
      RemovedFrame(m, l, ts[..|ts| - 1], t);
      assert t !in ts ==> t !in ts[..|ts| - 1] && t != ts[|ts| - 1];
    }
  }

  /** `process` makes one call per registered entry, in registration order. */
  lemma {:induction false} DeliveriesShape<L>(ps: seq<L>, event: Event)
    ensures |Deliveries(ps, event)| == |ps|
    ensures forall i | 0 <= i < |ps| :: Deliveries(ps, event)[i] == (ps[i], event)
  {
    if ps != [] {
      DeliveriesShape(ps[..|ps| - 1], event);
    }
  }

  class EventBus<L(==)> {
    /** `processors_map` */
    var processorsMap: map<string, seq<L>>
    var delivered: seq<(L, Event)>

    constructor ()
      ensures processorsMap == map[] && delivered == []
    {
      processorsMap, delivered := map[], [];
    }

    method AddProcessor(listener: L, eventTypes: seq<string>)
      modifies this
      ensures processorsMap == Appended(old(processorsMap), listener, eventTypes)
      ensures delivered == old(delivered)
    {
      var i := 0;
      while i < |eventTypes|
        invariant 0 <= i <= |eventTypes|
        invariant processorsMap == Appended(old(processorsMap), listener, eventTypes[..i])
        invariant delivered == old(delivered)
      {
        var t := eventTypes[i];
        if t !in processorsMap {
          processorsMap := processorsMap[t := []];
        }
        processorsMap := processorsMap[t := processorsMap[t] + [listener]];
        assert eventTypes[..i + 1][..i] == eventTypes[..i];
        i := i + 1;
      }
      assert eventTypes[..i] == eventTypes;
    }

    method RemoveProcessor(listener: L, eventTypes: seq<string>)
      modifies this
      ensures processorsMap == Removed(old(processorsMap), listener, eventTypes)
      ensures delivered == old(delivered)
    {
      var i := 0;
      while i < |eventTypes|
        invariant 0 <= i <= |eventTypes|
        invariant processorsMap == Removed(old(processorsMap), listener, eventTypes[..i])
        invariant delivered == old(delivered)
      {
        var t := eventTypes[i];
        if t in processorsMap && listener in processorsMap[t] {
          processorsMap := processorsMap[t := RemoveFirst(processorsMap[t], listener)];
        }
        assert eventTypes[..i + 1][..i] == eventTypes[..i];
        i := i + 1;
      }
      assert eventTypes[..i] == eventTypes;
    }

    method Process(event: Event)
      modifies this
      ensures processorsMap == old(processorsMap)
      ensures delivered == old(delivered) +
                (if event.eventType in processorsMap then Deliveries(processorsMap[event.eventType], event) else [])
    {
      if event.eventType !in processorsMap {
        return;
      }
      var ps := processorsMap[event.eventType];
      var i := 0;
      while i < |ps|
        invariant 0 <= i <= |ps|
        invariant processorsMap == old(processorsMap)
        invariant delivered == old(delivered) + Deliveries(ps[..i], event)
      {
        delivered := delivered + [(ps[i], event)];
        assert ps[..i + 1][..i] == ps[..i];
        i := i + 1;
      }
      assert ps[..i] == ps;
    }
  }
}
