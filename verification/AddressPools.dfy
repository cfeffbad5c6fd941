/**
 Service slots: pools, all-or-nothing booking, and the cap on jobs in flight
 (src/runtime/alpasim_runtime/address_pool.py and runtime_context.py).

 A dict of pools is a map; its iteration order is a sequence of names.
 */
module AddressPools {
  import opened Wrappers

  datatype Slot = Slot(address: string, skip: bool)

  const SKIP_SLOT := Slot("skip", true)

  /** The state of one pool; `capacity` is the number of slots it was created with. */
  datatype Pool = Pool(skip: bool, slots: seq<Slot>, capacity: nat)

  type Pools = map<string, Pool>
  type Booking = map<string, Slot>

  // ----- one pool

  function Repeat(x: Slot, n: int): seq<Slot> {
    if n <= 0 then [] else seq(n, _ => x)
  }

  function Configured(addresses: seq<string>, n: int): seq<Slot> {
    if |addresses| == 0 then [] else Repeat(Slot(addresses[0], false), n) + Configured(addresses[1..], n)
  }

  function AllOf(addresses: seq<string>): set<string> {
    set a | a in addresses
  }

  /** As many slots as addresses times slots of each, in the order of the addresses. */
  lemma {:induction false} ConfiguredIs(addresses: seq<string>, n: int, i: nat)
    ensures n <= 0 ==> Configured(addresses, n) == []
    ensures n > 0 ==> |Configured(addresses, n)| == |addresses| * n
    ensures n > 0 && i < |addresses| * n ==>
              i / n < |addresses| && Configured(addresses, n)[i] == Slot(addresses[i / n], false)
  {
    if |addresses| > 0 {
      ConfiguredIs(addresses[1..], n, if i >= n then i - n else 0);
      if n > 0 {
        OneFewer(|addresses|, n, i);
      }
    }
  }

  lemma OneFewer(k: int, n: int, i: nat)
    requires k > 0 && n > 0
    ensures k * n == (k - 1) * n + n
    ensures i < n ==> i / n == 0
    ensures i >= n ==> i / n == (i - n) / n + 1
  {
    if i >= n {
      assert i == (i - n) + n;
      assert (i - n) == n * ((i - n) / n) + (i - n) % n;
      assert i == n * ((i - n) / n + 1) + (i - n) % n;
      QuotientIs(i, n, (i - n) / n + 1, (i - n) % n);
    }
  }

  lemma ConfiguredStep(before: seq<Slot>, addresses: seq<string>, i: nat, n: int)
    requires i < |addresses|
    ensures before + Configured(addresses[i..], n)
            == before + Repeat(Slot(addresses[i], false), n) + Configured(addresses[i + 1..], n)
  {
    hide Repeat;
    assert addresses[i..][1..] == addresses[i + 1..];
  }

  lemma ConfiguredEnd(addresses: seq<string>, n: int)
    ensures Configured(addresses[|addresses|..], n) == []
  {
  }

  function Acquired(p: Pool): (r: (Option<Slot>, Pool)) {
    if p.skip then (Some(SKIP_SLOT), p)
    else if |p.slots| == 0 then (None, p)
    else (Some(p.slots[0]), p.(slots := p.slots[1..]))
  }

  function Released(p: Pool, slot: Slot): Pool {
    if p.skip then p else p.(slots := p.slots + [slot])
  }

  /**
   * A limiting pool is a queue: slots are taken from its front and given back at its end; a skip pool never
   * changes.
   */
  lemma PoolIsQueue(p: Pool, slot: Slot)
    ensures var (taken, q) := Acquired(p);
            if p.skip then taken == Some(Slot("skip", true)) && q == p && Released(p, slot) == p
            else
              && (taken.None? <==> p.slots == []) && (taken.None? ==> q == p)
              && (taken.Some? ==> p.slots == [taken.value] + q.slots && q == p.(slots := q.slots))
              && Released(p, slot) == p.(slots := p.slots + [slot])
  {
  }

  /** The first free slot at `address`. */
  function IndexOf(slots: seq<Slot>, address: string): (i: nat)
    ensures i <= |slots|
    ensures i < |slots| ==> slots[i].address == address
    ensures forall k :: 0 <= k < i ==> slots[k].address != address
  {
    if |slots| == 0 || slots[0].address == address then 0 else 1 + IndexOf(slots[1..], address)
  }

  function AcquiredAt(p: Pool, address: string): (Option<Slot>, Pool) {
    var i := IndexOf(p.slots, address);
    if p.skip then (Some(SKIP_SLOT), p)
    else if i == |p.slots| then (None, p)
    else (Some(p.slots[i]), p.(slots := p.slots[..i] + p.slots[i + 1..]))
  }

  lemma AcquiredAtTakesOne(p: Pool, address: string)
    requires !p.skip
    ensures var (slot, q) := AcquiredAt(p, address);
            && (slot.Some? <==> exists k :: 0 <= k < |p.slots| && p.slots[k].address == address)
            && (slot.None? ==> q == p)
            && (slot.Some? ==>
                  && slot.value.address == address && multiset(p.slots) == multiset(q.slots) + multiset{slot.value}
                  && q == p.(slots := q.slots)
                  && exists i :: 0 <= i <= |q.slots| && IsFirstAt(p.slots, q.slots, slot.value, i))
  {
    var i := IndexOf(p.slots, address);
    if i < |p.slots| {
      assert p.slots == p.slots[..i] + [p.slots[i]] + p.slots[i + 1..];
      assert IsFirstAt(p.slots, AcquiredAt(p, address).1.slots, p.slots[i], i);
    }
  }

  /** Taking `slot` out of `before`, where it is the first at its address, leaves `after`, in order. */
  ghost predicate IsFirstAt(before: seq<Slot>, after: seq<Slot>, slot: Slot, i: int) {
    && 0 <= i <= |after| && before == after[..i] + [slot] + after[i..]
    && forall k :: 0 <= k < i ==> before[k].address != slot.address
  }

  // ----- all pools at once

  function ReleasedAll(ps: Pools, b: Booking): (r: Pools)
    ensures r.Keys == ps.Keys
  {
    map n | n in ps :: if n in b then Released(ps[n], b[n]) else ps[n]
  }

  /** `try_acquire_all` from a point where `b` is already booked; on failure everything booked goes back. */
  function BookedAll(ps: Pools, names: seq<string>, b: Booking): (r: (Pools, Option<Booking>))
    requires forall n :: n in names ==> n in ps
    ensures r.0.Keys == ps.Keys
  {
    if |names| == 0 then (ps, Some(b))
    else
      var n := names[0];
      if n in b then BookedAll(ps, names[1..], b)
      else
        var (slot, p) := Acquired(ps[n]);
        match slot
        case None => (ReleasedAll(ps, b), None)
        case Some(s) => BookedAll(ps[n := p], names[1..], b[n := s])
  }

  predicate HasFree(p: Pool) {
    p.skip || |p.slots| > 0
  }

  /** A booking takes the first slot of every pool not yet booked, and succeeds exactly when all of them have one. */
  lemma {:induction false} BookingOutcome(ps: Pools, names: seq<string>, b: Booking)
    requires forall n :: n in names ==> n in ps
    ensures var (qs, r) := BookedAll(ps, names, b);
            && (r.Some? <==> forall n :: n in names && n !in b ==> HasFree(ps[n]))
            && (r.Some? ==>
                  && r.value.Keys == b.Keys + (set n | n in names)
                  && (forall n :: n in b ==> r.value[n] == b[n])
                  && (forall n :: n in ps && (n in b || n !in names) ==> qs[n] == ps[n])
                  && (forall n :: n in names && n !in b ==> (Some(r.value[n]), qs[n]) == Acquired(ps[n])))
  {
    if |names| > 0 {
      var n := names[0];
      if n in b {
        BookingOutcome(ps, names[1..], b);
      } else if HasFree(ps[n]) {
        var (slot, p) := Acquired(ps[n]);
        BookingOutcome(ps[n := p], names[1..], b[n := slot.value]);
      }
    }
  }

  ghost predicate SameSlots(p: Pool, q: Pool, extra: multiset<Slot>) {
    && q.skip == p.skip && q.capacity == p.capacity
    && if p.skip then q == p else multiset(q.slots) == multiset(p.slots) + extra
  }

  ghost function InBooking(b: Booking, n: string): multiset<Slot> {
    if n in b then multiset{b[n]} else multiset{}
  }

  /** A failed booking leaves every pool with its slots, plus the slot that was booked in it beforehand. */
  lemma {:induction false} FailureReturnsEverything(ps: Pools, names: seq<string>, b: Booking, n: string)
    requires (forall m :: m in names ==> m in ps) && n in ps && BookedAll(ps, names, b).1.None?
    ensures SameSlots(ps[n], BookedAll(ps, names, b).0[n], InBooking(b, n))
  {
    if |names| > 0 {
      var m := names[0];
      if m in b {
        FailureReturnsEverything(ps, names[1..], b, n);
      } else if HasFree(ps[m]) {
        var (slot, p) := Acquired(ps[m]);
        FailureReturnsEverything(ps[m := p], names[1..], b[m := slot.value], n);
        if n == m && !p.skip {
          assert ps[m].slots == [slot.value] + p.slots;
        }
      }
    }
  }

  // ----- every run of the scheduler

  /** The services a job needs, in the order they are booked. */
  function Services(): (names: seq<string>)
    ensures "renderer" in names
  {
    ["driver", "physics", "trafficsim", "controller", "renderer"]
  }

  /** The pools and the bookings of the jobs in flight. */
  datatype World = World(pools: Pools, jobs: seq<Booking>)

  /** How the renderer slot is chosen before the rest is booked: not at all, first in line, or at one address. */
  datatype Reservation = Unreserved | FirstFree | At(address: string)

  datatype Event = Dispatch(reservation: Reservation) | Finish(job: nat)

  ghost predicate ForServices(ps: Pools) {
    forall n :: n in ps <==> n in Services()
  }

  function Reserved(ps: Pools, r: Reservation): (Option<Slot>, Pool)
    requires "renderer" in ps
  {
    match r
    case Unreserved => (None, ps["renderer"])
    case FirstFree => Acquired(ps["renderer"])
    case At(address) => AcquiredAt(ps["renderer"], address)
  }

  function Dispatched(w: World, r: Reservation): (v: World)
    requires ForServices(w.pools)
    ensures ForServices(v.pools)
  {
    var (slot, renderer) := Reserved(w.pools, r);
    if slot.None? && !r.Unreserved? then w
    else
      var first: Booking := if slot.Some? then map["renderer" := slot.value] else map[];
      var (ps, booking) := BookedAll(w.pools["renderer" := renderer], Services(), first);
      World(ps, w.jobs + if booking.Some? then [booking.value] else [])
  }

  function After(w: World, e: Event): (v: World)
    requires ForServices(w.pools)
    ensures ForServices(v.pools)
  {
    match e
    case Dispatch(r) => Dispatched(w, r)
    case Finish(i) =>
      if i < |w.jobs| then World(ReleasedAll(w.pools, w.jobs[i]), w.jobs[..i] + w.jobs[i + 1..]) else w
  }

  function RunOf(w: World, events: seq<Event>): (v: World)
    requires ForServices(w.pools)
    ensures ForServices(v.pools)
    decreases |events|
  {
    if |events| == 0 then w else RunOf(After(w, events[0]), events[1..])
  }

  /** The slots of pool `n` that the jobs hold. */
  ghost function Held(jobs: seq<Booking>, n: string): (h: multiset<Slot>)
    ensures (forall b :: b in jobs ==> n in b) ==> |h| == |jobs|
  {
    if |jobs| == 0 then multiset{} else InBooking(jobs[0], n) + Held(jobs[1..], n)
  }

  /** Every pool is as it was configured, minus what the jobs hold of it. */
  ghost predicate Conserved(config: Pools, w: World) {
    && ForServices(config) && ForServices(w.pools)
    && (forall n :: n in config ==> SameSlots(w.pools[n], config[n], Held(w.jobs, n)))
    && (forall b :: b in w.jobs ==> b.Keys == config.Keys)
  }

  lemma {:induction false} HeldAppend(jobs: seq<Booking>, more: seq<Booking>, n: string)
    ensures Held(jobs + more, n) == Held(jobs, n) + Held(more, n)
  {
    if |jobs| == 0 {
      assert jobs + more == more;
    } else {
      assert (jobs + more)[1..] == jobs[1..] + more;
      HeldAppend(jobs[1..], more, n);
    }
  }

  lemma HeldRemove(jobs: seq<Booking>, i: nat, n: string)
    requires i < |jobs|
    ensures Held(jobs, n) == Held(jobs[..i] + jobs[i + 1..], n) + InBooking(jobs[i], n)
  {
    assert jobs == jobs[..i] + jobs[i..];
    HeldAppend(jobs[..i], jobs[i..], n);
    HeldAppend(jobs[..i], jobs[i + 1..], n);
  }

  lemma AcquiredTakes(p: Pool)
    requires HasFree(p)
    ensures var (slot, q) := Acquired(p); slot.Some? && SameSlots(q, p, multiset{slot.value})
  {
    if !p.skip {
      assert p.slots == [p.slots[0]] + p.slots[1..];
    }
  }

  /** What a reservation takes out of the renderer pool is in the reserved slot. */
  lemma ReservedTakes(ps: Pools, r: Reservation)
    requires "renderer" in ps
    ensures var (slot, p) := Reserved(ps, r);
            && SameSlots(p, ps["renderer"], if slot.Some? then multiset{slot.value} else multiset{})
            && (slot.None? ==> p == ps["renderer"])
  {
    var p := ps["renderer"];
    match r
    case Unreserved =>
    case FirstFree =>
      if HasFree(p) {
        AcquiredTakes(p);
      }
    case At(address) =>
      if !p.skip {
        AcquiredAtTakesOne(p, address);
      }
  }

  /** A successful booking holds exactly what left the pools. */
  lemma BookingTakes(ps: Pools, names: seq<string>, b: Booking, n: string)
    requires (forall m :: m in names ==> m in ps) && n in names && BookedAll(ps, names, b).1.Some?
    ensures var (qs, r) := BookedAll(ps, names, b);
            && n in r.value
            && if n in b then qs[n] == ps[n] && r.value[n] == b[n] else SameSlots(qs[n], ps[n], multiset{r.value[n]})
  {
    hide Acquired, BookedAll, SameSlots;
    BookingOutcome(ps, names, b);
    if n !in b {
      AcquiredTakes(ps[n]);
    }
  }

  lemma Chain(q: Pool, p: Pool, config: Pool, more: multiset<Slot>, held: multiset<Slot>)
    requires SameSlots(q, p, more) && SameSlots(p, config, held)
    ensures SameSlots(q, config, held + more)
  {
  }

  lemma PutBack(q: Pool, p: Pool, back: Pool, taken: multiset<Slot>)
    requires SameSlots(q, p, taken) && SameSlots(q, back, taken)
    ensures SameSlots(back, p, multiset{})
  {
  }

  lemma Untouched(p: Pool)
    ensures SameSlots(p, p, multiset{})
  {
  }

  /** What one booking attempt does to pool `n`: it takes the booked slot, or nothing at all. */
  lemma BookingBalance(before: Pools, ps: Pools, b: Booking, n: string)
    requires ForServices(before) && ForServices(ps) && n in ps && b.Keys <= {"renderer"}
    requires SameSlots(ps[n], before[n], InBooking(b, n)) && (n !in b ==> ps[n] == before[n])
    ensures var (qs, r) := BookedAll(ps, Services(), b);
            SameSlots(qs[n], before[n], if r.Some? then InBooking(r.value, n) else multiset{})
    ensures var (qs, r) := BookedAll(ps, Services(), b); r.Some? ==> r.value.Keys == ps.Keys
  {
    hide Acquired, AcquiredAt, BookedAll, SameSlots;
    var (qs, r) := BookedAll(ps, Services(), b);
    if r.None? {
      FailureReturnsEverything(ps, Services(), b, n);
      PutBack(ps[n], before[n], qs[n], InBooking(b, n));
    } else {
      BookingTakes(ps, Services(), b, n);
      BookingOutcome(ps, Services(), b);
    }
  }

  lemma HeldMore(jobs: seq<Booking>, more: Option<Booking>, n: string)
    ensures Held(jobs + (if more.Some? then [more.value] else []), n)
            == Held(jobs, n) + if more.Some? then InBooking(more.value, n) else multiset{}
  {
    hide InBooking;
    HeldAppend(jobs, if more.Some? then [more.value] else [], n);
  }

  /** One pool through a booking, given what was reserved of it. */
  lemma PoolKeeps(config: Pool, w: World, ps: Pools, b: Booking, n: string)
    requires ForServices(w.pools) && ForServices(ps) && n in ps && b.Keys <= {"renderer"}
    requires SameSlots(ps[n], w.pools[n], InBooking(b, n)) && (n !in b ==> ps[n] == w.pools[n])
    requires SameSlots(w.pools[n], config, Held(w.jobs, n))
    ensures var (qs, booking) := BookedAll(ps, Services(), b);
            && SameSlots(qs[n], config, Held(w.jobs + (if booking.Some? then [booking.value] else []), n))
            && (booking.Some? ==> booking.value.Keys == ps.Keys)
  {
    hide Acquired, BookedAll, SameSlots, Held, InBooking;
    var (qs, booking) := BookedAll(ps, Services(), b);
    BookingBalance(w.pools, ps, b, n);
    HeldMore(w.jobs, booking, n);
    var taken := if booking.Some? then InBooking(booking.value, n) else multiset{};
    Chain(qs[n], w.pools[n], config, taken, Held(w.jobs, n));
  }

  /** Dispatching a job, or failing to, balances every pool. */
  lemma DispatchKeeps(config: Pools, w: World, r: Reservation)
    requires Conserved(config, w)
    ensures Conserved(config, Dispatched(w, r))
  {
    hide Acquired, AcquiredAt, BookedAll, SameSlots, Reserved, Held;
    var (slot, renderer) := Reserved(w.pools, r);
    ReservedTakes(w.pools, r);
    if slot.Some? || r.Unreserved? {
      var ps := w.pools["renderer" := renderer];
      var b: Booking := if slot.Some? then map["renderer" := slot.value] else map[];
      forall n | n in config
        ensures var (qs, booking) := BookedAll(ps, Services(), b);
                && SameSlots(qs[n], config[n], Held(w.jobs + (if booking.Some? then [booking.value] else []), n))
                && (booking.Some? ==> booking.value.Keys == config.Keys)
      {
        Untouched(w.pools[n]);
        PoolKeeps(config[n], w, ps, b, n);
      }
      assert "renderer" in config;
    }
  }

  lemma ReleaseGivesBack(p: Pool, config: Pool, slot: Slot, held: multiset<Slot>)
    requires SameSlots(p, config, held + multiset{slot})
    ensures SameSlots(Released(p, slot), config, held)
  {
    if !p.skip {
      assert multiset(p.slots + [slot]) == multiset(p.slots) + multiset{slot};
    }
  }

  /** A finished job gives every pool its slot back. */
  lemma FinishKeeps(config: Pools, w: World, i: nat)
    requires Conserved(config, w)
    ensures Conserved(config, After(w, Finish(i)))
  {
    hide Held, SameSlots, Released, Services;
    if i < |w.jobs| {
      var v, done := After(w, Finish(i)), w.jobs[i];
      assert done.Keys == config.Keys;
      forall n | n in config
        ensures SameSlots(v.pools[n], config[n], Held(v.jobs, n))
      {
        HeldRemove(w.jobs, i, n);
        assert n in done.Keys;
        ReleaseGivesBack(w.pools[n], config[n], done[n], Held(v.jobs, n));
      }
    }
  }

  /** After any run, each pool's free slots and the slots jobs hold are together the slots it started with. */
  lemma {:induction false} RunConserves(config: Pools, w: World, events: seq<Event>)
    requires Conserved(config, w)
    ensures Conserved(config, RunOf(w, events))
    decreases |events|
  {
    hide SameSlots, Held, Services, Dispatched;
    if |events| > 0 {
      match events[0] {
        case Dispatch(r) => DispatchKeeps(config, w, r);
        case Finish(i) => FinishKeeps(config, w, i);
      }
      RunConserves(config, After(w, events[0]), events[1..]);
    }
  }

  // ----- the cap on jobs in flight

  const ALL_SKIP_PER_WORKER_CONCURRENCY := 16

  /** `total_capacity`: none for a skip pool, which limits nothing. */
  function TotalCapacity(p: Pool): Option<nat> {
    if p.skip then None else Some(p.capacity)
  }

  datatype CapError = ZeroCapacity(service: string)

  function FirstEmpty(ps: Pools, names: seq<string>): (r: Option<string>)
    requires forall n :: n in names ==> n in ps
    ensures r.Some? ==> r.value in names && TotalCapacity(ps[r.value]) == Some(0)
    ensures r.None? ==> forall n :: n in names ==> TotalCapacity(ps[n]) != Some(0)
  {
    if |names| == 0 then None
    else if TotalCapacity(ps[names[0]]) == Some(0) then Some(names[0])
    else FirstEmpty(ps, names[1..])
  }

  /** The smallest capacity of the limiting pools, if there is one. */
  function SmallestCap(ps: Pools, names: seq<string>): (r: Option<nat>)
    requires forall n :: n in names ==> n in ps
    ensures r.Some? <==> exists n :: n in names && !ps[n].skip
    ensures r.Some? ==> exists n :: n in names && TotalCapacity(ps[n]) == r
    ensures r.Some? ==> forall n :: n in names && !ps[n].skip ==> r.value <= ps[n].capacity
  {
    if |names| == 0 then None
    else
      var rest := SmallestCap(ps, names[1..]);
      match TotalCapacity(ps[names[0]])
      case None => rest
      case Some(c) => if rest.Some? && rest.value < c then rest else Some(c)
  }

  /**
   * The smallest capacity of the limiting pools, or 16 jobs a worker without one; a service without capacity
   * is an error.
   */
  function ComputeMaxInFlight(ps: Pools, workers: int): (r: Result<int, CapError>)
    requires ForServices(ps)
    ensures r.Ok? <==> forall n :: n in Services() ==> ps[n].skip || ps[n].capacity > 0
    ensures r.Err? ==> r.error.service in Services() && !ps[r.error.service].skip && ps[r.error.service].capacity == 0
    ensures r.Ok? ==> r.value >= 1 && forall n :: n in Services() && !ps[n].skip ==> r.value <= ps[n].capacity
    ensures r.Ok? ==>
              || (exists n :: n in Services() && !ps[n].skip && ps[n].capacity == r.value)
              || ((forall n :: n in Services() ==> ps[n].skip)
                  && r.value == if workers >= 1 then workers * 16 else 1)
  {
    hide Services;
    match FirstEmpty(ps, Services())
    case Some(n) => Err(ZeroCapacity(n))
    case None =>
      match SmallestCap(ps, Services())
      case Some(c) => Ok(c)
      case None =>
        Ok(if workers * ALL_SKIP_PER_WORKER_CONCURRENCY > 1 then workers * ALL_SKIP_PER_WORKER_CONCURRENCY else 1)
  }

  ghost predicate Full(ps: Pools) {
    forall n :: n in ps && !ps[n].skip ==> |ps[n].slots| == ps[n].capacity
  }

  /** With `k` jobs in flight, a limiting pool has its capacity less `k` slots free. */
  lemma FreeSlots(config: Pools, w: World, n: string)
    requires Conserved(config, w) && Full(config) && n in config && !config[n].skip
    ensures |w.pools[n].slots| + |w.jobs| == config[n].capacity
  {
    hide Held;
    assert forall b :: b in w.jobs ==> n in b.Keys;
    assert |multiset(config[n].slots)| == |multiset(w.pools[n].slots)| + |Held(w.jobs, n)|;
  }

  /** Whether a renderer slot could be reserved, or none was asked for. */
  predicate CanReserve(ps: Pools, r: Reservation)
    requires "renderer" in ps
  {
    r.Unreserved? || Reserved(ps, r).0.Some?
  }

  /** The five services that every job gets a slot of. */
  lemma ServicesAre(n: string)
    ensures n in Services() <==>
            n == "driver" || n == "physics" || n == "trafficsim" || n == "controller" || n == "renderer"
  {
  }

  /**
   * A dispatched job is added at the end and holds one slot of every service: the first of each queue, but the
   * reserved one of the renderer, which is at its address if one was asked for.
   */
  lemma DispatchTakes(w: World, r: Reservation)
    requires ForServices(w.pools) && |Dispatched(w, r).jobs| > |w.jobs|
    ensures var v := Dispatched(w, r);
            && |v.jobs| == |w.jobs| + 1 && v.jobs[..|w.jobs|] == w.jobs
            && var job := v.jobs[|w.jobs|];
               && (forall n :: n in job <==> n in Services())
               && (forall n :: n in Services() && (n != "renderer" || !r.At?) ==>
                     (Some(job[n]), v.pools[n]) == Acquired(w.pools[n]))
               && (r.At? ==> (Some(job["renderer"]), v.pools["renderer"]) == AcquiredAt(w.pools["renderer"], r.address))
  {
    hide Services, BookedAll, HasFree, Acquired, AcquiredAt;
    var (slot, renderer) := Reserved(w.pools, r);
    var ps := w.pools["renderer" := renderer];
    var b: Booking := if slot.Some? then map["renderer" := slot.value] else map[];
    BookingOutcome(ps, Services(), b);
    assert forall n :: n in Services() && n !in b ==> ps[n] == w.pools[n];
    assert Dispatched(w, r).jobs[..|w.jobs|] == w.jobs;
  }

  /** A finished job leaves the list, and each of its slots goes to the end of its queue. */
  lemma FinishReturns(w: World, i: nat, n: string)
    requires ForServices(w.pools) && i < |w.jobs| && n in w.pools
    ensures var v, job := After(w, Finish(i)), w.jobs[i];
            && v.jobs == w.jobs[..i] + w.jobs[i + 1..]
            && v.pools[n] == if n in job && !w.pools[n].skip then w.pools[n].(slots := w.pools[n].slots + [job[n]])
                             else w.pools[n]
  {
  }

  /** A job is dispatched exactly when its renderer slot can be reserved and every other pool has a slot. */
  lemma DispatchOutcome(w: World, r: Reservation)
    requires ForServices(w.pools)
    ensures var dispatched :=
              && CanReserve(w.pools, r)
              && forall n :: n in Services() && (n != "renderer" || r.Unreserved?) ==> HasFree(w.pools[n]);
            && |Dispatched(w, r).jobs| == |w.jobs| + (if dispatched then 1 else 0)
            && (!dispatched ==> Dispatched(w, r).jobs == w.jobs)
  {
    hide Services, BookedAll, HasFree, Acquired, AcquiredAt;
    var (slot, renderer) := Reserved(w.pools, r);
    if CanReserve(w.pools, r) {
      var ps := w.pools["renderer" := renderer];
      var b: Booking := if slot.Some? then map["renderer" := slot.value] else map[];
      BookingOutcome(ps, Services(), b);
      assert forall n :: n in Services() && n !in b ==> ps[n] == w.pools[n];
      assert forall n :: n !in b <==> n != "renderer" || r.Unreserved?;
    }
  }

  /** Below the cap no booking fails: a job is dispatched exactly when its renderer slot can be reserved. */
  lemma NeverFailsBelowCap(config: Pools, w: World, workers: int, r: Reservation)
    requires Conserved(config, w) && Full(config)
    requires var cap := ComputeMaxInFlight(config, workers); cap.Ok? && |w.jobs| < cap.value
    ensures |Dispatched(w, r).jobs| == |w.jobs| + if CanReserve(w.pools, r) then 1 else 0
    ensures !r.At? ==> CanReserve(w.pools, r)
  {
    hide Services, Held, BookedAll, SmallestCap, FirstEmpty, Dispatched, SameSlots;
    forall n | n in config
      ensures HasFree(w.pools[n])
    {
      PoolOf(config, w, n);
      if !config[n].skip {
        FreeSlots(config, w, n);
      }
    }
    DispatchOutcome(w, r);
  }

  lemma PoolOf(config: Pools, w: World, n: string)
    requires Conserved(config, w) && n in config
    ensures n in w.pools && w.pools[n].skip == config[n].skip
  {
    hide Held, Services;
  }

  /** With a limiting pool the cap is tight: it is never exceeded, and at the cap nothing more is dispatched. */
  lemma CapIsTight(config: Pools, w: World, workers: int, r: Reservation, limiting: string)
    requires Conserved(config, w) && Full(config) && limiting in config && !config[limiting].skip
    requires ComputeMaxInFlight(config, workers).Ok?
    ensures |w.jobs| <= ComputeMaxInFlight(config, workers).value
    ensures |w.jobs| == ComputeMaxInFlight(config, workers).value ==> Dispatched(w, r).jobs == w.jobs
  {
    hide Services, Held, BookedAll, SmallestCap, FirstEmpty, Dispatched, SameSlots;
    var cap := SmallestCap(config, Services());
    assert limiting in Services() && !config[limiting].skip;
    var n :| n in Services() && TotalCapacity(config[n]) == cap;
    FreeSlots(config, w, n);
    PoolOf(config, w, n);
    DispatchOutcome(w, r);
  }

  lemma StartConserves(config: Pools)
    requires ForServices(config)
    ensures Conserved(config, World(config, []))
  {
    hide Services;
  }

  /**
   * From the configured pools, over any run: below the cap every dispatch with a renderer slot succeeds, and
   * with a limiting pool the cap is never exceeded and at the cap nothing is dispatched.
   */
  lemma RunNeverFailsBelowCap(config: Pools, workers: int, events: seq<Event>, r: Reservation)
    requires ForServices(config) && Full(config)
    requires ComputeMaxInFlight(config, workers).Ok?
    ensures var w, cap := RunOf(World(config, []), events), ComputeMaxInFlight(config, workers).value;
            && (|w.jobs| < cap ==>
                  && |Dispatched(w, r).jobs| == |w.jobs| + (if CanReserve(w.pools, r) then 1 else 0)
                  && (!r.At? ==> CanReserve(w.pools, r)))
            && ((exists n :: n in config && !config[n].skip) ==>
                  |w.jobs| <= cap && (|w.jobs| == cap ==> Dispatched(w, r).jobs == w.jobs))
  {
    hide Dispatched, CanReserve, ComputeMaxInFlight, Services, Held, SameSlots;
    var w := RunOf(World(config, []), events);
    StartConserves(config);
    RunConserves(config, World(config, []), events);
    if |w.jobs| < ComputeMaxInFlight(config, workers).value {
      NeverFailsBelowCap(config, w, workers, r);
    }
    if n :| n in config && !config[n].skip {
      CapIsTight(config, w, workers, r, n);
    }
  }

  datatype WorkerError = TooFewWorkers(workers: int)

  /** math.ceil(a / b) for b > 0. */
  function CeilDiv(a: int, b: int): int
    requires b > 0
  {
    -((-a) / b)
  }

  function ComputeNumConsumersPerWorker(maxInFlight: int, workers: int, jobCount: Option<int>)
    : Result<int, WorkerError>
  {
    if workers < 1 then Err(TooFewWorkers(workers))
    else
      var jobs := if jobCount.Some? then (if jobCount.value > 1 then jobCount.value else 1) else maxInFlight;
      Ok(CeilDiv(if jobs < maxInFlight then jobs else maxInFlight, workers))
  }

  /** The consumers of all workers together cover the jobs in flight, and one fewer per worker would not. */
  lemma ConsumersCover(maxInFlight: int, workers: int, jobCount: Option<int>)
    requires maxInFlight >= 1
    ensures var c := ComputeNumConsumersPerWorker(maxInFlight, workers, jobCount);
            && (c.Ok? <==> workers >= 1)
            && (c.Ok? ==>
                  var need := if jobCount.Some? && jobCount.value < maxInFlight then
                                (if jobCount.value > 1 then jobCount.value else 1)
                              else maxInFlight;
                  c.value >= 1 && (c.value - 1) * workers < need <= c.value * workers)
  {
    if workers >= 1 {
      var jobs := if jobCount.Some? then (if jobCount.value > 1 then jobCount.value else 1) else maxInFlight;
      CeilDivBounds(if jobs < maxInFlight then jobs else maxInFlight, workers);
    }
  }

  lemma CeilDivBounds(a: int, b: int)
    requires b >= 1 && a >= 1
    ensures var c := CeilDiv(a, b); c >= 1 && (c - 1) * b < a <= c * b
  {
    var q := (-a) / b;
    assert -a == q * b + (-a) % b;
    assert (-q - 1) * b == -(q * b) - b;
    assert (-q) * b == -(q * b);
    NonNegative(q, b);
  }

  lemma NonNegative(q: int, b: int)
    requires b >= 1
    ensures q >= 0 ==> q * b >= 0
  {
  }

  // ----- the pool object

  class AddressPool {
    var skip: bool
    var slots: seq<Slot>
    var capacity: nat
    var allAddresses: set<string>

    ghost function State(): Pool
      reads this
    {
      Pool(skip, slots, capacity)
    }

    constructor (addresses: seq<string>, concurrent: int, skip: bool)
      ensures State() == if skip then Pool(true, [], 0)
              else Pool(false, Configured(addresses, concurrent), |Configured(addresses, concurrent)|)
      ensures allAddresses == if skip then {} else AllOf(addresses)
    {
      this.skip, slots, capacity := skip, [], 0;
      allAddresses := if skip then {} else AllOf(addresses);
      new;
      if !skip {
        hide Configured, Repeat, AllOf;
        assert addresses[0..] == addresses;
        for i := 0 to |addresses|
          invariant this.skip == skip && allAddresses == AllOf(addresses)
          invariant slots + Configured(addresses[i..], concurrent) == Configured(addresses, concurrent)
          invariant capacity == |slots|
        {
          ConfiguredStep(slots, addresses, i, concurrent);
          AddSlots(addresses[i], concurrent);
        }
        ConfiguredEnd(addresses, concurrent);
        assert slots + [] == slots;
      }
    }

    /** The inner loop of the constructor. */
    method AddSlots(address: string, concurrent: int)
      requires capacity == |slots|
      modifies this`slots, this`capacity
      ensures slots == old(slots) + Repeat(Slot(address, false), concurrent) && capacity == |slots|
    {
      var k := 0;
      while k < concurrent
        invariant 0 <= k && (k <= concurrent || k == 0)
        invariant slots == old(slots) + Repeat(Slot(address, false), k) && capacity == |slots|
      {
        slots := slots + [Slot(address, false)];
        capacity, k := capacity + 1, k + 1;
      }
    }

    method TryAcquire() returns (slot: Option<Slot>)
      modifies this`slots
      ensures (slot, State()) == Acquired(old(State()))
    {
      if skip {
        return Some(SKIP_SLOT);
      }
      if |slots| == 0 {
        return None;
      }
      slot := Some(slots[0]);
      slots := slots[1..];
    }

    method Release(slot: Slot)
      modifies this`slots
      ensures State() == Released(old(State()), slot)
    {
      if skip {
        return;
      }
      slots := slots + [slot];
    }

    method TryAcquireForAddress(address: string) returns (slot: Option<Slot>)
      modifies this`slots
      ensures (slot, State()) == AcquiredAt(old(State()), address)
    {
      if skip {
        return Some(SKIP_SLOT);
      }
      for i := 0 to |slots|
        invariant slots == old(slots)
        invariant forall k :: 0 <= k < i ==> slots[k].address != address
      {
        if slots[i].address == address {
          slot := Some(slots[i]);
          slots := slots[..i] + slots[i + 1..];
          return;
        }
      }
      slot := None;
    }

    method FreeAddresses() returns (addresses: set<string>)
      ensures forall a :: a in addresses <==> exists k :: 0 <= k < |slots| && slots[k].address == a
    {
      addresses := set s | s in slots :: s.address;
      assert forall k :: 0 <= k < |slots| ==> slots[k] in slots;
    }
  }

  /** Each service has a pool of its own. */
  ghost predicate Separate(pools: map<string, AddressPool>) {
    forall m, n :: m in pools && n in pools && pools[m] == pools[n] ==> m == n
  }

  ghost function States(pools: map<string, AddressPool>): (ps: Pools)
    reads pools.Values
    ensures ps.Keys == pools.Keys
  {
    map n | n in pools :: pools[n].State()
  }

  method ReleaseOne(pools: map<string, AddressPool>, n: string, slot: Slot)
    requires Separate(pools) && n in pools
    modifies pools[n]
    ensures States(pools) == old(States(pools))[n := Released(old(States(pools))[n], slot)]
  {
    hide Released;
    pools[n].Release(slot);
    assert forall m :: m in pools && m != n ==> pools[m] != pools[n];
  }

  method AcquireOne(pools: map<string, AddressPool>, n: string) returns (slot: Option<Slot>)
    requires Separate(pools) && n in pools
    modifies pools[n]
    ensures var (s, p) := Acquired(old(States(pools))[n]); slot == s && States(pools) == old(States(pools))[n := p]
  {
    hide Acquired;
    slot := pools[n].TryAcquire();
    assert forall m :: m in pools && m != n ==> pools[m] != pools[n];
  }

  function ReleasedSome(ps: Pools, b: Booking, done: seq<string>): Pools {
    map n | n in ps :: if n in b && n in done then Released(ps[n], b[n]) else ps[n]
  }

  lemma ReleasedMore(ps: Pools, b: Booking, order: seq<string>, i: nat)
    requires i < |order| && order[i] in b && order[i] in ps && order[i] !in order[..i]
    ensures ReleasedSome(ps, b, order[..i + 1])
            == ReleasedSome(ps, b, order[..i])[order[i] := Released(ps[order[i]], b[order[i]])]
    ensures ReleasedSome(ps, b, order[..i])[order[i]] == ps[order[i]]
  {
    hide Released;
    assert order[..i + 1] == order[..i] + [order[i]];
  }

  /** The order in which a booking's entries were made. */
  ghost predicate InsertionOrder(order: seq<string>, b: Booking) {
    (forall n :: n in order <==> n in b) && forall i, j :: 0 <= i < j < |order| ==> order[i] != order[j]
  }

  lemma Inserted(order: seq<string>, b: Booking, n: string, slot: Slot)
    requires InsertionOrder(order, b) && n !in b
    ensures InsertionOrder(order + [n], b[n := slot])
  {
  }

  /** `release_all`; `order` is the insertion order of the booking. */
  method ReleaseAll(pools: map<string, AddressPool>, booking: Booking, order: seq<string>)
    requires Separate(pools) && booking.Keys <= pools.Keys && InsertionOrder(order, booking)
    modifies pools.Values
    ensures States(pools) == ReleasedAll(old(States(pools)), booking)
  {
    hide Released, States, ReleasedSome, ReleasedAll, Separate, InsertionOrder;
    ghost var start := States(pools);
    ReleasedEnds(start, booking, order);
    for i := 0 to |order|
      invariant States(pools) == ReleasedSome(start, booking, order[..i])
    {
      var n := order[i];
      NextEntry(order, booking, i);
      ReleasedMore(start, booking, order, i);
      ReleaseOne(pools, n, booking[n]);
    }
    assert order[..|order|] == order;
  }

  lemma NextEntry(order: seq<string>, b: Booking, i: nat)
    requires InsertionOrder(order, b) && i < |order|
    ensures order[i] in b && order[i] !in order[..i]
  {
  }

  lemma ReleasedEnds(ps: Pools, b: Booking, order: seq<string>)
    requires InsertionOrder(order, b)
    ensures ReleasedSome(ps, b, order[..0]) == ps && ReleasedSome(ps, b, order) == ReleasedAll(ps, b)
  {
    hide Released;
  }

  lemma NextName(ps: Pools, names: seq<string>, i: nat, b: Booking)
    requires i < |names| && forall n :: n in names ==> n in ps
    ensures var n := names[i];
            && BookedAll(ps, names[i..], b) ==
               (if n in b then BookedAll(ps, names[i + 1..], b)
                else if Acquired(ps[n]).0.None? then (ReleasedAll(ps, b), None)
                else BookedAll(ps[n := Acquired(ps[n]).1], names[i + 1..], b[n := Acquired(ps[n]).0.value]))
            && Drained(ps, names[i..], b) ==
               (if n in b then Drained(ps, names[i + 1..], b)
                else if Acquired(ps[n]).0.None? then ps
                else Drained(ps[n := Acquired(ps[n]).1], names[i + 1..], b[n := Acquired(ps[n]).0.value]))
  {
    hide Acquired, ReleasedAll;
    assert names[i..][1..] == names[i + 1..];
  }

  /** The pools when booking stops at the first pool without a slot, before anything is given back. */
  function Drained(ps: Pools, names: seq<string>, b: Booking): Pools
    requires forall n :: n in names ==> n in ps
  {
    if |names| == 0 then ps
    else
      var n := names[0];
      if n in b then Drained(ps, names[1..], b)
      else
        var (slot, p) := Acquired(ps[n]);
        match slot
        case None => ps
        case Some(s) => Drained(ps[n := p], names[1..], b[n := s])
  }

  predicate Distinct(names: seq<string>) {
    forall i, j :: 0 <= i < j < |names| ==> names[i] != names[j]
  }

  /** The first `k` pools are booked or have a slot, and the next one is the first that is not and has none. */
  ghost predicate StopsAt(ps: Pools, names: seq<string>, b: Booking, k: nat)
    requires forall n :: n in names ==> n in ps
  {
    && k <= |names|
    && (forall i :: 0 <= i < k ==> names[i] in b || HasFree(ps[names[i]]))
    && (k < |names| ==> names[k] !in b && !HasFree(ps[names[k]]))
  }

  lemma {:induction false} DrainedElsewhere(ps: Pools, names: seq<string>, b: Booking, m: string)
    requires (forall n :: n in names ==> n in ps) && m in ps && m !in names
    ensures m in Drained(ps, names, b) && Drained(ps, names, b)[m] == ps[m]
  {
    if |names| > 0 {
      var n := names[0];
      if n in b {
        DrainedElsewhere(ps, names[1..], b, m);
      } else if HasFree(ps[n]) {
        var (slot, p) := Acquired(ps[n]);
        DrainedElsewhere(ps[n := p], names[1..], b[n := slot.value], m);
      }
    }
  }

  /**
   * Without a rollback nothing is lost exactly when every pool before the first empty one is skipped or was
   * booked already.
   */
  lemma {:induction false} DrainsNothingExactlyWhen(ps: Pools, names: seq<string>, b: Booking, k: nat)
    requires (forall n :: n in names ==> n in ps) && Distinct(names) && StopsAt(ps, names, b, k)
    ensures Drained(ps, names, b) == ps <==> forall i :: 0 <= i < k ==> names[i] in b || ps[names[i]].skip
    decreases |names|
  {
    if k > 0 {
      var n, more := names[0], names[1..];
      assert forall i :: 0 <= i < k - 1 ==> more[i] == names[i + 1];
      if n in b {
        DrainsNothingExactlyWhen(ps, more, b, k - 1);
      } else {
        var (slot, p) := Acquired(ps[n]);
        var qs, c := ps[n := p], b[n := slot.value];
        assert StopsAt(qs, more, c, k - 1);
        if ps[n].skip {
          assert qs == ps;
          DrainsNothingExactlyWhen(ps, more, c, k - 1);
        } else {
          DrainedElsewhere(qs, more, c, n);
          assert Drained(ps, names, b)[n] != ps[n];
        }
      }
    }
  }

  /**
   * A renderer slot without a renderer pool, a driver with one slot, and no slot for physics: the driver's
   * slot is gone.
   */
  lemma BookingCanLeak(slot: Slot)
    ensures var ps: Pools := map["driver" := Pool(false, [slot], 1), "physics" := Pool(false, [], 1)];
            var names, first: Booking := ["driver", "physics"], map["renderer" := slot];
            && BookedAll(ps, names, first).1.None? && !(first.Keys <= ps.Keys)
            && Drained(ps, names, first) == ps["driver" := Pool(false, [], 1)]
  {
    assert "driver"[0] != "physics"[0] && "driver"[0] != "renderer"[0] && "physics"[0] != "renderer"[0];
    var ps: Pools := map["driver" := Pool(false, [slot], 1), "physics" := Pool(false, [], 1)];
    var qs, first: Booking := ps["driver" := Pool(false, [], 1)], map["renderer" := slot];
    assert ["driver", "physics"][1..] == ["physics"] && [slot][1..] == [];
    assert Acquired(ps["driver"]) == (Some(slot), Pool(false, [], 1));
    assert "renderer" in first.Keys && "renderer" !in ps.Keys;
    var taken := first["driver" := slot];
    assert "physics" !in taken && Acquired(qs["physics"]).0 == None && ["physics"][0] == "physics";
    assert BookedAll(qs, ["physics"], taken) == (ReleasedAll(qs, taken), None);
    assert BookedAll(ps, ["driver", "physics"], first) == BookedAll(qs, ["physics"], taken);
    assert Drained(qs, ["physics"], taken) == qs;
    assert Drained(ps, ["driver", "physics"], first) == Drained(qs, ["physics"], taken);
  }

  datatype BookingError = NoSuchPool

  /**
   * `try_acquire_all` over the pool objects. A renderer slot given without a renderer pool is kept when booking
   * succeeds; when it fails, the rollback starts with that slot, stops there, and nothing is given back.
   */
  method TryAcquireAll(pools: map<string, AddressPool>, names: seq<string>, rendererSlot: Option<Slot>)
    returns (r: Result<Option<Booking>, BookingError>)
    requires Separate(pools) && (forall n :: n in names <==> n in pools)
    modifies pools.Values
    ensures var first: Booking := if rendererSlot.Some? then map["renderer" := rendererSlot.value] else map[];
            var (qs, booking) := BookedAll(old(States(pools)), names, first);
            if booking.Some? || first.Keys <= pools.Keys then r == Ok(booking) && States(pools) == qs
            else r == Err(NoSuchPool) && States(pools) == Drained(old(States(pools)), names, first)
  {
    hide Acquired, ReleasedAll, BookedAll, Drained, States, InsertionOrder, Separate;
    var acquired: Booking := map[];
    var order: seq<string> := [];
    FirstInserted(rendererSlot);
    if rendererSlot.Some? {
      acquired, order := map["renderer" := rendererSlot.value], ["renderer"];
    }
    ghost var start, first := States(pools), acquired;
    assert names[0..] == names;
    for i := 0 to |names|
      invariant first.Keys <= acquired.Keys <= pools.Keys + first.Keys && InsertionOrder(order, acquired)
      invariant (rendererSlot.Some? ==> |order| > 0 && order[0] == "renderer") && (|order| > 0 ==> order[0] in acquired)
      invariant BookedAll(States(pools), names[i..], acquired) == BookedAll(start, names, first)
      invariant Drained(States(pools), names[i..], acquired) == Drained(start, names, first)
    {
      var n := names[i];
      NextName(States(pools), names, i, acquired);
      if n !in acquired {
        ghost var before := States(pools);
        var slot := AcquireOne(pools, n);
        if slot.None? {
          EmptyUnchanged(before[n]);
          assert States(pools) == before;
          if |order| > 0 && order[0] !in pools {
            return Err(NoSuchPool);
          }
          ReleaseAll(pools, acquired, order);
          return Ok(None);
        }
        Inserted(order, acquired, n, slot.value);
        acquired, order := acquired[n := slot.value], order + [n];
      }
    }
    NothingLeft(States(pools), names[|names|..], acquired);
    r := Ok(Some(acquired));
  }

  lemma FirstInserted(slot: Option<Slot>)
    ensures InsertionOrder([], map[]) && (slot.Some? ==> InsertionOrder(["renderer"], map["renderer" := slot.value]))
  {
  }

  lemma NothingLeft(ps: Pools, names: seq<string>, b: Booking)
    requires names == []
    ensures BookedAll(ps, names, b) == (ps, Some(b))
  {
  }

  lemma EmptyUnchanged(p: Pool)
    ensures Acquired(p).0.None? ==> Acquired(p).1 == p
  {
  }
}
