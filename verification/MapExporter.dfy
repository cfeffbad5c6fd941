/**
 The map exporter's protocol (src/runtime/alpasim_runtime/map_tcp.py): publishers and one worker
 sharing a set of scheduled keys and a bounded queue, interleaved in atomic steps.

 `put` records every message the queue accepted, in order, and `lost` every message whose second put
 found the queue full.
 */
module MapExporter {
  import opened Wrappers

  type Key = string

  /** What a serialized map carries of where it comes from. */
  datatype Message = Message(scene: string, mapId: string)

  /** `_map_key` */
  function KeyOf(m: Message): Key {
    m.scene + "|" + m.mapId
  }

  /** Where a publisher stands in publish_vector_map. */
  datatype Phase =
    | Idle
    | Reserved(message: Message)
    | Serialized(message: Message)
    | Full(message: Message)
    | Evicting(message: Message, replaced: Message)
    | Retry(message: Message)

  datatype State = State(
    capacity: int,
    publishers: seq<Phase>,
    scheduled: set<Key>,
    queue: seq<Message>,
    pending: Option<Message>,
    sent: seq<Message>,
    put: seq<Message>,
    lost: seq<Message>)

  datatype Step =
    | Publish(p: nat, message: Message)
    | Serialize(p: nat, ok: bool)
    | Put(p: nat)
    | Evict(p: nat)
    | Free(p: nat)
    | PutAgain(p: nat)
    | Take
    | Send(ok: bool)

  /** A queue with a non-positive capacity is unbounded. */
  predicate HasRoom(s: State) {
    s.capacity <= 0 || |s.queue| < s.capacity
  }

  function Start(capacity: int, publishers: nat): State {
    State(capacity, seq(publishers, _ => Idle), {}, [], None, [], [], [])
  }

  function Phased(s: State, p: nat, phase: Phase): State
    requires p < |s.publishers|
  {
    s.(publishers := s.publishers[p := phase])
  }

  function Enqueued(s: State, m: Message): State {
    s.(queue := s.queue + [m], put := s.put + [m])
  }

  /** One atomic step of a publisher; a step its phase does not allow changes nothing. */
  function PublisherStep(s: State, p: nat, step: Step): State
    requires p < |s.publishers|
  {
    var phase := s.publishers[p];
    match step
    case Publish(_, m) =>
      if phase.Idle? && KeyOf(m) !in s.scheduled then
        Phased(s, p, Reserved(m)).(scheduled := s.scheduled + {KeyOf(m)})
      else s
    case Serialize(_, ok) =>
      if !phase.Reserved? then s
      else if ok then Phased(s, p, Serialized(phase.message))
      else Phased(s, p, Idle).(scheduled := s.scheduled - {KeyOf(phase.message)})
    case Put(_) =>
      if !phase.Serialized? then s
      else if HasRoom(s) then Enqueued(Phased(s, p, Idle), phase.message)
      else Phased(s, p, Full(phase.message))
    case Evict(_) =>
      if !phase.Full? then s
      else if |s.queue| > 0 then Phased(s, p, Evicting(phase.message, s.queue[0])).(queue := s.queue[1..])
      else Phased(s, p, Retry(phase.message))
    case Free(_) =>
      if phase.Evicting? then Phased(s, p, Retry(phase.message)).(scheduled := s.scheduled - {KeyOf(phase.replaced)})
      else s
    case PutAgain(_) =>
      if !phase.Retry? then s
      else if HasRoom(s) then Enqueued(Phased(s, p, Idle), phase.message)
      else Phased(s, p, Idle).(lost := s.lost + [phase.message])
    case _ => s
  }

  function Next(s: State, step: Step): State {
    match step
    case Take =>
      if s.pending.None? && |s.queue| > 0 then s.(pending := Some(s.queue[0]), queue := s.queue[1..]) else s
    case Send(ok) =>
      if s.pending.Some? && ok then s.(pending := None, sent := s.sent + [s.pending.value]) else s
    case _ =>
      if step.p < |s.publishers| then PublisherStep(s, step.p, step) else s
  }

  function Run(s: State, steps: seq<Step>): State
    decreases |steps|
  {
    if |steps| == 0 then s else Run(Next(s, steps[0]), steps[1..])
  }

  // ----- every scheduled key is in exactly one place

  /** How often a publisher holds key `x`. */
  function HoldsKey(phase: Phase, x: Key): nat {
    match phase
    case Idle => 0
    case Evicting(m, replaced) => (if KeyOf(m) == x then 1 else 0) + (if KeyOf(replaced) == x then 1 else 0)
    case _ => if KeyOf(phase.message) == x then 1 else 0
  }

  function HeldBy(ps: seq<Phase>, x: Key): nat {
    if |ps| == 0 then 0 else HoldsKey(ps[0], x) + HeldBy(ps[1..], x)
  }

  function Keys(ms: seq<Message>): (r: seq<Key>)
    ensures |r| == |ms| && forall i :: 0 <= i < |r| ==> r[i] == KeyOf(ms[i])
  {
    seq(|ms|, i requires 0 <= i < |ms| => KeyOf(ms[i]))
  }

  /** How many of the messages have key `x`. */
  function Count(ms: seq<Message>, x: Key): nat {
    multiset(Keys(ms))[x]
  }

  /** In how many places key `x` is: with a publisher, queued, pending, sent, or lost. */
  function Places(s: State, x: Key): nat {
    HeldBy(s.publishers, x) + Count(s.queue, x) + (if s.pending.Some? && KeyOf(s.pending.value) == x then 1 else 0)
      + Count(s.sent, x) + Count(s.lost, x)
  }

  /** A key is scheduled exactly when it is in a place, and it is never in two. */
  ghost predicate Accounted(s: State) {
    forall x :: Places(s, x) == if x in s.scheduled then 1 else 0
  }

  lemma {:induction false} HeldUpdate(ps: seq<Phase>, p: nat, phase: Phase, x: Key)
    requires p < |ps|
    ensures HeldBy(ps[p := phase], x) + HoldsKey(ps[p], x) == HeldBy(ps, x) + HoldsKey(phase, x)
  {
    if p == 0 {
      assert ps[p := phase][1..] == ps[1..];
    } else {
      HeldUpdate(ps[1..], p - 1, phase, x);
      assert ps[p := phase][1..] == ps[1..][p - 1 := phase];
    }
  }

  lemma {:induction false} NoneHeld(ps: seq<Phase>, x: Key)
    requires forall p :: 0 <= p < |ps| ==> ps[p] == Idle
    ensures HeldBy(ps, x) == 0
  {
    if |ps| > 0 {
      NoneHeld(ps[1..], x);
    }
  }

  lemma CountAppend(ms: seq<Message>, m: Message, x: Key)
    ensures Count(ms + [m], x) == Count(ms, x) + if x == KeyOf(m) then 1 else 0
  {
    assert Keys(ms + [m]) == Keys(ms) + [KeyOf(m)];
  }

  lemma CountTail(ms: seq<Message>, x: Key)
    requires |ms| > 0
    ensures Count(ms, x) == Count(ms[1..], x) + if x == KeyOf(ms[0]) then 1 else 0
  {
    assert Keys(ms) == [KeyOf(ms[0])] + Keys(ms[1..]);
  }

  lemma PublisherPlaces(s: State, p: nat, step: Step, x: Key)
    requires Places(s, x) == (if x in s.scheduled then 1 else 0) && p < |s.publishers|
    ensures var t := PublisherStep(s, p, step); Places(t, x) == if x in t.scheduled then 1 else 0
  {
    hide HeldBy, HasRoom, Count, KeyOf;
    var t, phase := PublisherStep(s, p, step), s.publishers[p];
    HeldUpdate(s.publishers, p, t.publishers[p], x);
    if !phase.Idle? {
      CountAppend(s.queue, phase.message, x);
      CountAppend(s.lost, phase.message, x);
    }
    if |s.queue| > 0 {
      CountTail(s.queue, x);
    }
    HeldSome(s.publishers, p, x);
  }

  lemma {:induction false} HeldSome(ps: seq<Phase>, p: nat, x: Key)
    requires p < |ps|
    ensures HeldBy(ps, x) >= HoldsKey(ps[p], x)
  {
    if p > 0 {
      HeldSome(ps[1..], p - 1, x);
    }
  }

  lemma StepAccounts(s: State, step: Step)
    requires Accounted(s)
    ensures Accounted(Next(s, step))
  {
    hide HeldBy, PublisherStep, Count, KeyOf;
    var t := Next(s, step);
    forall x
      ensures Places(t, x) == if x in t.scheduled then 1 else 0
    {
      assert Places(s, x) == if x in s.scheduled then 1 else 0;
      match step
      case Take =>
        if |s.queue| > 0 {
          CountTail(s.queue, x);
        }
      case Send(ok) =>
        if s.pending.Some? {
          CountAppend(s.sent, s.pending.value, x);
        }
      case _ =>
        if step.p < |s.publishers| {
          PublisherPlaces(s, step.p, step, x);
        }
    }
  }

  /** In every reachable state, whatever the interleaving of any number of publishers with the worker. */
  lemma {:induction false} RunAccounts(s: State, steps: seq<Step>)
    requires Accounted(s)
    ensures Accounted(Run(s, steps))
    decreases |steps|
  {
    hide Accounted, Next;
    if |steps| > 0 {
      StepAccounts(s, steps[0]);
      RunAccounts(Next(s, steps[0]), steps[1..]);
    }
  }

  lemma StartAccounts(capacity: int, publishers: nat)
    ensures Accounted(Start(capacity, publishers))
  {
    var s := Start(capacity, publishers);
    forall x
      ensures Places(s, x) == 0
    {
      NoneHeld(s.publishers, x);
    }
  }

  lemma CountTwice(ms: seq<Message>, i: nat, j: nat)
    requires i < j < |ms|
    ensures KeyOf(ms[i]) == KeyOf(ms[j]) ==> Count(ms, KeyOf(ms[i])) >= 2
  {
    var keys := Keys(ms);
    assert keys == keys[..j] + keys[j..];
    assert keys[i] in keys[..j] && keys[j] in keys[j..];
  }

  /** No key is sent twice, in any run. */
  lemma NoKeySentTwice(capacity: int, publishers: nat, steps: seq<Step>, i: nat, j: nat)
    requires var sent := Run(Start(capacity, publishers), steps).sent; i < j < |sent|
    ensures var sent := Run(Start(capacity, publishers), steps).sent; KeyOf(sent[i]) != KeyOf(sent[j])
  {
    hide Run, Start, Count, HeldBy, KeyOf;
    var s := Run(Start(capacity, publishers), steps);
    StartAccounts(capacity, publishers);
    RunAccounts(Start(capacity, publishers), steps);
    assert Places(s, KeyOf(s.sent[i])) <= 1;
    CountTwice(s.sent, i, j);
  }

  /** `m`'s scene, continued after the separator, is `n`'s, and what it is continued by heads `m`'s map. */
  predicate Shifted(m: Message, n: Message) {
    m.scene + "|" <= n.scene && m.mapId == n.scene[|m.scene| + 1..] + "|" + n.mapId
  }

  /** Exactly which maps share a key: equal ones, and those with the separator in a scene and shifted past it. */
  lemma SameKeyExactlyWhen(m: Message, n: Message)
    ensures KeyOf(m) == KeyOf(n) <==> m == n || Shifted(m, n) || Shifted(n, m)
  {
    hide KeyOf, Shifted;
    if |m.scene| == |n.scene| {
      SameLengthKeys(m, n);
    } else if |m.scene| < |n.scene| {
      ShiftedKeys(m, n);
    } else {
      ShiftedKeys(n, m);
    }
  }

  lemma SameLengthKeys(m: Message, n: Message)
    requires |m.scene| == |n.scene|
    ensures KeyOf(m) == KeyOf(n) <==> m == n
    ensures !Shifted(m, n) && !Shifted(n, m)
  {
    var k, l, i := KeyOf(m), KeyOf(n), |m.scene|;
    assert k[..i] == m.scene && l[..i] == n.scene && k[i + 1..] == m.mapId && l[i + 1..] == n.mapId;
  }

  lemma ShiftedKeys(m: Message, n: Message)
    requires |m.scene| < |n.scene|
    ensures KeyOf(m) == KeyOf(n) <==> Shifted(m, n)
    ensures m != n && !Shifted(n, m)
  {
    var k, l, i, j := KeyOf(m), KeyOf(n), |m.scene|, |n.scene|;
    assert k[..i + 1] == m.scene + "|" && k[i + 1..] == m.mapId && k == k[..i + 1] + k[i + 1..];
    assert l[..i + 1] == n.scene[..i + 1] && l[i + 1..] == n.scene[i + 1..] + "|" + n.mapId
           && l == l[..i + 1] + l[i + 1..];
  }

  /** Two scenes have maps that share a key exactly when the one name, with the separator, begins the other. */
  lemma ScenesCanCollideExactlyWhen(a: string, b: string)
    requires a != b
    ensures (exists x, y :: KeyOf(Message(a, x)) == KeyOf(Message(b, y))) <==> a + "|" <= b || b + "|" <= a
  {
    hide KeyOf;
    forall x, y
      ensures KeyOf(Message(a, x)) == KeyOf(Message(b, y)) ==> a + "|" <= b || b + "|" <= a
    {
      SameKeyExactlyWhen(Message(a, x), Message(b, y));
    }
    if a + "|" <= b {
      Collision(a, b);
    }
    if b + "|" <= a {
      Collision(b, a);
    }
  }

  lemma Collision(a: string, b: string)
    requires a + "|" <= b
    ensures KeyOf(Message(a, b[|a| + 1..] + "|")) == KeyOf(Message(b, ""))
  {
    var m, n := Message(a, b[|a| + 1..] + "|"), Message(b, "");
    assert m.mapId == n.scene[|m.scene| + 1..] + "|" + n.mapId;
    SameKeyExactlyWhen(m, n);
  }

  /** Two maps of one scene, or of scenes without the separator in their names, never share a key. */
  lemma KeysTellMapsApart(m: Message, n: Message)
    requires m.scene == n.scene || ('|' !in m.scene && '|' !in n.scene)
    ensures KeyOf(m) == KeyOf(n) ==> m == n
  {
    hide KeyOf;
    SameKeyExactlyWhen(m, n);
    LongerHasSeparator(m.scene, n.scene);
    LongerHasSeparator(n.scene, m.scene);
  }

  lemma LongerHasSeparator(a: string, b: string)
    ensures a + "|" <= b ==> |a| < |b| && '|' in b
  {
    if a + "|" <= b {
      assert b[|a|] == '|';
    }
  }

  /** With the separator in a scene name two maps can share a key, and then only one of them is ever scheduled. */
  lemma KeysCanCollide()
    ensures KeyOf(Message("a|b", "c")) == KeyOf(Message("a", "b|c"))
  {
    assert "a|b" + "|" + "c" == "a" + "|" + "b|c";
  }

  /**
   * A message leaves the queue only to be pending or to be evicted, leaves pending only by being sent, and
   * stays sent.
   */
  lemma NothingVanishes(s: State, step: Step, x: Message)
    ensures var t := Next(s, step);
            && (x in s.queue ==>
                  || x in t.queue
                  || t.pending == Some(x)
                  || (step.Evict? && step.p < |t.publishers|
                       && t.publishers[step.p] == Evicting(s.publishers[step.p].message, x)))
            && (s.pending == Some(x) ==> t.pending == Some(x) || t.sent == s.sent + [x])
            && s.sent <= t.sent
  {
    if |s.queue| > 0 {
      assert s.queue == [s.queue[0]] + s.queue[1..];
    }
  }

  /** A superseded map's key is freed, so the map can be published again: no trace of it is left. */
  lemma SupersededIsFreed(s: State, p: nat)
    requires Accounted(s) && p < |s.publishers| && s.publishers[p].Evicting?
    ensures var x, t := KeyOf(s.publishers[p].replaced), Next(s, Free(p)); x !in t.scheduled && Places(t, x) == 0
    ensures KeyOf(s.publishers[p].replaced) != KeyOf(s.publishers[p].message)
  {
    hide HeldBy, Count, KeyOf;
    var x := KeyOf(s.publishers[p].replaced);
    StepAccounts(s, Free(p));
    HeldSome(s.publishers, p, x);
    assert Places(s, x) == if x in s.scheduled then 1 else 0;
  }

  /** A key whose serialization failed is freed as well. */
  lemma FailedIsFreed(s: State, p: nat)
    requires Accounted(s) && p < |s.publishers| && s.publishers[p].Reserved?
    ensures var x, t := KeyOf(s.publishers[p].message), Next(s, Serialize(p, false));
            x !in t.scheduled && Places(t, x) == 0
  {
    hide HeldBy, Count, KeyOf;
    StepAccounts(s, Serialize(p, false));
  }

  // ----- the queue holds the newest maps, within its bound

  ghost predicate NewestQueued(s: State) {
    && (s.capacity > 0 ==> |s.queue| <= s.capacity)
    && |s.queue| <= |s.put| && s.queue == s.put[|s.put| - |s.queue|..]
  }

  lemma QueueStep(s: State, step: Step)
    requires NewestQueued(s)
    ensures NewestQueued(Next(s, step))
  {
    hide KeyOf;
    match step
    case Take =>
    case Send(_) =>
    case _ =>
  }

  lemma {:induction false} RunQueuesNewest(s: State, steps: seq<Step>)
    requires NewestQueued(s)
    ensures NewestQueued(Run(s, steps))
    decreases |steps|
  {
    hide NewestQueued, Next;
    if |steps| > 0 {
      QueueStep(s, steps[0]);
      RunQueuesNewest(Next(s, steps[0]), steps[1..]);
    }
  }

  // ----- first in, first out

  /** `a` is `b` with some entries left out; `f` says where each entry of `a` is in `b`. */
  ghost predicate Embeds<T>(a: seq<T>, b: seq<T>, f: seq<nat>) {
    && |f| == |a| && (forall i :: 0 <= i < |f| ==> f[i] < |b| && b[f[i]] == a[i])
    && forall i, j :: 0 <= i < j < |f| ==> f[i] < f[j]
  }

  /** The maps on their way out, in order: sent, pending, queued. */
  function Line(s: State): seq<Message> {
    s.sent + (if s.pending.Some? then [s.pending.value] else []) + s.queue
  }

  lemma EmbedsMore<T>(a: seq<T>, b: seq<T>, f: seq<nat>, x: T)
    requires Embeds(a, b, f)
    ensures Embeds(a + [x], b + [x], f + [|b|])
  {
  }

  lemma EmbedsFewer<T>(a: seq<T>, b: seq<T>, f: seq<nat>, k: nat)
    requires Embeds(a, b, f) && k < |a|
    ensures Embeds(a[..k] + a[k + 1..], b, f[..k] + f[k + 1..])
  {
  }

  /** What one step does to the line: nothing, a map joins its end, or the head of the queue leaves it. */
  lemma LineMoves(s: State, step: Step)
    ensures var t := Next(s, step);
            if |t.put| > |s.put| then
              var m := t.put[|s.put|];
              t.put == s.put + [m] && Line(t) == Line(s) + [m]
            else
              && t.put == s.put
              && (Line(t) == Line(s) || (exists k :: 0 <= k < |Line(s)| && Line(t) == Line(s)[..k] + Line(s)[k + 1..]))
  {
    hide HasRoom, KeyOf;
    if |s.queue| > 0 {
      var k := |Line(s)| - |s.queue|;
      assert s.queue == [s.queue[0]] + s.queue[1..];
      assert Line(s.(queue := s.queue[1..])) == Line(s)[..k] + Line(s)[k + 1..];
    }
  }

  lemma LineStep(s: State, step: Step, f: seq<nat>) returns (g: seq<nat>)
    requires Embeds(Line(s), s.put, f)
    ensures Embeds(Line(Next(s, step)), Next(s, step).put, g)
  {
    hide Next, Line;
    var t := Next(s, step);
    LineMoves(s, step);
    if |t.put| > |s.put| {
      EmbedsMore(Line(s), s.put, f, t.put[|s.put|]);
      g := f + [|s.put|];
    } else if Line(t) == Line(s) {
      g := f;
    } else {
      var k :| 0 <= k < |Line(s)| && Line(t) == Line(s)[..k] + Line(s)[k + 1..];
      EmbedsFewer(Line(s), s.put, f, k);
      g := f[..k] + f[k + 1..];
    }
  }

  lemma {:induction false} LineRun(s: State, steps: seq<Step>, f: seq<nat>) returns (g: seq<nat>)
    requires Embeds(Line(s), s.put, f)
    ensures Embeds(Line(Run(s, steps)), Run(s, steps).put, g)
    decreases |steps|
  {
    hide Line, Next, Embeds;
    if |steps| == 0 {
      g := f;
    } else {
      g := LineStep(s, steps[0], f);
      g := LineRun(Next(s, steps[0]), steps[1..], g);
    }
  }

  /** In any run maps are sent in the order they were put; superseded ones are left out. */
  lemma SentInPutOrder(capacity: int, publishers: nat, steps: seq<Step>) returns (g: seq<nat>)
    ensures var s := Run(Start(capacity, publishers), steps); Embeds(Line(s), s.put, g) && s.sent <= Line(s)
  {
    g := LineRun(Start(capacity, publishers), steps, []);
    var s := Run(Start(capacity, publishers), steps);
    assert s.sent == Line(s)[..|s.sent|];
  }

  // ----- the worker delivers

  function Passes(n: nat): seq<Step> {
    if n == 0 then [] else [Take, Send(true)] + Passes(n - 1)
  }

  /** A pass whose send succeeds sends the first map on its way, if there is one, and changes nothing else. */
  lemma PassSends(s: State)
    ensures var t := Next(Next(s, Take), Send(true));
            var out := (if s.pending.Some? then [s.pending.value] else []) + s.queue;
            && t.pending.None?
            && t == s.(pending := None, queue := t.queue, sent := t.sent)
            && (if |out| == 0 then t.sent == s.sent && t.queue == []
                else t.sent == s.sent + [out[0]] && t.queue == out[1..])
  {
  }

  /** Left to itself, with sends that succeed, the worker sends all that is on its way, in order. */
  lemma {:induction false} WorkerDelivers(s: State, n: nat)
    requires n >= |s.queue| + if s.pending.Some? then 1 else 0
    ensures var t := Run(s, Passes(n));
            && t.sent == Line(s) && t.queue == [] && t.pending.None?
            && t == s.(pending := None, queue := [], sent := Line(s))
    decreases n
  {
    hide Next;
    if n == 0 {
      assert Line(s) == s.sent;
    } else {
      var t := Next(Next(s, Take), Send(true));
      PassSends(s);
      RunPass(s, Passes(n - 1));
      assert Line(t) == Line(s);
      WorkerDelivers(t, n - 1);
    }
  }

  lemma RunPass(s: State, more: seq<Step>)
    ensures Run(s, [Take, Send(true)] + more) == Run(Next(Next(s, Take), Send(true)), more)
  {
    hide Next;
    assert [Take, Send(true)] + more == [Take] + ([Send(true)] + more);
    RunOn(s, [Take], [Send(true)] + more);
    RunOn(Next(s, Take), [Send(true)], more);
    RunOne(s, Take);
    RunOne(Next(s, Take), Send(true));
  }

  /** A send that fails leaves the map pending, to be tried again. */
  lemma FailedSendWaits(s: State)
    ensures Next(s, Send(false)) == s
    ensures s.pending.Some? ==> Next(s, Take) == s
  {
  }

  // ----- with one publisher nothing is lost, and the newest map gets through

  predicate Making(s: State)
    requires |s.publishers| == 1
  {
    s.publishers[0].Evicting? || s.publishers[0].Retry?
  }

  /** The newest map put is still queued, or being sent, or sent, unless a newer one is being put in its place. */
  predicate NewestAlive(s: State)
    requires |s.publishers| == 1
  {
    |s.put| > 0 ==>
      || |s.queue| > 0
      || s.pending == Some(s.put[|s.put| - 1])
      || (s.pending.None? && |s.sent| > 0 && s.sent[|s.sent| - 1] == s.put[|s.put| - 1])
      || Making(s)
  }

  ghost predicate OnePublisher(s: State) {
    && |s.publishers| == 1 && s.lost == [] && NewestQueued(s)
    && (Making(s) ==> HasRoom(s))
    && NewestAlive(s)
  }

  lemma OnePublisherStep(s: State, step: Step)
    requires OnePublisher(s)
    ensures OnePublisher(Next(s, step))
  {
    QueueStep(s, step);
    RoomStep(s, step);
    LastQueued(s);
    AliveStep(s, step);
  }

  lemma RoomStep(s: State, step: Step)
    requires |s.publishers| == 1 && s.lost == [] && (s.capacity > 0 ==> |s.queue| <= s.capacity)
             && (Making(s) ==> HasRoom(s))
    ensures var t := Next(s, step); |t.publishers| == 1 && t.lost == [] && (Making(t) ==> HasRoom(t))
  {
  }

  lemma LastQueued(s: State)
    requires NewestQueued(s)
    ensures |s.queue| > 0 ==> |s.put| > 0 && s.put[|s.put| - 1] == s.queue[|s.queue| - 1]
  {
  }

  lemma AliveStep(s: State, step: Step)
    requires |s.publishers| == 1 && NewestAlive(s)
    requires |s.queue| > 0 ==> |s.put| > 0 && s.put[|s.put| - 1] == s.queue[|s.queue| - 1]
    requires Making(s) ==> HasRoom(s)
    ensures |Next(s, step).publishers| == 1 && NewestAlive(Next(s, step))
  {
    hide HasRoom;
  }

  lemma {:induction false} OnePublisherRun(s: State, steps: seq<Step>)
    requires OnePublisher(s)
    ensures OnePublisher(Run(s, steps))
    decreases |steps|
  {
    hide OnePublisher, Next;
    if |steps| > 0 {
      OnePublisherStep(s, steps[0]);
      OnePublisherRun(Next(s, steps[0]), steps[1..]);
    }
  }

  /**
   * The second put never finds the queue full, and once the worker has caught up the last map sent is the last
   * one put.
   */
  lemma SecondPutHasRoom(capacity: int, steps: seq<Step>)
    ensures var s := Run(Start(capacity, 1), steps);
            && |s.publishers| == 1 && s.lost == []
            && (s.publishers[0].Retry? ==> HasRoom(s))
            && (s.publishers[0].Idle? && s.queue == [] && s.pending.None? && |s.put| > 0 ==>
                  |s.sent| > 0 && s.sent[|s.sent| - 1] == s.put[|s.put| - 1])
  {
    hide Run;
    OnePublisherRun(Start(capacity, 1), steps);
  }

  // ----- with two publishers a map can be lost

  lemma {:induction false} RunOn(s: State, first: seq<Step>, rest: seq<Step>)
    ensures Run(s, first + rest) == Run(Run(s, first), rest)
    decreases |first|
  {
    if |first| == 0 {
      assert first + rest == rest;
    } else {
      assert (first + rest)[0] == first[0] && (first + rest)[1..] == first[1..] + rest;
      RunOn(Next(s, first[0]), first[1..], rest);
    }
  }

  lemma RunOne(s: State, step: Step)
    ensures Run(s, [step]) == Next(s, step)
  {
    assert [step][1..] == [];
  }

  function Name(i: nat): Message {
    Message("", seq(i, _ => 'm'))
  }

  lemma NamesDiffer(i: nat, j: nat)
    requires i != j
    ensures KeyOf(Name(i)) != KeyOf(Name(j))
  {
    assert |KeyOf(Name(i))| == i + 1 && |KeyOf(Name(j))| == j + 1;
  }

  /** Publisher 0 fills an empty queue with `k` maps. */
  lemma {:induction false} Fill(capacity: int, publishers: nat, k: nat) returns (steps: seq<Step>)
    requires publishers >= 1 && k <= capacity
    ensures var s := Run(Start(capacity, publishers), steps);
            && s.capacity == capacity && s.publishers == Start(capacity, publishers).publishers
            && |s.queue| == k && s.lost == [] && (forall i: nat :: i >= k ==> KeyOf(Name(i)) !in s.scheduled)
  {
    if k == 0 {
      steps := [];
    } else {
      steps := Fill(capacity, publishers, k - 1);
      var s := Run(Start(capacity, publishers), steps);
      var more := [Publish(0, Name(k - 1)), Serialize(0, true), Put(0)];
      RunOn(Start(capacity, publishers), steps, more);
      ThreeSteps(s, more);
      forall i: nat | i >= k
        ensures KeyOf(Name(i)) != KeyOf(Name(k - 1))
      {
        NamesDiffer(i, k - 1);
      }
      steps := steps + more;
      assert s.publishers[0 := Reserved(Name(k - 1))][0 := Serialized(Name(k - 1))][0 := Idle] == s.publishers;
    }
  }

  lemma ThreeSteps(s: State, steps: seq<Step>)
    requires |steps| == 3
    ensures Run(s, steps) == Next(Next(Next(s, steps[0]), steps[1]), steps[2])
  {
    hide Next;
    assert steps == [steps[0]] + ([steps[1]] + [steps[2]]);
    RunOn(s, [steps[0]], [steps[1]] + [steps[2]]);
    RunOn(Next(s, steps[0]), [steps[1]], [steps[2]]);
    RunOne(s, steps[0]);
    RunOne(Next(s, steps[0]), steps[1]);
    RunOne(Next(Next(s, steps[0]), steps[1]), steps[2]);
  }

  /** While one publisher evicts, another takes the room: the evicted map is gone and so is the evicting publisher's. */
  lemma RoomTaken(s: State, a: Message, b: Message) returns (steps: seq<Step>)
    requires |s.publishers| >= 2 && s.publishers[0].Idle? && s.publishers[1].Idle?
    requires s.capacity >= 1 && |s.queue| == s.capacity && KeyOf(a) != KeyOf(b) && KeyOf(a) !in s.scheduled
             && KeyOf(b) !in s.scheduled
    ensures Run(s, steps).lost == s.lost + [a]
  {
    hide Run, KeyOf;
    var first := [Publish(0, a), Serialize(0, true), Put(0)];
    var second := [Publish(1, b), Serialize(1, true), Evict(0)];
    var third := [Put(1), Free(0), PutAgain(0)];
    ThreeSteps(s, first);
    var t := Run(s, first);
    assert t.publishers[0] == Full(a) && t.publishers[1].Idle? && KeyOf(b) !in t.scheduled && t.queue == s.queue
           && t.lost == s.lost;
    ThreeSteps(t, second);
    var u := Run(t, second);
    assert u.publishers[0].Evicting? && u.publishers[0].message == a && u.publishers[1] == Serialized(b)
           && |u.queue| == s.capacity - 1;
    ThreeSteps(u, third);
    RunOn(s, first, second + third);
    RunOn(t, second, third);
    steps := first + (second + third);
  }

  /** No run ever loses a map exactly when there is at most one publisher or the queue is unbounded. */
  lemma LosesNothingExactlyWhen(capacity: int, publishers: nat)
    ensures (forall steps: seq<Step> :: Run(Start(capacity, publishers), steps).lost == [])
            <==> publishers <= 1 || capacity <= 0
  {
    var s := Start(capacity, publishers);
    if publishers <= 1 || capacity <= 0 {
      forall steps: seq<Step>
        ensures Run(s, steps).lost == []
      {
        if publishers == 1 {
          SecondPutHasRoom(capacity, steps);
        } else {
          NeverFull(s, steps);
        }
      }
    } else {
      var fill := Fill(capacity, publishers, capacity);
      var t := Run(s, fill);
      NamesDiffer(capacity, capacity + 1);
      var clash := RoomTaken(t, Name(capacity), Name(capacity + 1));
      RunOn(s, fill, clash);
      assert Run(s, fill + clash).lost != [];
    }
  }

  lemma {:induction false} NeverFull(s: State, steps: seq<Step>)
    requires s.capacity <= 0 || |s.publishers| == 0
    ensures Run(s, steps).lost == s.lost
    decreases |steps|
  {
    if |steps| > 0 {
      NeverFull(Next(s, steps[0]), steps[1..]);
    }
  }

  // ----- the exporter object

  datatype PublishError = SerializationFailed

  /** The exporter with one publisher, each method run without interference. */
  class MapTcpExporter {
    const capacity: int
    var scheduledKeys: set<Key>
    var queue: seq<Message>
    var pending: Option<Message>
    ghost var sent: seq<Message>
    ghost var put: seq<Message>
    ghost var lost: seq<Message>

    ghost function Snap(): State
      reads this
    {
      State(capacity, [Idle], scheduledKeys, queue, pending, sent, put, lost)
    }

    ghost predicate Valid()
      reads this
    {
      Accounted(Snap()) && OnePublisher(Snap())
    }

    constructor (capacity: int)
      ensures Valid() && Snap() == Start(capacity, 1)
    {
      this.capacity := capacity;
      scheduledKeys, queue, pending, sent, put, lost := {}, [], None, [], [], [];
      new;
      StartAccounts(capacity, 1);
      assert Start(capacity, 1).publishers == [Idle];
    }

    /** `put_nowait` */
    method PutNowait(m: Message) returns (ok: bool)
      modifies this`queue, this`put
      ensures ok == old(HasRoom(Snap()))
      ensures ok ==> queue == old(queue) + [m] && put == old(put) + [m]
      ensures !ok ==> queue == old(queue) && put == old(put)
    {
      ok := capacity <= 0 || |queue| < capacity;
      if ok {
        queue, put := queue + [m], put + [m];
      }
    }

    /** `has_map_for_scene`: whether a map with this key is in one of the places a scheduled map can be. */
    method HasMapForScene(scene: string, mapId: Option<string>) returns (scheduled: bool)
      requires Valid()
      ensures var key := KeyOf(Message(scene, if mapId.Some? then mapId.value else ""));
              && (scheduled <==> Places(Snap(), key) == 1)
              && (scheduled <==>
                    || key in Keys(queue)
                    || key in Keys(sent)
                    || (pending.Some? && KeyOf(pending.value) == key))
    {
      hide KeyOf, NewestQueued, NewestAlive, Accounted;
      var key := KeyOf(Message(scene, if mapId.Some? then mapId.value else ""));
      scheduled := key in scheduledKeys;
      KeyIsSomewhere(Snap(), key);
    }

    /**
     * `publish_vector_map`; `vectorMap` is the map's id, if there is a map, and `serializes` whether it can be
     * serialized.
     */
    method PublishVectorMap(scene: string, vectorMap: Option<string>, serializes: bool)
        returns (r: Result<bool, PublishError>)
      requires Valid()
      modifies this
      ensures Valid()
      ensures vectorMap.None? ==> r == Ok(false) && Snap() == old(Snap())
      ensures vectorMap.Some? ==>
                var m := Message(scene, vectorMap.value);
                && Snap() == Run(old(Snap()), PublishSteps(m, serializes))
                && (r.Ok? ==> r.value == (KeyOf(m) !in old(scheduledKeys)) && KeyOf(m) in scheduledKeys)
                && (r.Err? ==> !serializes && KeyOf(m) !in old(scheduledKeys) && Snap() == old(Snap()))
                && (r == Ok(true) ==> queue == MadeRoom(old(Snap())) + [m])
    {
      hide Run, Accounted, OnePublisher, Next, KeyOf, MadeRoom, PublishSteps;
      if vectorMap.None? {
        return Ok(false);
      }
      var m := Message(scene, vectorMap.value);
      ghost var before := Snap();
      WholePublish(before, m, serializes);
      WithinBound(before);
      var key := KeyOf(m);
      if key in scheduledKeys {
        return Ok(false);
      }
      scheduledKeys := scheduledKeys + {key};
      if !serializes {
        scheduledKeys := scheduledKeys - {key};
        assert scheduledKeys == before.scheduled;
        return Err(SerializationFailed);
      }
      var ok := PutNowait(m);
      if !ok {
        if |queue| > 0 {
          var replaced := queue[0];
          queue := queue[1..];
          scheduledKeys := scheduledKeys - {KeyOf(replaced)};
        }
        ok := PutNowait(m);
        assert ok; // the second put does not raise
      }
      r := Ok(true);
    }

    /** One pass of `_worker`: take a map if none is pending, then try to send it. */
    method WorkerPass(delivered: bool)
      requires Valid()
      modifies this
      ensures Valid() && Snap() == Run(old(Snap()), [Take, Send(delivered)])
      ensures var out := (if old(pending).Some? then [old(pending).value] else []) + old(queue);
              if |out| == 0 then sent == old(sent)
              else if delivered then sent == old(sent) + [out[0]] && pending == None && queue == out[1..]
              else sent == old(sent) && pending == Some(out[0]) && queue == out[1..]
    {
      hide Run, Accounted, OnePublisher;
      WholePass(Snap(), delivered);
      if pending.None? {
        if |queue| == 0 {
          return;
        }
        pending, queue := Some(queue[0]), queue[1..];
      }
      if delivered {
        sent, pending := sent + [pending.value], None;
      }
    }
  }

  /** Between two publications a scheduled key is queued, pending or sent, and no other key is. */
  lemma KeyIsSomewhere(s: State, key: Key)
    requires Accounted(s) && s.publishers == [Idle] && s.lost == []
    ensures key in s.scheduled <==> Places(s, key) == 1
    ensures Places(s, key) == 1 <==>
            key in Keys(s.queue) || key in Keys(s.sent) || (s.pending.Some? && KeyOf(s.pending.value) == key)
  {
    NoneHeld(s.publishers, key);
    assert Places(s, key) == if key in s.scheduled then 1 else 0;
    assert Count(s.lost, key) == 0;
    assert key in Keys(s.queue) <==> Count(s.queue, key) > 0;
    assert key in Keys(s.sent) <==> Count(s.sent, key) > 0;
  }

  function PublishSteps(m: Message, serializes: bool): seq<Step> {
    [Publish(0, m), Serialize(0, serializes), Put(0)] + [Evict(0), Free(0), PutAgain(0)]
  }

  /** The queue without its oldest map, if there is no room for another one. */
  function MadeRoom(s: State): seq<Message> {
    if 0 < s.capacity <= |s.queue| then s.queue[1..] else s.queue
  }

  /** The six steps of one publisher in a row, as publish_vector_map takes them. */
  lemma WholePublish(s: State, m: Message, serializes: bool)
    requires Accounted(s) && OnePublisher(s) && s.publishers == [Idle]
    ensures var t := Run(s, PublishSteps(m, serializes));
            && Accounted(t) && OnePublisher(t)
            && (KeyOf(m) in s.scheduled || !serializes ==> t == s)
            && (KeyOf(m) !in s.scheduled && serializes ==> t.queue == MadeRoom(s) + [m])
            && (KeyOf(m) !in s.scheduled && serializes && HasRoom(s) ==>
                 t == Enqueued(s.(scheduled := s.scheduled + {KeyOf(m)}), m))
            && (KeyOf(m) !in s.scheduled && serializes && !HasRoom(s) ==>
                  |s.queue| > 0 && KeyOf(m) != KeyOf(s.queue[0])
                  && t == Enqueued(s.(scheduled := s.scheduled + {KeyOf(m)} - {KeyOf(s.queue[0])},
                                      queue := s.queue[1..]), m))
  {
    hide Next, Accounted, HasRoom, KeyOf;
    var first, second := [Publish(0, m), Serialize(0, serializes), Put(0)], [Evict(0), Free(0), PutAgain(0)];
    RunAccounts(s, PublishSteps(m, serializes));
    OnePublisherRun(s, PublishSteps(m, serializes));
    if |s.queue| > 0 {
      QueuedIsScheduled(s);
    }
    RunOn(s, first, second);
    ThreeSteps(s, first);
    PutSteps(s, m, serializes);
    ThreeSteps(Run(s, first), second);
    EvictSteps(Run(s, first));
    RoomWhenEmpty(s);
  }

  lemma WithinBound(s: State)
    requires OnePublisher(s)
    ensures s.capacity > 0 ==> |s.queue| <= s.capacity
  {
  }

  lemma RoomWhenEmpty(s: State)
    ensures !HasRoom(s) ==> |s.queue| > 0
  {
  }

  /** The last three steps after the first three. */
  lemma EvictSteps(s: State)
    requires |s.publishers| == 1 && (s.publishers[0].Idle? || s.publishers[0].Full?)
    requires s.publishers[0].Full? ==> s.capacity > 0 && |s.queue| == s.capacity
    ensures var t := Next(Next(Next(s, Evict(0)), Free(0)), PutAgain(0));
            t == if s.publishers[0].Idle? then s
                 else Enqueued(s.(publishers := [Idle], scheduled := s.scheduled - {KeyOf(s.queue[0])},
                                  queue := s.queue[1..]), s.publishers[0].message)
  {
    if s.publishers[0].Full? {
      var t := Next(s, Evict(0));
      assert t.publishers[0] == Evicting(s.publishers[0].message, s.queue[0]) && |t.queue| < t.capacity;
      var u := Next(t, Free(0));
      assert u.publishers[0] == Retry(s.publishers[0].message);
      assert Next(u, PutAgain(0)).publishers == [Idle];
    }
  }

  lemma PutSteps(s: State, m: Message, serializes: bool)
    requires s.publishers == [Idle] && (s.capacity > 0 ==> |s.queue| <= s.capacity)
    ensures var t := Next(Next(Next(s, Publish(0, m)), Serialize(0, serializes)), Put(0));
            t == if KeyOf(m) in s.scheduled || !serializes then s
                 else if HasRoom(s) then Enqueued(s.(scheduled := s.scheduled + {KeyOf(m)}), m)
                 else s.(scheduled := s.scheduled + {KeyOf(m)}, publishers := [Full(m)])
    ensures !HasRoom(s) ==> s.capacity > 0 && |s.queue| == s.capacity
  {
    assert KeyOf(m) !in s.scheduled ==> s.scheduled + {KeyOf(m)} - {KeyOf(m)} == s.scheduled;
    assert s.publishers[0 := Idle] == s.publishers;
  }

  lemma QueuedIsScheduled(s: State)
    requires Accounted(s) && |s.queue| > 0
    ensures KeyOf(s.queue[0]) in s.scheduled
  {
    hide HeldBy, KeyOf, Count;
    CountTail(s.queue, KeyOf(s.queue[0]));
    assert Places(s, KeyOf(s.queue[0])) >= 1;
  }

  lemma WholePass(s: State, delivered: bool)
    requires Accounted(s) && OnePublisher(s)
    ensures var steps := [Take, Send(delivered)];
            Accounted(Run(s, steps)) && OnePublisher(Run(s, steps))
              && Run(s, steps) == Next(Next(s, Take), Send(delivered))
  {
    hide Next, Accounted, OnePublisher;
    var steps := [Take, Send(delivered)];
    RunAccounts(s, steps);
    OnePublisherRun(s, steps);
    assert steps[1..] == [Send(delivered)];
    RunOne(Next(s, Take), Send(delivered));
  }
}
