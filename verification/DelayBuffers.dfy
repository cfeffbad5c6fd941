/**
 Delaying a stream of timestamped items (src/runtime/alpasim_runtime/delay_buffer.py).

 The buffer drops items as it answers. The reference is the full history of accepted adds,
 from which nothing is ever dropped.
 */
module DelayBuffers {
  import opened Wrappers

  datatype Item<T> = Item(time: int, value: T)

  datatype AddError = NotAscending

  predicate TimesAscend<T>(h: seq<Item<T>>) {
    forall i, j :: 0 <= i < j < |h| ==> h[i].time < h[j].time
  }

  /** The reference: the latest item stamped no later than `due`, or the first one if there is none. */
  function LatestReady<T>(h: seq<Item<T>>, due: int): Option<Item<T>>
  {
    if |h| == 0 then None
    else if |h| == 1 || h[|h| - 1].time <= due then Some(h[|h| - 1])
    else LatestReady(h[..|h| - 1], due)
  }

  lemma {:induction false} LatestReadyMeans<T>(h: seq<Item<T>>, due: int)
    requires |h| > 0 && TimesAscend(h)
    ensures var r := LatestReady(h, due);
            && r.Some? && r.value in h
            && (r.value.time <= due ==> forall x :: x in h && x.time <= due ==> x.time <= r.value.time)
            && (r.value.time > due ==> r.value == h[0] && forall x :: x in h ==> x.time > due)
  {
    if |h| > 1 && h[|h| - 1].time > due {
      assert h == h[..|h| - 1] + [h[|h| - 1]];
      LatestReadyMeans(h[..|h| - 1], due);
    }
  }

  /** How many items a query drops: the head goes while the item after it is ready. */
  function Stale<T>(queue: seq<Item<T>>, due: int): (n: nat)
    ensures |queue| == 0 ==> n == 0
    ensures |queue| > 0 ==> n < |queue|
    ensures n > 0 ==> queue[n].time <= due
    ensures n + 1 < |queue| ==> queue[n + 1].time > due
  {
    if |queue| > 1 && queue[1].time <= due then 1 + Stale(queue[1..], due) else 0
  }

  /** What a query at `due` leaves in the queue. */
  function Kept<T>(queue: seq<Item<T>>, due: int): seq<Item<T>> {
    queue[Stale(queue, due)..]
  }

  function Head<T>(queue: seq<Item<T>>): Option<Item<T>> {
    if |queue| > 0 then Some(queue[0]) else None
  }

  /** Which item of an ascending history the reference picks. */
  lemma {:induction false} LatestReadyAt<T>(h: seq<Item<T>>, due: int, i: nat)
    requires TimesAscend(h) && i < |h| && (i == 0 || h[i].time <= due) && (i + 1 < |h| ==> h[i + 1].time > due)
    ensures LatestReady(h, due) == Some(h[i])
  {
    if i + 1 < |h| {
      LatestReadyAt(h[..|h| - 1], due, i);
    }
  }

  lemma KeptIsSuffix<T>(history: seq<Item<T>>, dropped: nat, due: int)
    requires dropped <= |history|
    ensures var r := Kept(history[dropped..], due);
            |r| <= |history| - dropped && r == history[|history| - |r|..] && (|r| > 0 <==> dropped < |history|)
  {
    hide Stale;
  }

  /**
   * With `dropped` items gone, the buffer answers from the full history exactly when nothing it still needs is
   * gone.
   */
  lemma AnswerIsLatestReady<T>(history: seq<Item<T>>, dropped: nat, due: int)
    requires TimesAscend(history) && dropped <= |history| && (|history| > 0 ==> dropped < |history|)
    ensures Head(Kept(history[dropped..], due)) == LatestReady(history, due)
            <==> dropped == 0 || history[dropped].time <= due
  {
    hide Stale;
    if |history| > 0 {
      var i := dropped + Stale(history[dropped..], due);
      if i == 0 || history[i].time <= due {
        LatestReadyAt(history, due, i);
      } else {
        assert i == dropped;
        var r := LatestReady(history, due);
        LatestReadyMeans(history, due);
        assert history[0].time < history[i].time;
        assert r.value.time <= due || r.value == history[0];
      }
    }
  }

  lemma StaleStep<T>(queue: seq<Item<T>>, due: int)
    ensures Stale(queue, due) == if |queue| > 1 && queue[1].time <= due then 1 + Stale(queue[1..], due) else 0
  {
  }

  // ----- every run

  datatype Event<T> = Add(item: Item<T>) | Query(now: int)

  datatype Reply<T> = Accepted | Rejected | Answered(item: Option<Item<T>>)

  predicate Accepts<T>(queue: seq<Item<T>>, item: Item<T>) {
    |queue| == 0 || queue[|queue| - 1].time < item.time
  }

  /** The replies of the buffer. */
  function Replies<T>(queue: seq<Item<T>>, delay: int, events: seq<Event<T>>): seq<Reply<T>>
    decreases |events|
  {
    if |events| == 0 then []
    else match events[0]
      case Add(item) =>
        if Accepts(queue, item) then [Accepted] + Replies(queue + [item], delay, events[1..])
        else [Rejected] + Replies(queue, delay, events[1..])
      case Query(now) =>
        var kept := Kept(queue, now - delay);
        [Answered(Head(kept))] + Replies(kept, delay, events[1..])
  }

  /** The replies of a buffer that never forgets. */
  function ReferenceReplies<T>(history: seq<Item<T>>, delay: int, events: seq<Event<T>>): seq<Reply<T>>
    decreases |events|
  {
    if |events| == 0 then []
    else match events[0]
      case Add(item) =>
        if Accepts(history, item) then [Accepted] + ReferenceReplies(history + [item], delay, events[1..])
        else [Rejected] + ReferenceReplies(history, delay, events[1..])
      case Query(now) =>
        [Answered(LatestReady(history, now - delay))] + ReferenceReplies(history, delay, events[1..])
  }

  /** What a buffer that never forgets holds after some events: the items later than all before them. */
  ghost function HistoryAfter<T>(history: seq<Item<T>>, events: seq<Event<T>>): seq<Item<T>>
    decreases |events|
  {
    if |events| == 0 then history
    else if events[0].Add? && AllBefore(history, events[0].item.time) then
      HistoryAfter(history + [events[0].item], events[1..])
    else HistoryAfter(history, events[1..])
  }

  predicate AllBefore<T>(h: seq<Item<T>>, time: int) {
    forall i :: 0 <= i < |h| ==> h[i].time < time
  }

  /** The latest item that is at least the delay old, or the first item when none is. */
  ghost predicate IsAnswer<T>(h: seq<Item<T>>, delay: int, now: int, r: Option<Item<T>>) {
    && (r.None? <==> h == [])
    && (r.Some? ==> r.value in h)
    && (r.Some? && r.value.time + delay <= now ==>
          forall i :: 0 <= i < |h| && h[i].time + delay <= now ==> h[i].time <= r.value.time)
    && (r.Some? && r.value.time + delay > now ==>
          r.value == h[0] && forall i :: 0 <= i < |h| ==> h[i].time + delay > now)
  }

  lemma LaterThanAll<T>(h: seq<Item<T>>, item: Item<T>)
    requires TimesAscend(h)
    ensures Accepts(h, item) <==> AllBefore(h, item.time)
    ensures Accepts(h, item) ==> TimesAscend(h + [item])
  {
  }

  lemma LatestIsAnswer<T>(h: seq<Item<T>>, delay: int, now: int)
    requires TimesAscend(h)
    ensures IsAnswer(h, delay, now, LatestReady(h, now - delay))
  {
    if |h| > 0 {
      hide LatestReady;
      LatestReadyMeans(h, now - delay);
      assert forall i :: 0 <= i < |h| ==> h[i] in h;
    }
  }

  /** Each reply of the buffer that never forgets, from what it holds by then. */
  lemma {:induction false} ReferenceReplyIs<T>(history: seq<Item<T>>, delay: int, events: seq<Event<T>>, k: nat)
    requires TimesAscend(history) && k < |events|
    ensures |ReferenceReplies(history, delay, events)| == |events|
    ensures var h, r := HistoryAfter(history, events[..k]), ReferenceReplies(history, delay, events)[k];
            && (events[k].Add? ==> r == if AllBefore(h, events[k].item.time) then Accepted else Rejected)
            && (events[k].Query? ==> r.Answered? && IsAnswer(h, delay, events[k].now, r.item))
    decreases |events|
  {
    hide LatestReady, Accepts, IsAnswer, AllBefore;
    assert k > 0 ==> events[..k][0] == events[0] && events[..k][1..] == events[1..][..k - 1];
    var more := history;
    if events[0].Add? {
      LaterThanAll(history, events[0].item);
      more := if Accepts(history, events[0].item) then history + [events[0].item] else history;
    } else {
      LatestIsAnswer(history, delay, events[0].now);
    }
    if |events| > 1 {
      ReferenceReplyIs(more, delay, events[1..], if k > 0 then k - 1 else 0);
    }
  }

  /** Query times never go back, starting from `from`. */
  predicate QueriesAdvance<T>(events: seq<Event<T>>, from: int)
    decreases |events|
  {
    |events| == 0 ||
    match events[0]
    case Add(_) => QueriesAdvance(events[1..], from)
    case Query(now) => from <= now && QueriesAdvance(events[1..], now)
  }

  /**
   * The buffer's queue is what is left of the history after dropping `dropped` items, none of them needed
   * after `from`.
   */
  ghost predicate Remembers<T>(history: seq<Item<T>>, dropped: nat, due: int) {
    TimesAscend(history) && dropped <= |history| && (|history| > 0 ==> dropped < |history|)
      && (dropped > 0 ==> history[dropped].time <= due)
  }

  lemma AddKeeps<T>(history: seq<Item<T>>, dropped: nat, due: int, item: Item<T>)
    requires Remembers(history, dropped, due) && dropped <= |history|
    ensures Accepts(history[dropped..], item) == Accepts(history, item)
    ensures Accepts(history, item) ==>
              Remembers(history + [item], dropped, due) && history[dropped..] + [item] == (history + [item])[dropped..]
  {
  }

  lemma QueryKeeps<T>(history: seq<Item<T>>, dropped: nat, from: int, due: int) returns (now: nat)
    requires Remembers(history, dropped, from) && dropped <= |history| && from <= due
    ensures now <= |history| && Remembers(history, now, due) && Kept(history[dropped..], due) == history[now..]
    ensures Head(history[now..]) == LatestReady(history, due)
  {
    hide LatestReady, Stale;
    now := dropped + Stale(history[dropped..], due);
    AnswerIsLatestReady(history, dropped, due);
  }

  lemma RepliesToNothing<T>(queue: seq<Item<T>>, history: seq<Item<T>>, delay: int, events: seq<Event<T>>)
    requires events == []
    ensures Replies(queue, delay, events) == [] && ReferenceReplies(history, delay, events) == []
  {
  }

  lemma RepliesToQuery<T>(queue: seq<Item<T>>, history: seq<Item<T>>, delay: int, events: seq<Event<T>>, now: int,
        from: int)
    requires |events| > 0 && events[0] == Query(now)
    ensures Replies(queue, delay, events)
            == [Answered(Head(Kept(queue, now - delay)))] + Replies(Kept(queue, now - delay), delay, events[1..])
    ensures ReferenceReplies(history, delay, events)
            == [Answered(LatestReady(history, now - delay))] + ReferenceReplies(history, delay, events[1..])
    ensures QueriesAdvance(events, from) ==> from <= now && QueriesAdvance(events[1..], now)
  {
    hide LatestReady, Kept, Head;
  }

  lemma RepliesToAdd<T>(queue: seq<Item<T>>, history: seq<Item<T>>, delay: int, events: seq<Event<T>>, item: Item<T>,
        from: int)
    requires |events| > 0 && events[0] == Add(item) && Accepts(queue, item) == Accepts(history, item)
    ensures Accepts(history, item) ==>
              && Replies(queue, delay, events) == [Accepted] + Replies(queue + [item], delay, events[1..])
              && ReferenceReplies(history, delay, events)
                 == [Accepted] + ReferenceReplies(history + [item], delay, events[1..])
    ensures !Accepts(history, item) ==>
              && Replies(queue, delay, events) == [Rejected] + Replies(queue, delay, events[1..])
              && ReferenceReplies(history, delay, events) == [Rejected] + ReferenceReplies(history, delay, events[1..])
    ensures QueriesAdvance(events, from) ==> QueriesAdvance(events[1..], from)
  {
    hide Accepts;
  }

  lemma {:induction false} PoppingChangesNothingFrom<T>(history: seq<Item<T>>, dropped: nat, delay: int,
        events: seq<Event<T>>, from: int)
    requires Remembers(history, dropped, from - delay) && dropped <= |history| && QueriesAdvance(events, from)
    ensures Replies(history[dropped..], delay, events) == ReferenceReplies(history, delay, events)
    decreases |events|
  {
    hide *;
    if |events| == 0 {
      RepliesToNothing(history[dropped..], history, delay, events);
    } else {
      match events[0]
      case Add(item) =>
        AddKeeps(history, dropped, from - delay, item);
        RepliesToAdd(history[dropped..], history, delay, events, item, from);
        if Accepts(history, item) {
          PoppingChangesNothingFrom(history + [item], dropped, delay, events[1..], from);
        } else {
          PoppingChangesNothingFrom(history, dropped, delay, events[1..], from);
        }
      case Query(now) =>
        RepliesToQuery(history[dropped..], history, delay, events, now, from);
        var left := QueryKeeps(history, dropped, from - delay, now - delay);
        PoppingChangesNothingFrom(history, left, delay, events[1..], now);
    }
  }

  /** For any interleaving of adds and queries with non-decreasing query times, dropping items changes no reply. */
  lemma PoppingChangesNothing<T>(delay: int, events: seq<Event<T>>, from: int)
    requires QueriesAdvance(events, from)
    ensures Replies([], delay, events) == ReferenceReplies([], delay, events)
  {
    var none: seq<Item<T>> := [];
    PoppingChangesNothingFrom(none, 0, delay, events, from);
    assert none[0..] == none;
  }

  /** A query that goes back in time can be answered with an item that was not ready yet. */
  lemma GoingBackCanDiffer()
    ensures var history, later, earlier := [Item(0, 'a'), Item(10, 'b')], 10, 5;
            && Head(Kept(Kept(history, later), earlier)) == Some(Item(10, 'b'))
            && LatestReady(history, earlier) == Some(Item(0, 'a'))
  {
    var history := [Item(0, 'a'), Item(10, 'b')];
    assert Stale(history, 10) == 1 && history[1..] == [Item(10, 'b')];
    LatestReadyAt(history, 5, 0);
  }

  // ----- the buffer object

  class DelayBuffer<T> {
    const delay: int
    var queue: seq<Item<T>>
    ghost var history: seq<Item<T>>

    ghost predicate Valid()
      reads this
    {
      && TimesAscend(history) && |queue| <= |history| && queue == history[|history| - |queue|..]
      && (|history| > 0 ==> |queue| > 0)
    }

    constructor (delay: int)
      ensures Valid() && this.delay == delay && queue == [] && history == []
    {
      this.delay := delay;
      queue, history := [], [];
    }

    method Add(value: T, time: int) returns (r: Result<(), AddError>)
      requires Valid()
      modifies this
      ensures Valid()
      ensures r.Ok? <==> forall i :: 0 <= i < |old(history)| ==> old(history)[i].time < time
      ensures r.Ok? ==> history == old(history) + [Item(time, value)] && queue == old(queue) + [Item(time, value)]
      ensures r.Err? ==> history == old(history) && queue == old(queue)
    {
      LaterThanAll(history, Item(time, value));
      if |queue| > 0 && time <= queue[|queue| - 1].time {
        return Err(NotAscending);
      }
      queue := queue + [Item(time, value)];
      history := history + [Item(time, value)];
      return Ok(());
    }

    /** The loop of `item_at`. */
    method DropStale(now: int)
      modifies this`queue
      ensures queue == Kept(old(queue), now - delay)
    {
      hide Stale;
      ghost var due, k := now - delay, 0;
      while |queue| > 1 && now - queue[1].time >= delay
        invariant k <= |old(queue)| && queue == old(queue)[k..]
        invariant k + Stale(queue, due) == Stale(old(queue), due)
        decreases |queue|
      {
        StaleStep(queue, due);
        queue, k := queue[1..], k + 1;
      }
      StaleStep(queue, due);
    }

    /** `item_at`: answered from the full history exactly when nothing was dropped or the head is ready. */
    method ItemAt(now: int) returns (r: Option<Item<T>>)
      requires Valid()
      modifies this`queue
      ensures Valid() && queue == Kept(old(queue), now - delay)
      ensures r == Head(queue)
      ensures r == LatestReady(history, now - delay)
              <==> |old(queue)| == |history| || old(queue)[0].time <= now - delay
    {
      hide LatestReady, Kept, TimesAscend;
      var dropped := |history| - |queue|;
      AnswerIsLatestReady(history, dropped, now - delay);
      KeptIsSuffix(history, dropped, now - delay);
      DropStale(now);
      r := if |queue| > 0 then Some(queue[0]) else None;
    }

    /** `at`: the item without its timestamp. */
    method At(now: int) returns (r: Option<T>)
      requires Valid()
      modifies this`queue
      ensures Valid() && queue == Kept(old(queue), now - delay)
      ensures r == if |queue| > 0 then Some(queue[0].value) else None
    {
      var item := ItemAt(now);
      r := if item.Some? then Some(item.value.value) else None;
    }
  }
}
