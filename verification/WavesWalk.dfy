/** The Waves cacher's walk along the chain of orders (cacher/waves.go:46-94). Neither
    `continue` of the loop moves on to another order, so the walk may never end. */
module WavesWalk {
  import opened Models
  import opened Node

  /** One snapshot of the contract state: the orders by id, each naming the one before. */
  type Items = map<string, WavesItem>

  /** Before an iteration at some order, after the break, or stopped by a missing entry. */
  datatype Walk =
    | At(orderId: string, requests: Requests)
    | Broke(requests: Requests)
    | Panicked(requests: Requests)

  /** Not deep enough yet: the loop stays at the order. */
  ghost predicate Skips(cfg: Config, height: int, item: WavesItem) {
    height < item.height + cfg.wavesDepth
  }

  /** Deep enough and past the timeout: the loop ends. */
  ghost predicate Ends(cfg: Config, height: int, item: WavesItem) {
    item.height + cfg.wavesDepth <= height && item.height + cfg.rqTimeout < height
  }

  ghost predicate InWindow(cfg: Config, height: int, item: WavesItem) {
    item.height + cfg.wavesDepth <= height <= item.height + cfg.rqTimeout
  }

  function Iterate1(cfg: Config, height: int, items: Items, w: Walk): Walk {
    match w
    case Broke(_) => w
    case Panicked(_) => w
    case At(id, requests) =>
      if id !in items then Panicked(requests)
      else if Unconfirmed(items[id].height, height, cfg.wavesDepth) then w
      else if Expired(items[id].height, height, cfg.rqTimeout) then Broke(requests)
      else if id in requests then At(id, requests[id := requests[id].(status := items[id].status)])
      else At(items[id].prev, requests[id := WavesRow(id, items[id])])
  }

  function Iterate(cfg: Config, height: int, items: Items, w: Walk, n: nat): Walk
    decreases n
  {
    if n == 0 then w else Iterate(cfg, height, items, Iterate1(cfg, height, items, w), n - 1)
  }

  lemma {:induction false} IterateSplit(cfg: Config, height: int, items: Items, w: Walk, m: nat, n: nat)
    ensures Iterate(cfg, height, items, w, m + n) == Iterate(cfg, height, items, Iterate(cfg, height, items, w, m), n)
    decreases m
  {
    if m > 0 { IterateSplit(cfg, height, items, Iterate1(cfg, height, items, w), m - 1, n); }
  }

  ghost predicate Fixed(cfg: Config, height: int, items: Items, w: Walk) {
    Iterate1(cfg, height, items, w) == w
  }

  lemma {:induction false} FixedForever(cfg: Config, height: int, items: Items, w: Walk, n: nat)
    requires Fixed(cfg, height, items, w)
    ensures Iterate(cfg, height, items, w, n) == w
  {
    if n > 0 { FixedForever(cfg, height, items, w, n - 1); }
  }

  // ----- every walk settles -----

  ghost predicate Inserts(cfg: Config, height: int, items: Items, w: Walk) {
    && w.At? && w.orderId in items && w.orderId !in w.requests
    && InWindow(cfg, height, items[w.orderId])
  }

  /** An iteration inserts a row that was missing, or a second one changes nothing. */
  lemma InsertsOrSettles(cfg: Config, height: int, items: Items, w: Walk)
    ensures var w1 := Iterate1(cfg, height, items, w);
      if Inserts(cfg, height, items, w) then
        w1 == At(items[w.orderId].prev, w.requests[w.orderId := WavesRow(w.orderId, items[w.orderId])])
      else
        && Fixed(cfg, height, items, w1)
        && w1.requests.Keys == w.requests.Keys
        && forall id <- w.requests :: SameButStatus(w.requests[id], w1.requests[id])
  {
    if w.At? && w.orderId in items && w.orderId in w.requests {
      var w1 := Iterate1(cfg, height, items, w);
      assert w1.At? ==> w1.requests[w.orderId := w1.requests[w.orderId]] == w1.requests;
    }
  }

  /** The snapshot rows not yet cached are among these. */
  ghost predicate Covers(items: Items, requests: Requests, missing: set<string>) {
    forall id <- items :: id in requests || id in missing
  }

  lemma OneIteration(cfg: Config, height: int, items: Items, w: Walk, n: nat)
    requires n > 0
    ensures Iterate(cfg, height, items, w, n) == Iterate(cfg, height, items, Iterate1(cfg, height, items, w), n - 1)
  {
  }

  lemma {:induction false} SettlesWithin(cfg: Config, height: int, items: Items, w: Walk, n: nat, missing: set<string>)
    requires Covers(items, w.requests, missing) && n > |missing|
    ensures Fixed(cfg, height, items, Iterate(cfg, height, items, w, n))
    decreases n
  {
    var w1 := Iterate1(cfg, height, items, w);
    InsertsOrSettles(cfg, height, items, w);
    OneIteration(cfg, height, items, w, n);
    if Inserts(cfg, height, items, w) {
      assert w.orderId in missing;
      SettlesWithin(cfg, height, items, w1, n - 1, missing - {w.orderId});
    } else {
      FixedForever(cfg, height, items, w1, n - 1);
    }
  }

  /** Even on a cyclic chain the walk reaches a state it never leaves, after one iteration
      for each snapshot row still missing and at most one more. */
  lemma Settles(cfg: Config, height: int, items: Items, w: Walk, n: nat)
    requires n > |items.Keys - w.requests.Keys|
    ensures Fixed(cfg, height, items, Iterate(cfg, height, items, w, n))
  {
    SettlesWithin(cfg, height, items, w, n, items.Keys - w.requests.Keys);
  }

  /** The ids inserted by the first n iterations, in order. */
  ghost function Inserted(cfg: Config, height: int, items: Items, w: Walk, n: nat): seq<string>
    decreases n
  {
    if n == 0 then []
    else
      var w1 := Iterate1(cfg, height, items, w);
      (if Inserts(cfg, height, items, w) then [w.orderId] else [])
      + Inserted(cfg, height, items, w1, n - 1)
  }

  /** From table `before`, the rows of these orders were added, each once and showing its
      order, up to the status; a row that was there keeps all its fields but the status, and nothing else is there. */
  ghost predicate Added(items: Items, before: Requests, after: Requests, ids: seq<string>) {
    && (forall i, j :: 0 <= i < j < |ids| ==> ids[i] != ids[j])
    && (forall id <- ids :: id !in before && id in items)
    && (forall id <- before :: id in after && SameButStatus(before[id], after[id]))
    && (forall id <- after :: id in before || id in ids)
    && (forall id <- ids :: id in after && ShowsWaves(after[id].(status := items[id].status), id, items[id]))
  }

  lemma AddedOneMore(items: Items, before: Requests, id: string, after: Requests, ids: seq<string>)
    requires id !in before && id in items
    requires Added(items, before[id := WavesRow(id, items[id])], after, ids)
    ensures Added(items, before, after, [id] + ids)
  {
  }

  lemma AddedNoMore(items: Items, before: Requests, next: Requests, after: Requests, ids: seq<string>)
    requires before.Keys == next.Keys && forall id <- before :: SameButStatus(before[id], next[id])
    requires Added(items, next, after, ids)
    ensures Added(items, before, after, ids)
  {
  }

  /** However long the walk goes on, no order is inserted twice. */
  lemma {:induction false} InsertsOnce(cfg: Config, height: int, items: Items, w: Walk, n: nat)
    ensures Added(items, w.requests, Iterate(cfg, height, items, w, n).requests, Inserted(cfg, height, items, w, n))
    decreases n
  {
    if n > 0 {
      var w1 := Iterate1(cfg, height, items, w);
      var after, ids := Iterate(cfg, height, items, w1, n - 1).requests, Inserted(cfg, height, items, w1, n - 1);
      InsertsOnce(cfg, height, items, w1, n - 1);
      InsertsOrSettles(cfg, height, items, w);
      if Inserts(cfg, height, items, w) {
        AddedOneMore(items, w.requests, w.orderId, after, ids);
      } else {
        AddedNoMore(items, w.requests, w1.requests, after, ids);
      }
    }
  }

  // ----- when the walk ends -----

  /** From head, confirmed and unexpired orders, none cached and none met twice, up to a
      confirmed order that has expired. */
  ghost predicate ClearPath(cfg: Config, height: int, items: Items, requests: Requests, head: string, path: seq<string>) {
    && |path| >= 1 && path[0] == head
    && path[|path| - 1] in items && Ends(cfg, height, items[path[|path| - 1]])
    && (forall i :: 0 <= i < |path| - 1 ==>
          path[i] in items && InWindow(cfg, height, items[path[i]]) && items[path[i]].prev == path[i + 1])
    && (forall i :: 0 <= i < |path| - 1 ==> path[i] !in requests)
    && (forall i, j :: 0 <= i < j < |path| - 1 ==> path[i] != path[j])
  }

  /** The table with the rows of these orders added. */
  function WithRows(items: Items, requests: Requests, ids: seq<string>): Requests
    requires forall i :: 0 <= i < |ids| ==> ids[i] in items
  {
    requests + map id | id in ids :: WavesRow(id, items[id])
  }

  lemma ClearPathTail(cfg: Config, height: int, items: Items, requests: Requests, head: string, path: seq<string>)
    requires ClearPath(cfg, height, items, requests, head, path) && |path| > 1
    ensures ClearPath(cfg, height, items, requests[head := WavesRow(head, items[head])], items[head].prev, path[1..])
  {
    var rest := path[1..];
    assert forall i :: 0 <= i < |rest| ==> rest[i] == path[i + 1];
  }

  lemma WithRowsTail(items: Items, requests: Requests, head: string, tail: seq<string>)
    requires head in items && head !in tail && forall i :: 0 <= i < |tail| ==> tail[i] in items
    ensures forall i :: 0 <= i < |[head] + tail| ==> ([head] + tail)[i] in items
    ensures WithRows(items, requests, [head] + tail) == WithRows(items, requests[head := WavesRow(head, items[head])], tail)
  {
  }

  lemma ClearHead(cfg: Config, height: int, items: Items, requests: Requests, head: string, path: seq<string>)
    requires ClearPath(cfg, height, items, requests, head, path)
    ensures forall i :: 0 <= i < |path| - 1 ==> path[i] in items
    ensures Iterate1(cfg, height, items, At(head, requests)) ==
      if |path| == 1 then Broke(requests)
      else At(items[head].prev, requests[head := WavesRow(head, items[head])])
  {
  }

  /** The rows of a path are its head's and those of the rest. */
  lemma PathRows(cfg: Config, height: int, items: Items, requests: Requests, head: string, path: seq<string>)
    requires ClearPath(cfg, height, items, requests, head, path) && |path| > 1
    ensures forall i :: 0 <= i < |path| - 1 ==> path[i] in items
    ensures forall i :: 0 <= i < |path[1..]| - 1 ==> path[1..][i] in items
    ensures WithRows(items, requests, path[..|path| - 1]) ==
      WithRows(items, requests[head := WavesRow(head, items[head])], path[1..][..|path[1..]| - 1])
  {
    var tail := path[1..][..|path[1..]| - 1];
    assert path[..|path| - 1] == [head] + tail;
    assert forall i :: 0 <= i < |tail| ==> tail[i] == path[i + 1];
    WithRowsTail(items, requests, head, tail);
  }

  /** The walk along a path breaks off with the rows of the path added. */
  ghost predicate BreaksWith(cfg: Config, height: int, items: Items, requests: Requests, head: string, path: seq<string>) {
    && |path| >= 1 && (forall i :: 0 <= i < |path| - 1 ==> path[i] in items)
    && Iterate(cfg, height, items, At(head, requests), |path|) == Broke(WithRows(items, requests, path[..|path| - 1]))
  }

  lemma BreaksOneEarlier(cfg: Config, height: int, items: Items, requests: Requests, head: string, path: seq<string>)
    requires ClearPath(cfg, height, items, requests, head, path) && |path| > 1
    requires BreaksWith(cfg, height, items, requests[head := WavesRow(head, items[head])], items[head].prev, path[1..])
    ensures BreaksWith(cfg, height, items, requests, head, path)
  {
    ClearHead(cfg, height, items, requests, head, path);
    PathRows(cfg, height, items, requests, head, path);
    OneIteration(cfg, height, items, At(head, requests), |path|);
  }

  lemma {:induction false} ClearPathEnds(cfg: Config, height: int, items: Items, requests: Requests,
                                         head: string, path: seq<string>)
    requires ClearPath(cfg, height, items, requests, head, path)
    ensures BreaksWith(cfg, height, items, requests, head, path)
    decreases |path|
  {
    if |path| == 1 {
      ClearHead(cfg, height, items, requests, head, path);
      FixedForever(cfg, height, items, Broke(requests), 0);
      assert WithRows(items, requests, path[..0]) == requests;
    } else {
      ClearPathTail(cfg, height, items, requests, head, path);
      ClearPathEnds(cfg, height, items, requests[head := WavesRow(head, items[head])], items[head].prev, path[1..]);
      BreaksOneEarlier(cfg, height, items, requests, head, path);
    }
  }

  lemma ClearPathCons(cfg: Config, height: int, items: Items, requests: Requests, head: string, rest: seq<string>)
    requires Inserts(cfg, height, items, At(head, requests))
    requires ClearPath(cfg, height, items, requests[head := WavesRow(head, items[head])], items[head].prev, rest)
    ensures ClearPath(cfg, height, items, requests, head, [head] + rest)
  {
    var path, n := [head] + rest, |rest|;
    var inserted := requests[head := WavesRow(head, items[head])];
    assert forall i :: 1 <= i <= n ==> path[i] == rest[i - 1];
    assert path[n] == rest[n - 1] && Ends(cfg, height, items[path[n]]);
    assert path[0] == head && items[head].prev == path[1];
    forall i | 0 <= i < n
      ensures path[i] in items && InWindow(cfg, height, items[path[i]]) && items[path[i]].prev == path[i + 1]
      ensures path[i] !in requests && (i > 0 ==> path[i] != head)
    {
      if i > 0 {
        assert rest[i - 1] !in inserted && rest[i] == path[i + 1];
      }
    }
    forall i, j | 0 <= i < j < n ensures path[i] != path[j] {
      if i > 0 { assert rest[i - 1] != rest[j - 1]; }
    }
  }

  lemma {:induction false} EndMeansClearPath(cfg: Config, height: int, items: Items, requests: Requests,
                                             head: string, n: nat)
    returns (path: seq<string>)
    requires Iterate(cfg, height, items, At(head, requests), n).Broke?
    ensures ClearPath(cfg, height, items, requests, head, path) && |path| <= n
    decreases n
  {
    var w := At(head, requests);
    if !Inserts(cfg, height, items, w) {
      FixedForever(cfg, height, items, Iterate1(cfg, height, items, w), n - 1);
      path := [head];
    } else {
      var inserted := requests[head := WavesRow(head, items[head])];
      OneIteration(cfg, height, items, w, n);
      var rest := EndMeansClearPath(cfg, height, items, inserted, items[head].prev, n - 1);
      path := [head] + rest;
      ClearPathCons(cfg, height, items, requests, head, rest);
    }
  }

  lemma {:induction false} SameEnd(cfg: Config, height: int, items: Items, w: Walk, m: nat, n: nat)
    requires Iterate(cfg, height, items, w, m).Broke? && Iterate(cfg, height, items, w, n).Broke?
    ensures Iterate(cfg, height, items, w, m) == Iterate(cfg, height, items, w, n)
    decreases m + n
  {
    if m == 0 {
      FixedForever(cfg, height, items, w, n);
    } else if n == 0 {
      FixedForever(cfg, height, items, w, m);
    } else {
      SameEnd(cfg, height, items, Iterate1(cfg, height, items, w), m - 1, n - 1);
    }
  }

  ghost predicate ClearWithin(cfg: Config, height: int, items: Items, requests: Requests, head: string, n: nat) {
    exists path :: ClearPath(cfg, height, items, requests, head, path) && |path| <= n
  }

  lemma EndsBy(cfg: Config, height: int, items: Items, requests: Requests, head: string, path: seq<string>, n: nat)
    requires ClearPath(cfg, height, items, requests, head, path) && |path| <= n
    ensures Iterate(cfg, height, items, At(head, requests), n).Broke?
  {
    ClearPathEnds(cfg, height, items, requests, head, path);
    var end := Iterate(cfg, height, items, At(head, requests), |path|);
    IterateSplit(cfg, height, items, At(head, requests), |path|, n - |path|);
    FixedForever(cfg, height, items, end, n - |path|);
  }

  /** The first n iterations end the walk if and only if a clear path of at most n orders
      leads from its head. */
  lemma EndsWithinIff(cfg: Config, height: int, items: Items, requests: Requests, head: string, n: nat)
    ensures Iterate(cfg, height, items, At(head, requests), n).Broke? <==>
      ClearWithin(cfg, height, items, requests, head, n)
  {
    if Iterate(cfg, height, items, At(head, requests), n).Broke? {
      var path := EndMeansClearPath(cfg, height, items, requests, head, n);
    }
    if path :| ClearPath(cfg, height, items, requests, head, path) && |path| <= n {
      EndsBy(cfg, height, items, requests, head, path, n);
    }
  }

  ghost predicate EventuallyEnds(cfg: Config, height: int, items: Items, w: Walk) {
    exists n: nat :: Iterate(cfg, height, items, w, n).Broke?
  }

  /** The walk ends if and only if such a path leads from its head. */
  lemma EndsIffClearPath(cfg: Config, height: int, items: Items, requests: Requests, head: string)
    ensures EventuallyEnds(cfg, height, items, At(head, requests)) <==>
      exists path :: ClearPath(cfg, height, items, requests, head, path)
  {
    if EventuallyEnds(cfg, height, items, At(head, requests)) {
      var n: nat :| Iterate(cfg, height, items, At(head, requests), n).Broke?;
      var path := EndMeansClearPath(cfg, height, items, requests, head, n);
    }
    if path :| ClearPath(cfg, height, items, requests, head, path) {
      ClearPathEnds(cfg, height, items, requests, head, path);
    }
  }

  /** Whenever it has ended, it has inserted exactly the orders before the expired one. */
  lemma EndedTable(cfg: Config, height: int, items: Items, requests: Requests, head: string, path: seq<string>, n: nat)
    requires ClearPath(cfg, height, items, requests, head, path)
    requires Iterate(cfg, height, items, At(head, requests), n).Broke?
    ensures Iterate(cfg, height, items, At(head, requests), n).requests == WithRows(items, requests, path[..|path| - 1])
  {
    ClearPathEnds(cfg, height, items, requests, head, path);
    SameEnd(cfg, height, items, At(head, requests), n, |path|);
  }

  /** A walk that meets an order it has cached already copies the status once and then turns
      in place for ever: so the pass after one that cached the newest order never ends while
      that order is in the window. */
  lemma {:induction false} CachedOrderHolds(cfg: Config, height: int, items: Items, requests: Requests,
                                            head: string, n: nat)
    requires head in items && head in requests && InWindow(cfg, height, items[head]) && n >= 1
    ensures Iterate(cfg, height, items, At(head, requests), n) ==
      At(head, requests[head := requests[head].(status := items[head].status)])
  {
    var w1 := Iterate1(cfg, height, items, At(head, requests));
    InsertsOrSettles(cfg, height, items, At(head, requests));
    FixedForever(cfg, height, items, w1, n - 1);
  }

  /** At an order that is not deep enough the walk turns in place as well, */
  lemma {:induction false} UnconfirmedOrderHolds(cfg: Config, height: int, items: Items, requests: Requests,
                                                 head: string, n: nat)
    requires head in items && height < items[head].height + cfg.wavesDepth
    ensures Iterate(cfg, height, items, At(head, requests), n) == At(head, requests)
  {
    FixedForever(cfg, height, items, At(head, requests), n);
  }

  /** and at an order the state has no entry for the program panics. */
  lemma {:induction false} MissingOrderPanics(cfg: Config, height: int, items: Items, requests: Requests,
                                              head: string, n: nat)
    requires head !in items && n >= 1
    ensures Iterate(cfg, height, items, At(head, requests), n) == Panicked(requests)
  {
    OneIteration(cfg, height, items, At(head, requests), n);
    FixedForever(cfg, height, items, Panicked(requests), n - 1);
  }
}
