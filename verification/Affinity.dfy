/** Assignment of interfaces and queues to worker threads. */
module Affinity {
  import opened Words

  // ----- counting in rounds -----

  /** How many of 0 .. total-1 leave remainder r. */
  function Count(d: nat, r: nat, total: nat): nat
    requires d > 0
  {
    if total == 0 then 0 else Count(d, r, total - 1) + if (total - 1) % d == r then 1 else 0
  }

  lemma NextRemainder(t: nat, d: nat)
    requires d > 0
    ensures (t + 1) % d == if t % d + 1 >= d then 0 else t % d + 1
    ensures (t + 1) / d == if t % d + 1 >= d then t / d + 1 else t / d
  {
    if t % d + 1 >= d {
      ModUnique(t + 1, d, t / d + 1, 0);
    } else {
      ModUnique(t + 1, d, t / d, t % d + 1);
    }
  }

  /** Remainder r has come up t/d times before, and once more when it came up in this round. */
  lemma {:induction false} CountIs(d: nat, r: nat, total: nat)
    requires r < d
    ensures Count(d, r, total) == total / d + if total % d > r then 1 else 0
  {
    if total == 0 {
      ModUnique(0, d, 0, 0);
    } else {
      CountIs(d, r, total - 1);
      NextRemainder(total - 1, d);
    }
  }

  /** The k-th number with remainder r is r + k * d. */
  lemma CountBounds(d: nat, r: nat, k: nat, t: nat, total: nat)
    requires r < d && t == r + k * d
    ensures t % d == r && t / d == k
    ensures k < Count(d, r, total) <==> t < total
  {
    hide Count;
    ModUnique(t, d, k, r);
    CountIs(d, r, total);
    DivMod(total, d);
    CompareInRounds(d, r, k, t, total / d, total % d, total);
  }

  lemma DivMod(t: nat, d: nat)
    requires d > 0
    ensures t % d < d && t == t % d + (t / d) * d
  {
  }

  lemma CompareInRounds(d: nat, r: nat, k: nat, t: nat, q: nat, s: nat, total: nat)
    requires r < d && s < d && t == r + k * d && total == s + q * d
    ensures k < q + (if s > r then 1 else 0) <==> t < total
  {
    var e := q - k;
    assert e * d == q * d - k * d;
    MultipleMagnitude(e, d);
  }

  /** Rounds are fair. */
  lemma LoadsAreFair(d: nat, r: nat, r': nat, total: nat)
    requires r < d && r' < d
    ensures Count(d, r, total) <= Count(d, r', total) + 1
  {
    CountIs(d, r, total);
    CountIs(d, r', total);
  }

  function SumOfLoads(d: nat, rs: nat, total: nat): nat
    requires d > 0
  {
    if rs == 0 then 0 else SumOfLoads(d, rs - 1, total) + Count(d, rs - 1, total)
  }

  lemma {:induction false} LoadsAddUp(d: nat, total: nat)
    requires d > 0
    ensures SumOfLoads(d, d, total) == total
  {
    if total == 0 {
      LoadsStep(d, d, 0);
    } else {
      LoadsAddUp(d, total - 1);
      LoadsStep(d, d, total);
    }
  }

  lemma {:induction false} LoadsStep(d: nat, rs: nat, total: nat)
    requires d > 0
    ensures total == 0 ==> SumOfLoads(d, rs, 0) == 0
    ensures total > 0 ==>
      SumOfLoads(d, rs, total) == SumOfLoads(d, rs, total - 1) + if (total - 1) % d < rs then 1 else 0
  {
    if rs > 0 {
      LoadsStep(d, rs - 1, total);
    }
  }

  // ----- worker affinity -----

  function Max(m: nat, n: nat): nat {
    if m > n then m else n
  }

  /** The interfaces of worker j after `slots` assignments: slot t joins worker t mod n and
      interface t mod m. */
  function RxList(m: nat, n: nat, j: nat, slots: nat): (r: seq<nat>)
    requires m > 0 && n > 0
    ensures |r| == Count(n, j, slots)
  {
    if slots == 0 then [] else
      RxList(m, n, j, slots - 1) + if (slots - 1) % n == j then [(slots - 1) % m] else []
  }

  lemma {:induction false} RxListAt(m: nat, n: nat, j: nat, slots: nat, k: nat)
    requires m > 0 && j < n && k < Count(n, j, slots)
    ensures RxList(m, n, j, slots)[k] == (j + k * n) % m
  {
    if k < Count(n, j, slots - 1) {
      RxListAt(m, n, j, slots - 1, k);
    } else {
      CountIs(n, j, slots - 1);
      var t := slots - 1;
      assert t % n == j && k == t / n;
      assert t == j + k * n;
    }
  }

  /** gconf: per worker its receive interfaces and number of transmit interfaces, per interface
      its thread counts. */
  class Config {
    const rx: array<seq<nat>>
    const numTx: array<nat>
    const rxThr: array<nat>
    const txThr: array<nat>

    constructor (m: nat, n: nat)
      ensures fresh(rx) && fresh(numTx) && fresh(rxThr) && fresh(txThr)
      ensures rx.Length == numTx.Length == n && rxThr.Length == txThr.Length == m && rxThr != txThr
        && numTx != rxThr && numTx != txThr
      ensures forall j :: 0 <= j < n ==> rx[j] == [] && numTx[j] == 0
      ensures forall i :: 0 <= i < m ==> rxThr[i] == 0 && txThr[i] == 0
    {
      rx := new seq<nat>[n](_ => []);
      numTx := new nat[n](_ => 0);
      rxThr := new nat[m](_ => 0);
      txThr := new nat[m](_ => 0);
    }

    ghost predicate Valid() {
      rx.Length == numTx.Length && rxThr.Length == txThr.Length && rxThr != txThr && numTx != rxThr && numTx != txThr
    }

    /** More interfaces than workers: the workers take turns. */
    method AssignInterfaces()
      requires Valid() && rxThr.Length > rx.Length > 0
      requires forall j :: 0 <= j < rx.Length ==> rx[j] == []
      requires forall i :: 0 <= i < rxThr.Length ==> rxThr[i] == 0
      modifies rx, rxThr
      ensures forall j :: 0 <= j < rx.Length ==> rx[j] == RxList(rxThr.Length, rx.Length, j, rxThr.Length)
      ensures forall i :: 0 <= i < rxThr.Length ==> rxThr[i] == Count(rxThr.Length, i, rxThr.Length)
    {
      var m, n := rxThr.Length, rx.Length;
      var mconf_id := 0;
      for rx_idx := 0 to m
        invariant mconf_id == rx_idx % n
        invariant forall j :: 0 <= j < n ==> rx[j] == RxList(m, n, j, rx_idx)
        invariant forall i :: 0 <= i < m ==> rxThr[i] == Count(m, i, rx_idx)
      {
        assert rx_idx % m == rx_idx by { ModUnique(rx_idx, m, 0, rx_idx); }
        NextRemainder(rx_idx, n);
        rx[mconf_id] := rx[mconf_id] + [rx_idx];
        rxThr[rx_idx] := rxThr[rx_idx] + 1;
        mconf_id := mconf_id + 1;
        if mconf_id >= n {
          mconf_id := 0;
        }
      }
    }

    /** A worker that receives from one interface sends to all the others. */
    method SendToOthers(mconf_id: nat, rx_idx: nat)
      requires Valid() && mconf_id < rx.Length && rx_idx < rxThr.Length
      modifies numTx, txThr
      ensures forall j :: 0 <= j < rx.Length ==>
        numTx[j] == old(numTx[j]) + if j == mconf_id then rxThr.Length - 1 else 0
      ensures forall i :: 0 <= i < rxThr.Length ==> txThr[i] == old(txThr[i]) + if i == rx_idx then 0 else 1
    {
      for tx_idx := 0 to rxThr.Length
        invariant forall j :: 0 <= j < rx.Length && j != mconf_id ==> numTx[j] == old(numTx[j])
        invariant numTx[mconf_id] == old(numTx[mconf_id]) + tx_idx - if rx_idx < tx_idx then 1 else 0
        invariant forall i :: 0 <= i < rxThr.Length ==>
          txThr[i] == old(txThr[i]) + if i < tx_idx && i != rx_idx then 1 else 0
      {
        if tx_idx != rx_idx {
          numTx[mconf_id] := numTx[mconf_id] + 1;
          txThr[tx_idx] := txThr[tx_idx] + 1;
        }
      }
    }

    /** No more interfaces than workers: the interfaces take turns, and a worker sends to all
        interfaces but its own. */
    method AssignWorkers()
      requires Valid() && 0 < rxThr.Length <= rx.Length
      requires forall j :: 0 <= j < rx.Length ==> rx[j] == [] && numTx[j] == 0
      requires forall i :: 0 <= i < rxThr.Length ==> rxThr[i] == 0 && txThr[i] == 0
      modifies rx, numTx, rxThr, txThr
      ensures forall j :: 0 <= j < rx.Length ==> rx[j] == RxList(rxThr.Length, rx.Length, j, rx.Length)
      ensures forall j :: 0 <= j < rx.Length ==> numTx[j] == rxThr.Length - 1
      ensures forall i :: 0 <= i < rxThr.Length ==> rxThr[i] == Count(rxThr.Length, i, rx.Length)
      ensures forall i :: 0 <= i < rxThr.Length ==> txThr[i] == rx.Length - rxThr[i]
    {
      var m, n := rxThr.Length, rx.Length;
      var rx_idx := 0;
      for mconf_id := 0 to n
        invariant rx_idx == mconf_id % m
        invariant forall j :: 0 <= j < n ==> rx[j] == RxList(m, n, j, mconf_id)
        invariant forall j :: 0 <= j < n ==> numTx[j] == if j < mconf_id then m - 1 else 0
        invariant forall i :: 0 <= i < m ==> rxThr[i] == Count(m, i, mconf_id) && txThr[i] == mconf_id - rxThr[i]
      {
        assert mconf_id % n == mconf_id by { ModUnique(mconf_id, n, 0, mconf_id); }
        NextRemainder(mconf_id, m);
        rx[mconf_id] := rx[mconf_id] + [rx_idx];
        SendToOthers(mconf_id, rx_idx);
        rxThr[rx_idx] := rxThr[rx_idx] + 1;
        rx_idx := rx_idx + 1;
        if rx_idx >= m {
          rx_idx := 0;
        }
      }
    }
  }

  /** Who serves whom: with more interfaces than workers, interface i belongs to worker i mod n
      alone; otherwise worker j has interface j mod m alone. Workers' loads differ by at most one, as
      do the thread counts of interfaces; both add up to the larger of the two counts. */
  lemma AffinityIsFair(m: nat, n: nat, j: nat, j': nat, i: nat, i': nat)
    requires j < n && j' < n && i < m && i' < m
    ensures Count(m, i, Max(m, n)) <= Count(m, i', Max(m, n)) + 1
    ensures |RxList(m, n, j, Max(m, n))| <= |RxList(m, n, j', Max(m, n))| + 1
    ensures SumOfLoads(n, n, Max(m, n)) == SumOfLoads(m, m, Max(m, n)) == Max(m, n)
    ensures m > n ==> forall k: nat :: k < m ==> (k in RxList(m, n, j, m) <==> j == k % n)
    ensures m <= n ==> RxList(m, n, j, n) == [j % m]
  {
    LoadsAreFair(n, j, j', Max(m, n));
    LoadsAreFair(m, i, i', Max(m, n));
    LoadsAddUp(n, Max(m, n));
    LoadsAddUp(m, Max(m, n));
    if m > n {
      forall k: nat | k < m ensures k in RxList(m, n, j, m) <==> j == k % n {
        OwnInterfaces(m, n, j, m, k);
      }
    } else {
      CountIs(n, j, n);
      ModUnique(n, n, 1, 0);
      RxListAt(m, n, j, n, 0);
    }
  }

  lemma {:induction false} OwnInterfaces(m: nat, n: nat, j: nat, slots: nat, i: nat)
    requires n > 0 && slots <= m && i < m
    ensures i in RxList(m, n, j, slots) <==> i < slots && j == i % n
  {
    if slots > 0 {
      OwnInterfaces(m, n, j, slots - 1, i);
      ModUnique(slots - 1, m, 0, slots - 1);
    }
  }

  // ----- queue affinity -----

  /** create_pktio: no more queues than the interface has. */
  function Clipped(wanted: nat, capacity: nat): nat {
    if wanted > capacity then capacity else wanted
  }

  /** The queue for the k-th use of an interface: they take turns. */
  function Turn(k: nat, queues: nat): nat {
    if queues == 0 then 0 else k % queues
  }

  lemma NextTurn(k: nat, queues: nat)
    ensures Turn(k + 1, queues) == if Turn(k, queues) + 1 >= queues then 0 else Turn(k, queues) + 1
  {
    if queues > 0 {
      NextRemainder(k, queues);
    }
  }

  /** How often interface i is in a worker's list. */
  function Occurs(rx: seq<nat>, i: nat): nat {
    if rx == [] then 0 else Occurs(rx[..|rx| - 1], i) + if rx[|rx| - 1] == i then 1 else 0
  }

  /** How often the first w workers and the first k slots of the next one use interface i. */
  function Uses(rx: seq<seq<nat>>, w: nat, k: nat, i: nat): nat
    requires w <= |rx| && (k == 0 || (w < |rx| && k <= |rx[w]|))
  {
    (if w == 0 then 0 else Uses(rx, w - 1, |rx[w - 1]|, i)) + if k == 0 then 0 else Occurs(rx[w][..k], i)
  }

  /** The queues one worker gets: slot k the next one of its interface. */
  ghost predicate Bound(rx: seq<seq<nat>>, queues: seq<nat>, w: nat, rqueue: seq<nat>) {
    && w < |rx| && |rqueue| == |rx[w]|
    && forall k :: 0 <= k < |rqueue| ==>
         rx[w][k] < |queues| && rqueue[k] == Turn(Uses(rx, w, k, rx[w][k]), queues[rx[w][k]])
  }

  /** The bindings of one worker; next_rx_queue counts on. */
  method BindWorker(rx: seq<seq<nat>>, queues: seq<nat>, w: nat, next: array<nat>) returns (rqueue: seq<nat>)
    requires w < |rx| && next.Length == |queues|
    requires forall k :: 0 <= k < |rx[w]| ==> rx[w][k] < |queues|
    requires forall i :: 0 <= i < next.Length ==> next[i] == Turn(Uses(rx, w, 0, i), queues[i])
    modifies next
    ensures Bound(rx, queues, w, rqueue)
    ensures forall i :: 0 <= i < next.Length ==> next[i] == Turn(Uses(rx, w + 1, 0, i), queues[i])
  {
    hide Turn, Uses;
    rqueue := [];
    for k := 0 to |rx[w]|
      invariant |rqueue| == k
      invariant forall h :: 0 <= h < k ==> rqueue[h] == Turn(Uses(rx, w, h, rx[w][h]), queues[rx[w][h]])
      invariant forall i :: 0 <= i < next.Length ==> next[i] == Turn(Uses(rx, w, k, i), queues[i])
    {
      var rx_idx := rx[w][k];
      var rx_queue := next[rx_idx];
      rqueue := rqueue + [rx_queue];
      UsesStep(rx, w, k);
      NextTurn(Uses(rx, w, k, rx_idx), queues[rx_idx]);
      rx_queue := rx_queue + 1;
      if rx_queue >= queues[rx_idx] {
        rx_queue := 0;
      }
      next[rx_idx] := rx_queue;
    }
    NextWorker(rx, w);
  }

  lemma UsesStep(rx: seq<seq<nat>>, w: nat, k: nat)
    requires w < |rx| && k < |rx[w]|
    ensures forall i :: Uses(rx, w, k + 1, i) == Uses(rx, w, k, i) + if rx[w][k] == i then 1 else 0
  {
    assert rx[w][..k + 1][..k] == rx[w][..k];
    assert forall i :: Occurs(rx[w][..k + 1], i) == Occurs(rx[w][..k], i) + if rx[w][k] == i then 1 else 0;
  }

  lemma NextWorker(rx: seq<seq<nat>>, w: nat)
    requires w < |rx|
    ensures forall i :: Uses(rx, w + 1, 0, i) == Uses(rx, w, |rx[w]|, i)
  {
  }

  /** macs_set_queue_afinity: receive queues of the workers' slots, and for every worker one
      transmit queue per interface. */
  method BindQueues(rx: seq<seq<nat>>, queues: seq<nat>, txQueues: seq<nat>)
    returns (rqueue: seq<seq<nat>>, tqueue: seq<seq<nat>>)
    requires |txQueues| == |queues|
    requires forall w, k :: 0 <= w < |rx| && 0 <= k < |rx[w]| ==> rx[w][k] < |queues|
    ensures |rqueue| == |tqueue| == |rx|
    ensures forall w :: 0 <= w < |rx| ==> Bound(rx, queues, w, rqueue[w])
    ensures forall w :: 0 <= w < |rx| ==> |tqueue[w]| == |queues|
    ensures forall w, p :: 0 <= w < |rx| && 0 <= p < |queues| ==> tqueue[w][p] == Turn(w, txQueues[p])
  {
    hide Turn, Bound;
    var next, nextTx := new nat[|queues|](_ => 0), new nat[|queues|](_ => 0);
    rqueue, tqueue := [], [];
    ZeroTurns();
    for w := 0 to |rx|
      invariant |rqueue| == |tqueue| == w
      invariant forall v :: 0 <= v < w ==> Bound(rx, queues, v, rqueue[v])
      invariant forall v :: 0 <= v < w ==> |tqueue[v]| == |queues|
      invariant forall v, p :: 0 <= v < w && 0 <= p < |queues| ==> tqueue[v][p] == Turn(v, txQueues[p])
      invariant forall i :: 0 <= i < next.Length ==> next[i] == Turn(Uses(rx, w, 0, i), queues[i])
      invariant forall p :: 0 <= p < nextTx.Length ==> nextTx[p] == Turn(w, txQueues[p])
    {
      var bound := BindWorker(rx, queues, w, next);
      rqueue := rqueue + [bound];
      var sends := BindSends(w, txQueues, nextTx);
      tqueue := tqueue + [sends];
    }
  }

  lemma ZeroTurns()
    ensures forall q :: Turn(0, q) == 0
  {
  }

  method BindSends(w: nat, txQueues: seq<nat>, nextTx: array<nat>) returns (sends: seq<nat>)
    requires nextTx.Length == |txQueues| && forall p :: 0 <= p < nextTx.Length ==> nextTx[p] == Turn(w, txQueues[p])
    modifies nextTx
    ensures |sends| == |txQueues| && forall p :: 0 <= p < |sends| ==> sends[p] == Turn(w, txQueues[p])
    ensures forall p :: 0 <= p < nextTx.Length ==> nextTx[p] == Turn(w + 1, txQueues[p])
  {
    hide Turn;
    sends := [];
    for p := 0 to |txQueues|
      invariant |sends| == p && forall q :: 0 <= q < p ==> sends[q] == Turn(w, txQueues[q])
      invariant forall q :: 0 <= q < nextTx.Length ==> nextTx[q] == Turn(if q < p then w + 1 else w, txQueues[q])
    {
      NextTurn(w, txQueues[p]);
      var tx_queue := nextTx[p];
      sends := sends + [tx_queue];
      tx_queue := tx_queue + 1;
      if tx_queue >= txQueues[p] {
        tx_queue := 0;
      }
      nextTx[p] := tx_queue;
    }
  }

  // ----- which worker polls which queue -----

  /** All workers' lists; slot k of worker j is assignment j + k * n. */
  function Lists(m: nat, n: nat): (r: seq<seq<nat>>)
    requires m > 0 && n > 0
    ensures |r| == n && forall j :: 0 <= j < n ==> r[j] == RxList(m, n, j, Max(m, n))
  {
    seq(n, j requires 0 <= j < n => RxList(m, n, j, Max(m, n)))
  }

  lemma {:induction false} OccursMembers(rx: seq<nat>, i: nat)
    ensures Occurs(rx, i) == 0 <==> i !in rx
  {
    if rx != [] {
      OccursMembers(rx[..|rx| - 1], i);
      assert rx == rx[..|rx| - 1] + [rx[|rx| - 1]];
    }
  }

  /** With more interfaces than workers nobody else uses an interface. */
  lemma {:induction false} OthersDoNotUse(m: nat, n: nat, w: nat, i: nat)
    requires m > n > w && i < m && i % n >= w
    ensures Uses(Lists(m, n), w, 0, i) == 0
    decreases w
  {
    hide RxList, Count;
    if w > 0 {
      OthersDoNotUse(m, n, w - 1, i);
      OwnInterfaces(m, n, w - 1, m, i);
      var rx := Lists(m, n)[w - 1];
      OccursMembers(rx, i);
      assert rx[..|rx|] == rx;
    }
  }

  lemma OneUse(x: nat, i: nat)
    ensures [x][..|[x]|] == [x] && Occurs([x], i) == if x == i then 1 else 0
  {
    assert Occurs([], i) == 0;
  }

  /** With at least as many workers every worker is one use of its interface. */
  lemma {:induction false} WorkersTakeTurns(m: nat, n: nat, w: nat, i: nat)
    requires 0 < m <= n && w <= n && i < m
    ensures Uses(Lists(m, n), w, 0, i) == Count(m, i, w)
  {
    if w > 0 {
      WorkersTakeTurns(m, n, w - 1, i);
      AffinityIsFair(m, n, w - 1, w - 1, i, i);
      OneUse((w - 1) % m, i);
    }
  }

  /** Assignment t is the (t/m)-th use of its interface. */
  lemma UsesBeforeSlot(m: nat, n: nat, j: nat, k: nat, t: nat)
    requires m > 0 && j < n && k < Count(n, j, Max(m, n)) && t == j + k * n
    ensures t < Max(m, n) && |Lists(m, n)[j]| == Count(n, j, Max(m, n)) && Lists(m, n)[j][k] == t % m
    ensures Uses(Lists(m, n), j, k, t % m) == t / m
  {
    CountBounds(n, j, k, t, Max(m, n));
    RxListAt(m, n, j, Max(m, n), k);
    hide Count, RxList, Uses;
    if m > n {
      FirstUse(m, n, j, k, t);
    } else {
      LaterUse(m, n, j, k);
    }
  }

  lemma FirstUse(m: nat, n: nat, j: nat, k: nat, t: nat)
    requires m > n && j < n && k < Count(n, j, m) && t == j + k * n && t < m && t % n == j
    requires k <= |Lists(m, n)[j]|
    ensures t % m == t && t / m == 0 && Uses(Lists(m, n), j, k, t) == 0
  {
    hide Count, RxList;
    ModUnique(t, m, 0, t);
    OthersDoNotUse(m, n, j, t);
    var earlier := Lists(m, n)[j][..k];
    forall h: nat | h < k ensures earlier[h] != t {
      RxListAt(m, n, j, m, h);
      CountBounds(n, j, h, j + h * n, m);
      ModUnique(j + h * n, m, 0, j + h * n);
      CountBounds(n, j, h, j + h * n, t);
      CountBounds(n, j, k, t, t);
    }
    OccursMembers(earlier, t);
  }

  lemma LaterUse(m: nat, n: nat, j: nat, k: nat)
    requires 0 < m <= n && j < n && k < Count(n, j, n)
    ensures k == 0 && Uses(Lists(m, n), j, 0, j % m) == j / m
  {
    ModUnique(n, n, 1, 0);
    CountIs(n, j, n);
    WorkersTakeTurns(m, n, j, j % m);
    CountIs(m, j % m, j);
  }

  /** The interface and queue that slot k of worker j polls. */
  function Polls(m: nat, n: nat, queues: seq<nat>, j: nat, k: nat): (nat, nat)
    requires 0 < m == |queues| && n > 0
  {
    var t := j + k * n;
    (t % m, Turn(t / m, queues[t % m]))
  }

  /** The bindings of macs_set_queue_afinity after macs_set_worker_afinity. */
  lemma QueueOfSlot(m: nat, n: nat, queues: seq<nat>, j: nat, k: nat, rqueue: seq<nat>)
    requires 0 < m == |queues| && j < n && k < Count(n, j, Max(m, n)) && Bound(Lists(m, n), queues, j, rqueue)
    ensures k < |rqueue| && k < |Lists(m, n)[j]| && (Lists(m, n)[j][k], rqueue[k]) == Polls(m, n, queues, j, k)
  {
    var t := j + k * n;
    hide Turn, Uses, Lists;
    UsesBeforeSlot(m, n, j, k, t);
    hide Count;
    PollsAt(m, n, queues, j, k, t, t % m, t / m);
  }

  ghost predicate IsSlot(m: nat, n: nat, j: nat, k: nat)
    requires n > 0
  {
    j < n && k < Count(n, j, Max(m, n))
  }

  ghost predicate IsQueue(queues: seq<nat>, q: (nat, nat)) {
    q.0 < |queues| && q.1 < queues[q.0]
  }

  /** With a queue per thread, slots and queues correspond one to one. */
  lemma SlotsMatchQueues(m: nat, n: nat, queues: seq<nat>)
    requires 0 < m == |queues| && n > 0 && QueuePerThread(m, n, queues)
    ensures forall j: nat, k: nat | IsSlot(m, n, j, k) :: IsQueue(queues, Polls(m, n, queues, j, k))
    ensures forall j: nat, k: nat, j': nat, k': nat | IsSlot(m, n, j, k) && IsSlot(m, n, j', k') ::
              Polls(m, n, queues, j, k) == Polls(m, n, queues, j', k') ==> j == j' && k == k'
    ensures forall q | IsQueue(queues, q) :: exists j: nat, k: nat ::
      IsSlot(m, n, j, k) && Polls(m, n, queues, j, k) == q
  {
    hide Polls, IsSlot, IsQueue;
    forall j: nat, k: nat | IsSlot(m, n, j, k) ensures IsQueue(queues, Polls(m, n, queues, j, k)) {
      SlotHasQueue(m, n, queues, j, k, j + k * n);
    }
    forall j: nat, k: nat, j': nat, k': nat | IsSlot(m, n, j, k) && IsSlot(m, n, j', k')
      && Polls(m, n, queues, j, k) == Polls(m, n, queues, j', k')
      ensures j == j' && k == k'
    {
      SlotsDoNotShare(m, n, queues, j, k, j', k');
    }
    forall q | IsQueue(queues, q)
      ensures exists j: nat, k: nat :: IsSlot(m, n, j, k) && Polls(m, n, queues, j, k) == q
    {
      var j, k := QueueHasSlot(m, n, queues, q);
    }
  }

  ghost predicate QueuePerThread(m: nat, n: nat, queues: seq<nat>)
    requires m > 0
  {
    |queues| == m && forall i :: 0 <= i < m ==> queues[i] == Count(m, i, Max(m, n))
  }

  lemma SlotHasQueue(m: nat, n: nat, queues: seq<nat>, j: nat, k: nat, t: nat)
    requires m > 0 && n > 0 && QueuePerThread(m, n, queues) && IsSlot(m, n, j, k) && t == j + k * n
    ensures t < Max(m, n) && t % n == j && t / n == k
    ensures Polls(m, n, queues, j, k) == (t % m, t / m) && IsQueue(queues, (t % m, t / m))
  {
    hide Count, Max, Turn;
    CountBounds(n, j, k, t, Max(m, n));
    hide IsSlot;
    var i, q := t % m, t / m;
    DivMod(t, m);
    CountBounds(m, i, q, t, Max(m, n));
    TurnOfSmall(q, queues[i]);
    hide QueuePerThread;
    PollsAt(m, n, queues, j, k, t, i, q);
  }

  lemma PollsAt(m: nat, n: nat, queues: seq<nat>, j: nat, k: nat, t: nat, i: nat, q: nat)
    requires 0 < m == |queues| && n > 0 && t == j + k * n && i == t % m && q == t / m
    ensures Polls(m, n, queues, j, k) == (i, Turn(q, queues[i]))
  {
    hide Turn;
  }

  lemma TurnOfSmall(k: nat, c: nat)
    requires k < c
    ensures Turn(k, c) == k
  {
    ModUnique(k, c, 0, k);
  }

  lemma SlotsDoNotShare(m: nat, n: nat, queues: seq<nat>, j: nat, k: nat, j': nat, k': nat)
    requires m > 0 && n > 0 && QueuePerThread(m, n, queues) && IsSlot(m, n, j, k) && IsSlot(m, n, j', k')
    requires Polls(m, n, queues, j, k) == Polls(m, n, queues, j', k')
    ensures j == j' && k == k'
  {
    hide Polls, IsSlot, QueuePerThread, IsQueue;
    var t, t' := j + k * n, j' + k' * n;
    SlotHasQueue(m, n, queues, j, k, t);
    SlotHasQueue(m, n, queues, j', k', t');
    DivMod(t, m);
    DivMod(t', m);
  }

  lemma QueueHasSlot(m: nat, n: nat, queues: seq<nat>, q: (nat, nat)) returns (j: nat, k: nat)
    requires m > 0 && n > 0 && QueuePerThread(m, n, queues) && IsQueue(queues, q)
    ensures IsSlot(m, n, j, k) && Polls(m, n, queues, j, k) == q
  {
    hide Polls, Count, Max;
    var t := q.0 + q.1 * m;
    CountBounds(m, q.0, q.1, t, Max(m, n));
    j, k := t % n, t / n;
    DivMod(t, n);
    CountBounds(n, j, k, t, Max(m, n));
    SlotHasQueue(m, n, queues, j, k, t);
  }

  ghost predicate NoSharing(m: nat, n: nat, queues: seq<nat>)
    requires 0 < m == |queues| && n > 0
  {
    forall j: nat, k: nat, j': nat, k': nat | IsSlot(m, n, j, k) && IsSlot(m, n, j', k') ::
      Polls(m, n, queues, j, k) == Polls(m, n, queues, j', k') ==> j == j' && k == k'
  }

  /** No two slots poll the same queue exactly when no interface has fewer queues than threads. */
  lemma NoSharingIff(m: nat, n: nat, capacity: seq<nat>, queues: seq<nat>)
    requires 0 < m == |queues| == |capacity| && n > 0
    requires forall i :: 0 <= i < m ==> capacity[i] > 0 && queues[i] == Clipped(Count(m, i, Max(m, n)), capacity[i])
    ensures NoSharing(m, n, queues) <==> forall i :: 0 <= i < m ==> Count(m, i, Max(m, n)) <= capacity[i]
  {
    hide Polls, IsSlot, Count, Max, IsQueue;
    if forall i :: 0 <= i < m ==> Count(m, i, Max(m, n)) <= capacity[i] {
      SlotsMatchQueues(m, n, queues);
    } else {
      var i: nat :| i < m && Count(m, i, Max(m, n)) > capacity[i];
      SharedSlots(m, n, queues, i, capacity[i]);
    }
  }

  lemma SharedSlots(m: nat, n: nat, queues: seq<nat>, i: nat, c: nat)
    requires 0 < m == |queues| && n > 0 && i < m && queues[i] == c && 0 < c < Count(m, i, Max(m, n))
    ensures !NoSharing(m, n, queues)
  {
    hide Count, Max, Turn, NoSharing;
    var t, total := i + c * m, Max(m, n);
    CountBounds(m, i, 0, i, total);
    CountBounds(m, i, c, t, total);
    SlotPolls(m, n, queues, i, i % n, i / n, i, 0);
    SlotPolls(m, n, queues, t, t % n, t / n, i, c);
    assert Turn(0, c) == Turn(c, c) by { Turns(c); }
    DivMod(i, n);
    DivMod(t, n);
    assert t > i by { TimesPositive(c, m); }
    hide Polls, IsSlot;
    NotBoth(m, n, queues, i % n, i / n, t % n, t / n);
  }

  lemma NotBoth(m: nat, n: nat, queues: seq<nat>, j: nat, k: nat, j': nat, k': nat)
    requires 0 < m == |queues| && n > 0 && IsSlot(m, n, j, k) && IsSlot(m, n, j', k') && (j != j' || k != k')
    requires Polls(m, n, queues, j, k) == Polls(m, n, queues, j', k')
    ensures !NoSharing(m, n, queues)
  {
    hide Polls, IsSlot;
  }

  lemma Turns(c: nat)
    requires c > 0
    ensures Turn(0, c) == 0 == Turn(c, c)
  {
    ModUnique(0, c, 0, 0);
    ModUnique(c, c, 1, 0);
  }

  lemma TimesPositive(a: nat, b: nat)
    requires a > 0 && b > 0
    ensures a * b > 0
  {
  }

  /** Assignment t is the slot t/n of worker t mod n. */
  lemma SlotPolls(m: nat, n: nat, queues: seq<nat>, t: nat, j: nat, k: nat, i: nat, q: nat)
    requires 0 < m == |queues| && n > 0 && t < Max(m, n)
    requires j == t % n && k == t / n && i == t % m && q == t / m
    ensures IsSlot(m, n, j, k) && Polls(m, n, queues, j, k) == (i, Turn(q, queues[i]))
  {
    hide Count, Max, Turn;
    DivMod(t, n);
    CountBounds(n, j, k, t, Max(m, n));
    PollsAt(m, n, queues, j, k, t, i, q);
  }

  /** How many of the first `slots` assignments poll queue q of interface i when it has c. */
  function QueueLoad(m: nat, i: nat, c: nat, q: nat, slots: nat): nat
    requires m > 0
  {
    if slots == 0 then 0 else
      QueueLoad(m, i, c, q, slots - 1) + if (slots - 1) % m == i && Turn((slots - 1) / m, c) == q then 1 else 0
  }

  /** Shared queues are shared fairly. */
  lemma {:induction false} SharedQueuesAreFair(m: nat, i: nat, c: nat, q: nat, q': nat, slots: nat)
    requires i < m && q < c && q' < c
    ensures QueueLoad(m, i, c, q, slots) == Count(c, q, Count(m, i, slots))
    ensures QueueLoad(m, i, c, q, slots) <= QueueLoad(m, i, c, q', slots) + 1
  {
    QueueLoadIs(m, i, c, q, slots);
    QueueLoadIs(m, i, c, q', slots);
    LoadsAreFair(c, q, q', Count(m, i, slots));
  }

  lemma {:induction false} QueueLoadIs(m: nat, i: nat, c: nat, q: nat, slots: nat)
    requires i < m && q < c
    ensures QueueLoad(m, i, c, q, slots) == Count(c, q, Count(m, i, slots))
  {
    if slots > 0 {
      QueueLoadIs(m, i, c, q, slots - 1);
      CountIs(m, i, slots - 1);
    }
  }

  /** No two workers share a transmit queue of an interface exactly when it has one per worker. */
  lemma TransmitQueuesAreOwnIff(n: nat, capacity: nat)
    requires capacity > 0
    ensures (forall w, w' :: 0 <= w < w' < n ==>
      Turn(w, Clipped(n, capacity)) != Turn(w', Clipped(n, capacity))) <==> n <= capacity
  {
    hide Turn;
    if n <= capacity {
      forall w: nat, w': nat | w < w' < n ensures Turn(w, n) != Turn(w', n) {
        TurnOfSmall(w, n);
        TurnOfSmall(w', n);
      }
    } else {
      Turns(capacity);
      assert Turn(0, Clipped(n, capacity)) == Turn(capacity, Clipped(n, capacity));
    }
  }
}
