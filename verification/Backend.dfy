/** The switch side of the control channel: a reader, two queue processors and any number of
    packet workers passing message cells around. A step is one critical section of one thread;
    a run is any interleaving of steps. */
module Backends {
  import opened Basics
  import opened Fifos

  /** The pool size given to create_backend. */
  const POOL_SIZE: nat := 1000

  type Cell = nat

  /** unused and used are the pool's lists; reader, input and output are the cells the three
      processor threads hold; held are the cells of digests under construction; lost are cells no
      thread will ever release. The histories record what each queue was asked to add and gave back;
      faulted says that a thread has dereferenced a null cell or digest, which ends the run. */
  datatype Backend = Backend(
    unused: seq<Cell>, used: seq<Cell>,
    reader: Option<Cell>, input: Option<Cell>, output: Option<Cell>, held: set<Cell>, lost: set<Cell>,
    inputQueue: seq<Cell>, outputQueue: seq<Cell>,
    inputAdded: seq<Cell>, inputTaken: seq<Cell>, outputAdded: seq<Cell>, outputTaken: seq<Cell>,
    faulted: bool)

  datatype Action =
    | ReaderTouch       // backend_processor gets a cell for the next message and uses it untested
    | ReaderDeliver     // read_p4_msg returned a length: the cell is queued
    | ReaderFail        // read_p4_msg failed: nobody keeps the cell
    | InputTake         // input_processor removes a message
    | InputRelease      // ... and detouches its cell after handling it
    | OutputTake        // output_processor removes a digest
    | OutputRelease     // ... and detouches its cell after writing it
    | DigestCreate      // create_digest takes a cell; without one generate_digest uses a null digest
    | DigestAbandon(cell: Cell)  // a name or value too long, or no room for a field: null again
    | DigestSend(cell: Cell)     // send_digest queues the cell

  function Some1(o: Option<Cell>): multiset<Cell> {
    match o
    case None => multiset{}
    case Some(c) => multiset{c}
  }

  /** Every cell outside the free list, once per place that refers to it. */
  function Custody(s: Backend): multiset<Cell> {
    Some1(s.reader) + Some1(s.input) + Some1(s.output) + multiset(s.held) + multiset(s.lost)
    + multiset(s.inputQueue) + multiset(s.outputQueue)
  }

  function Everything(s: Backend): multiset<Cell> {
    multiset(s.unused) + Custody(s)
  }

  predicate Enabled(s: Backend, a: Action) {
    !s.faulted &&
    match a
    case ReaderTouch => s.reader == None
    case ReaderDeliver => s.reader.Some?
    case ReaderFail => s.reader.Some?
    case InputTake => s.input == None && s.inputQueue != []
    case InputRelease => s.input.Some?
    case OutputTake => s.output == None && s.outputQueue != []
    case OutputRelease => s.output.Some?
    case DigestCreate => true
    case DigestAbandon(c) => c in s.held
    case DigestSend(c) => c in s.held
  }

  /** touch_mem_cell on the two lists. */
  function Touch(s: Backend): Backend
    requires s.unused != []
  {
    s.(unused := s.unused[1..], used := [s.unused[0]] + s.used)
  }

  function Without(q: seq<Cell>, c: Cell): (r: seq<Cell>)
    ensures multiset(r) == multiset(q) - multiset{c}
  {
    if q == [] then []
    else if q[0] == c then assert q == [c] + q[1..]; q[1..]
    else assert q == [q[0]] + q[1..]; [q[0]] + Without(q[1..], c)
  }

  /** detouch_mem_cell. */
  function Detouch(s: Backend, c: Cell): Backend {
    s.(unused := [c] + s.unused, used := Without(s.used, c))
  }

  function Do(s: Backend, a: Action): Backend
    requires Enabled(s, a)
  {
    match a
    case ReaderTouch =>
      if s.unused == [] then s.(faulted := true) else Touch(s).(reader := Some(s.unused[0]))
    case ReaderDeliver =>
      s.(reader := None, inputQueue := Push(s.inputQueue, s.reader.value),
        inputAdded := s.inputAdded + [s.reader.value])
    case ReaderFail => s.(reader := None, lost := s.lost + {s.reader.value})
    case InputTake =>
      s.(input := Some(s.inputQueue[0]), inputQueue := s.inputQueue[1..],
        inputTaken := s.inputTaken + [s.inputQueue[0]])
    case InputRelease => Detouch(s, s.input.value).(input := None)
    case OutputTake =>
      s.(output := Some(s.outputQueue[0]), outputQueue := s.outputQueue[1..],
        outputTaken := s.outputTaken + [s.outputQueue[0]])
    case OutputRelease => Detouch(s, s.output.value).(output := None)
    case DigestCreate =>
      if s.unused == [] then s.(faulted := true) else Touch(s).(held := s.held + {s.unused[0]})
    case DigestAbandon(c) => s.(held := s.held - {c}, lost := s.lost + {c}, faulted := true)
    case DigestSend(c) =>
      s.(held := s.held - {c}, outputQueue := Push(s.outputQueue, c), outputAdded := s.outputAdded + [c])
  }

  /** create_backend: the slices of the buffer, last one first. */
  function Created(n: nat): Backend {
    Backend(seq(n, i requires 0 <= i < n => n - 1 - i), [], None, None, None, {}, {}, [], [], [], [], [], [], false)
  }

  ghost predicate CanRun(s: Backend, run: seq<Action>)
    decreases |run|
  {
    run == [] || (Enabled(s, run[0]) && CanRun(Do(s, run[0]), run[1..]))
  }

  function Run(s: Backend, run: seq<Action>): Backend
    requires CanRun(s, run)
    decreases |run|
  {
    if run == [] then s else Run(Do(s, run[0]), run[1..])
  }

  // ----- the invariant -----

  /** Each of the n cells is in exactly one place, the used list is exactly what is in custody,
      and each queue holds what was added and not yet taken, in order. */
  ghost predicate Inv(n: nat, s: Backend) {
    && (forall c: Cell :: Everything(s)[c] == if c < n then 1 else 0)
    && multiset(s.used) == Custody(s)
    && s.inputAdded == s.inputTaken + s.inputQueue
    && s.outputAdded == s.outputTaken + s.outputQueue
  }

  lemma {:induction false} DescendingCells(n: nat)
    ensures forall c: Cell :: multiset(Created(n).unused)[c] == if c < n then 1 else 0
  {
    if n == 0 {
      assert multiset(Created(0).unused) == multiset{};
    } else {
      DescendingCells(n - 1);
      assert Created(n).unused == [n - 1] + Created(n - 1).unused;
    }
  }

  lemma CreatedInv(n: nat)
    ensures Inv(n, Created(n))
  {
    DescendingCells(n);
  }

  lemma {:induction false} OneFewer(q: seq<Cell>, c: Cell)
    ensures |q| <= |Without(q, c)| + 1
  {
    if q != [] && q[0] != c {
      OneFewer(q[1..], c);
    }
  }

  /** A sequence without repetitions of numbers below n is no longer than n. */
  lemma {:induction false} AtMostAllCells(n: nat, q: seq<Cell>)
    requires forall c: Cell :: multiset(q)[c] <= if c < n then 1 else 0
    ensures |q| <= n
  {
    hide Without;
    if n == 0 {
      assert q == [] || multiset(q)[q[0]] > 0;
    } else {
      var r: seq<Cell> := Without(q, n - 1);
      forall c: Cell ensures multiset(r)[c] <= if c < n - 1 then 1 else 0 {
        assert multiset(q)[c] <= if c < n then 1 else 0;
      }
      AtMostAllCells(n - 1, r);
      OneFewer(q, n - 1);
    }
  }

  /** A queue of a pool with at most QUEUE_SIZE cells has room for any cell that is outside it. */
  lemma QueueHasRoom(n: nat, s: Backend, q: seq<Cell>, c: Cell)
    requires n <= QUEUE_SIZE && Inv(n, s)
    requires q == s.inputQueue || q == s.outputQueue
    requires multiset(q) + multiset{c} <= Custody(s)
    ensures |q| < QUEUE_SIZE && Push(q, c) == q + [c]
  {
    forall d: Cell ensures multiset(q + [c])[d] <= if d < n then 1 else 0 {
      assert Everything(s)[d] == if d < n then 1 else 0;
    }
    AtMostAllCells(n, q + [c]);
  }

  // ----- every step keeps the invariant -----

  lemma TakeFirst(q: seq<Cell>)
    requires q != []
    ensures multiset(q) == multiset{q[0]} + multiset(q[1..])
  {
    assert q == [q[0]] + q[1..];
  }

  lemma PutFirst(q: seq<Cell>, c: Cell)
    ensures multiset([c] + q) == multiset{c} + multiset(q)
  {
  }

  /** A step moves one cell between two places, or between custody and the free list. */
  lemma ReaderTouchMoves(s: Backend)
    requires Enabled(s, ReaderTouch) && s.unused != []
    ensures Everything(Do(s, ReaderTouch)) == Everything(s)
    ensures Custody(Do(s, ReaderTouch)) == Custody(s) + multiset{s.unused[0]}
  {
    TakeFirst(s.unused);
    assert Custody(Do(s, ReaderTouch)) == Custody(s) + multiset{s.unused[0]};
  }

  lemma DigestCreateMoves(n: nat, s: Backend)
    requires Inv(n, s) && Enabled(s, DigestCreate) && s.unused != []
    ensures Everything(Do(s, DigestCreate)) == Everything(s)
    ensures Custody(Do(s, DigestCreate)) == Custody(s) + multiset{s.unused[0]}
  {
    var c := s.unused[0];
    TakeFirst(s.unused);
    NewlyHeld(n, s, c);
    assert Custody(Do(s, DigestCreate)) == Custody(s) + multiset{c};
  }

  lemma NewlyHeld(n: nat, s: Backend, c: Cell)
    requires Inv(n, s) && c in s.unused
    ensures multiset(s.held + {c}) == multiset(s.held) + multiset{c}
  {
    assert Everything(s)[c] <= 1;
    assert c in multiset(s.unused);
    assert c !in s.held;
  }

  lemma InputReleaseMoves(s: Backend)
    requires Enabled(s, InputRelease)
    ensures Everything(Do(s, InputRelease)) == Everything(s)
    ensures Custody(s) == Custody(Do(s, InputRelease)) + multiset{s.input.value}
  {
    PutFirst(s.unused, s.input.value);
  }

  lemma OutputReleaseMoves(s: Backend)
    requires Enabled(s, OutputRelease)
    ensures Everything(Do(s, OutputRelease)) == Everything(s)
    ensures Custody(s) == Custody(Do(s, OutputRelease)) + multiset{s.output.value}
  {
    PutFirst(s.unused, s.output.value);
  }

  lemma InputTakeMoves(s: Backend)
    requires Enabled(s, InputTake)
    ensures Everything(Do(s, InputTake)) == Everything(s) && Custody(Do(s, InputTake)) == Custody(s)
  {
    TakeFirst(s.inputQueue);
  }

  lemma OutputTakeMoves(s: Backend)
    requires Enabled(s, OutputTake)
    ensures Everything(Do(s, OutputTake)) == Everything(s) && Custody(Do(s, OutputTake)) == Custody(s)
  {
    TakeFirst(s.outputQueue);
  }

  /** Without a free cell nothing moves. */
  lemma DryTouchMoves(s: Backend, a: Action)
    requires Enabled(s, a) && (a == ReaderTouch || a == DigestCreate) && s.unused == []
    ensures Everything(Do(s, a)) == Everything(s) && Custody(Do(s, a)) == Custody(s)
  {
  }

  lemma ReaderFailMoves(n: nat, s: Backend)
    requires Inv(n, s) && Enabled(s, ReaderFail)
    ensures Everything(Do(s, ReaderFail)) == Everything(s) && Custody(Do(s, ReaderFail)) == Custody(s)
  {
    LostOnce(n, s, s.reader.value);
  }

  lemma DigestAbandonMoves(n: nat, s: Backend, c: Cell)
    requires Inv(n, s) && Enabled(s, DigestAbandon(c))
    ensures Everything(Do(s, DigestAbandon(c))) == Everything(s)
    ensures Custody(Do(s, DigestAbandon(c))) == Custody(s)
  {
    HeldIsMultiset(s.held, c);
    LostOnce(n, s, c);
  }

  lemma ReaderDeliverMoves(n: nat, s: Backend)
    requires n <= QUEUE_SIZE && Inv(n, s) && Enabled(s, ReaderDeliver)
    ensures Everything(Do(s, ReaderDeliver)) == Everything(s) && Custody(Do(s, ReaderDeliver)) == Custody(s)
    ensures Do(s, ReaderDeliver).inputQueue == s.inputQueue + [s.reader.value]
  {
    QueueHasRoom(n, s, s.inputQueue, s.reader.value);
  }

  lemma DigestSendMoves(n: nat, s: Backend, c: Cell)
    requires n <= QUEUE_SIZE && Inv(n, s) && Enabled(s, DigestSend(c))
    ensures Everything(Do(s, DigestSend(c))) == Everything(s) && Custody(Do(s, DigestSend(c))) == Custody(s)
    ensures Do(s, DigestSend(c)).outputQueue == s.outputQueue + [c]
  {
    HeldIsMultiset(s.held, c);
    QueueHasRoom(n, s, s.outputQueue, c);
  }

  lemma TouchKeepsInv(n: nat, s: Backend, a: Action)
    requires Inv(n, s) && Enabled(s, a) && (a == ReaderTouch || a == DigestCreate)
    ensures Inv(n, Do(s, a))
  {
    hide Everything, Custody;
    if s.unused == [] {
      DryTouchMoves(s, a);
    } else {
      PutFirst(s.used, s.unused[0]);
      if a == ReaderTouch {
        ReaderTouchMoves(s);
      } else {
        DigestCreateMoves(n, s);
      }
    }
  }

  lemma ReleaseKeepsInv(n: nat, s: Backend, a: Action)
    requires Inv(n, s) && Enabled(s, a) && (a == InputRelease || a == OutputRelease)
    ensures Inv(n, Do(s, a))
  {
    hide Everything, Custody;
    if a == InputRelease {
      InputReleaseMoves(s);
    } else {
      OutputReleaseMoves(s);
    }
  }

  lemma TakeKeepsInv(n: nat, s: Backend, a: Action)
    requires Inv(n, s) && Enabled(s, a) && (a == InputTake || a == OutputTake)
    ensures Inv(n, Do(s, a))
  {
    hide Everything, Custody;
    if a == InputTake {
      InputTakeMoves(s);
    } else {
      OutputTakeMoves(s);
    }
  }

  lemma LoseKeepsInv(n: nat, s: Backend, a: Action)
    requires Inv(n, s) && Enabled(s, a) && (a == ReaderFail || a.DigestAbandon?)
    ensures Inv(n, Do(s, a))
  {
    hide Everything, Custody;
    if a == ReaderFail {
      ReaderFailMoves(n, s);
    } else {
      DigestAbandonMoves(n, s, a.cell);
    }
  }

  lemma AddKeepsInv(n: nat, s: Backend, a: Action)
    requires n <= QUEUE_SIZE && Inv(n, s) && Enabled(s, a) && (a == ReaderDeliver || a.DigestSend?)
    ensures Inv(n, Do(s, a))
  {
    hide Everything, Custody;
    if a == ReaderDeliver {
      ReaderDeliverMoves(n, s);
    } else {
      DigestSendMoves(n, s, a.cell);
    }
  }

  lemma StepKeepsInv(n: nat, s: Backend, a: Action)
    requires n <= QUEUE_SIZE && Inv(n, s) && Enabled(s, a)
    ensures Inv(n, Do(s, a))
  {
    hide Inv, Do, Enabled;
    match a
    case ReaderTouch => TouchKeepsInv(n, s, a);
    case DigestCreate => TouchKeepsInv(n, s, a);
    case ReaderDeliver => AddKeepsInv(n, s, a);
    case DigestSend(_) => AddKeepsInv(n, s, a);
    case ReaderFail => LoseKeepsInv(n, s, a);
    case DigestAbandon(_) => LoseKeepsInv(n, s, a);
    case InputTake => TakeKeepsInv(n, s, a);
    case OutputTake => TakeKeepsInv(n, s, a);
    case InputRelease => ReleaseKeepsInv(n, s, a);
    case OutputRelease => ReleaseKeepsInv(n, s, a);
  }

  lemma HeldIsMultiset(held: set<Cell>, c: Cell)
    requires c in held
    ensures multiset(held) == multiset(held - {c}) + multiset{c}
  {
    assert held == held - {c} + {c};
  }

  /** A cell some thread holds is not among the lost ones. */
  lemma LostOnce(n: nat, s: Backend, c: Cell)
    requires Inv(n, s) && (s.reader == Some(c) || c in s.held)
    ensures multiset(s.lost + {c}) == multiset(s.lost) + multiset{c}
  {
    assert Everything(s)[c] <= 1;
  }

  // ----- every run -----

  lemma {:induction false} RunKeepsInv(n: nat, s: Backend, run: seq<Action>)
    requires n <= QUEUE_SIZE && Inv(n, s) && CanRun(s, run)
    ensures Inv(n, Run(s, run))
    decreases |run|
  {
    hide Inv, Do, Enabled;
    if run != [] {
      StepKeepsInv(n, s, run[0]);
      RunKeepsInv(n, Do(s, run[0]), run[1..]);
    }
  }

  /** No add that a thread can make in this state would be dropped. */
  ghost predicate AddsSucceed(s: Backend) {
    !s.faulted ==>
    && (s.reader.Some? ==> Do(s, ReaderDeliver).inputQueue == s.inputQueue + [s.reader.value])
    && (forall c :: c in s.held ==> Do(s, DigestSend(c)).outputQueue == s.outputQueue + [c])
  }

  /** Over every interleaving of the switch's threads, whatever read errors and abandoned
      digests occur: each of the cells is in exactly one place, no queue ever drops a message, each
      queue gives messages back in the order they were added, and a processor only ever releases
      a cell that is on the used list. */
  lemma SwitchQueuesNeverDrop(run: seq<Action>)
    requires CanRun(Created(POOL_SIZE), run)
    ensures var s := Run(Created(POOL_SIZE), run);
            && (forall c: Cell :: Everything(s)[c] == if c < POOL_SIZE then 1 else 0)
            && |s.inputQueue| < QUEUE_SIZE && |s.outputQueue| < QUEUE_SIZE
            && AddsSucceed(s)
            && s.inputTaken <= s.inputAdded && s.outputTaken <= s.outputAdded
            && (s.input.Some? ==> s.input.value in s.used)
            && (s.output.Some? ==> s.output.value in s.used)
  {
    CreatedInv(POOL_SIZE);
    RunKeepsInv(POOL_SIZE, Created(POOL_SIZE), run);
    var s := Run(Created(POOL_SIZE), run);
    InvMeansAddsSucceed(POOL_SIZE, s);
    QueuesFitThePool(POOL_SIZE, s);
    UsedHoldsTasks(POOL_SIZE, s);
  }

  lemma InvMeansAddsSucceed(n: nat, s: Backend)
    requires n <= QUEUE_SIZE && Inv(n, s)
    ensures AddsSucceed(s)
  {
    if !s.faulted {
      if s.reader.Some? {
        ReaderDeliverMoves(n, s);
      }
      forall c | c in s.held ensures Do(s, DigestSend(c)).outputQueue == s.outputQueue + [c] {
        DigestSendMoves(n, s, c);
      }
    }
  }

  lemma QueuesFitThePool(n: nat, s: Backend)
    requires Inv(n, s)
    ensures |s.inputQueue| <= n && |s.outputQueue| <= n
  {
    forall c: Cell
      ensures multiset(s.inputQueue)[c] <= if c < n then 1 else 0
      ensures multiset(s.outputQueue)[c] <= if c < n then 1 else 0
    {
      assert Everything(s)[c] == if c < n then 1 else 0;
    }
    AtMostAllCells(n, s.inputQueue);
    AtMostAllCells(n, s.outputQueue);
  }

  lemma UsedHoldsTasks(n: nat, s: Backend)
    requires Inv(n, s)
    ensures s.input.Some? ==> s.input.value in s.used
    ensures s.output.Some? ==> s.output.value in s.used
  {
    assert s.input.Some? ==> s.input.value in Custody(s);
    assert s.output.Some? ==> s.output.value in Custody(s);
    assert forall c: Cell :: c in multiset(s.used) ==> c in s.used;
  }

  // ----- the pool size is what makes it so -----

  /** The reader delivers k messages and then takes one more cell. */
  function Flood(k: nat): seq<Action> {
    if k == 0 then [ReaderTouch] else [ReaderTouch, ReaderDeliver] + Flood(k - 1)
  }

  lemma {:induction false} FloodFills(s: Backend, k: nat)
    requires !s.faulted && s.reader == None && |s.unused| > k && |s.inputQueue| + k <= QUEUE_SIZE
    ensures CanRun(s, Flood(k)) && !Run(s, Flood(k)).faulted
    ensures Run(s, Flood(k)).reader.Some? && |Run(s, Flood(k)).inputQueue| == |s.inputQueue| + k
    decreases k
  {
    if k == 0 {
      assert Flood(0)[1..] == [];
    } else {
      var s1 := Do(s, ReaderTouch);
      var s2 := Do(s1, ReaderDeliver);
      var rest := [ReaderDeliver] + Flood(k - 1);
      assert Flood(k)[0] == ReaderTouch && Flood(k)[1..] == rest;
      assert rest[0] == ReaderDeliver && rest[1..] == Flood(k - 1);
      FloodFills(s2, k - 1);
      assert CanRun(s1, rest) && Run(s1, rest) == Run(s2, Flood(k - 1));
    }
  }

  /** The queues are safe from drops over all runs exactly when the pool has no more cells than a
      queue has slots. */
  lemma DropFreeIffPoolFits(n: nat)
    ensures (forall run :: CanRun(Created(n), run) ==> AddsSucceed(Run(Created(n), run))) <==> n <= QUEUE_SIZE
  {
    hide AddsSucceed;
    if n <= QUEUE_SIZE {
      CreatedInv(n);
      forall run | CanRun(Created(n), run) ensures AddsSucceed(Run(Created(n), run)) {
        RunKeepsInv(n, Created(n), run);
        InvMeansAddsSucceed(n, Run(Created(n), run));
      }
    } else {
      FloodFills(Created(n), QUEUE_SIZE);
      FullQueueDrops(Run(Created(n), Flood(QUEUE_SIZE)));
    }
  }

  lemma FullQueueDrops(s: Backend)
    requires !s.faulted && s.reader.Some? && |s.inputQueue| == QUEUE_SIZE
    ensures !AddsSucceed(s)
  {
    assert |Do(s, ReaderDeliver).inputQueue| == QUEUE_SIZE;
  }

  // ----- when the pool runs dry -----

  /** The pool is empty exactly when every cell is in custody. */
  lemma EmptyIffAllInCustody(n: nat, s: Backend)
    requires Inv(n, s)
    ensures s.unused == [] <==> forall c: Cell :: c < n ==> c in Custody(s)
  {
    hide Custody;
    forall c: Cell | c < n ensures multiset(s.unused)[c] + Custody(s)[c] == 1 {
      assert Everything(s)[c] == 1;
    }
    if s.unused != [] {
      var c := s.unused[0];
      assert c in multiset(s.unused);
      assert Everything(s)[c] >= 1;
      assert c < n && c !in Custody(s);
    }
  }

  /** A step faults exactly when it touches the pool while all n cells are in custody, or gives up
      a digest whose name, value or number of fields is too large. */
  lemma StepFaultsIff(n: nat, s: Backend, a: Action)
    requires Inv(n, s) && Enabled(s, a)
    ensures Do(s, a).faulted <==>
      || ((a == ReaderTouch || a == DigestCreate) && forall c: Cell :: c < n ==> c in Custody(s))
      || a.DigestAbandon?
  {
    hide Custody;
    EmptyIffAllInCustody(n, s);
  }

  lemma {:induction false} RunSplit(s: Backend, run: seq<Action>, more: seq<Action>)
    requires CanRun(s, run + more)
    ensures CanRun(s, run) && CanRun(Run(s, run), more) && Run(s, run + more) == Run(Run(s, run), more)
    decreases |run|
  {
    hide Do, Enabled;
    if run == [] {
      assert [] + more == more;
    } else {
      assert (run + more)[1..] == run[1..] + more;
      RunSplit(Do(s, run[0]), run[1..], more);
    }
  }

  /** A run of the switch has faulted exactly when its last step was of one of these kinds. */
  lemma RunFaultsIff(n: nat, run: seq<Action>, last: Action)
    requires n <= QUEUE_SIZE && CanRun(Created(n), run + [last])
    ensures CanRun(Created(n), run) && !Run(Created(n), run).faulted
    ensures Run(Created(n), run + [last]).faulted <==>
      || ((last == ReaderTouch || last == DigestCreate)
          && forall c: Cell :: c < n ==> c in Custody(Run(Created(n), run)))
      || last.DigestAbandon?
  {
    hide Custody, Inv, Do;
    RunSplit(Created(n), run, [last]);
    var s := Run(Created(n), run);
    assert [last][1..] == [];
    assert Enabled(s, last);
    hide Enabled;
    CreatedInv(n);
    RunKeepsInv(n, Created(n), run);
    StepFaultsIff(n, s, last);
    assert Run(s, [last]) == Do(s, last);
  }

  /** n read errors, then one more message. */
  function ReadErrors(n: nat): seq<Action> {
    if n == 0 then [ReaderTouch] else [ReaderTouch, ReaderFail] + ReadErrors(n - 1)
  }

  lemma {:induction false} ErrorsDrain(s: Backend, k: nat)
    requires !s.faulted && s.reader == None && |s.unused| == k
    ensures CanRun(s, ReadErrors(k)) && Run(s, ReadErrors(k)).faulted
    decreases k
  {
    if k == 0 {
      assert ReadErrors(0)[1..] == [];
    } else {
      var s1 := Do(s, ReaderTouch);
      var s2 := Do(s1, ReaderFail);
      var rest := [ReaderFail] + ReadErrors(k - 1);
      assert ReadErrors(k)[0] == ReaderTouch && ReadErrors(k)[1..] == rest;
      assert rest[0] == ReaderFail && rest[1..] == ReadErrors(k - 1);
      ErrorsDrain(s2, k - 1);
      assert CanRun(s1, rest) && Run(s1, rest) == Run(s2, ReadErrors(k - 1));
    }
  }

  /** Each read error costs a cell for good, so whatever the pool size, that many errors and one
      more message end in a fault. */
  lemma ReadErrorsExhaustPool(n: nat)
    ensures CanRun(Created(n), ReadErrors(n)) && Run(Created(n), ReadErrors(n)).faulted
  {
    ErrorsDrain(Created(n), n);
  }
}
