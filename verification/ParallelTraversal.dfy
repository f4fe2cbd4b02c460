/** The breadth-first traversal that styles a tree: each thread works through a queue, appends noted children and
    hands off chunks of the next level to a pool.  One round of a thread's loop is one step, in any interleaving. */
module ParallelTraversal {
  import opened Dom

  datatype Visit = Visit(node: nat, depth: nat)

  /** A chunk waiting in the pool, with the depth of its nodes. */
  datatype Job = Job(items: seq<nat>, depth: nat)

  /** A thread's queue, how many of its first nodes are on the current level, and the
      depth of that level.  An idle thread has an empty queue. */
  datatype Thread = Thread(discovered: seq<nat>, remaining: nat, depth: nat)

  /** `noted` gives the children that processing a node asks to visit; `pooled` says
      whether there is a pool to hand work to. */
  datatype Work = Work(tree: Tree, noted: nat -> seq<nat>, unitMax: nat, localQueueSize: nat -> nat, pooled: bool)

  datatype State = State(visits: seq<Visit>, threads: seq<Thread>, jobs: seq<Job>)

  /** Processing notes each child at most once, and nothing else; chunks are not empty
      when there is a pool. */
  ghost predicate ValidWork(w: Work) {
    && (w.pooled ==> w.unitMax > 0)
    && forall n: nat | n < |w.tree.nodes| ::
         && (forall i | 0 <= i < |w.noted(n)| ::
               w.noted(n)[i] < |w.tree.nodes| && ParentElement(w.tree, w.noted(n)[i]) == Some(n))
         && forall i, j | 0 <= i < j < |w.noted(n)| :: w.noted(n)[i] != w.noted(n)[j]
  }

  /** `n` is `root`, or noted by its parent, and so on up to `root`. */
  ghost predicate Reachable(w: Work, n: nat, root: nat) {
    && n < |w.tree.nodes|
    && (n == root
        || (ParentElement(w.tree, n).Some? && n in w.noted(ParentElement(w.tree, n).value)
            && Reachable(w, ParentElement(w.tree, n).value, root)))
  }

  // ------------------------------------------------------------- one step

  function Min(a: nat, b: nat): nat {
    if a <= b then a else b
  }

  function Max(a: nat, b: nat): nat {
    if a <= b then b else a
  }

  /** `items` cut into chunks of `size`, the last one possibly shorter. */
  function Chunks(items: seq<nat>, size: nat, depth: nat): (jobs: seq<Job>)
    requires size > 0
    decreases |items|
  {
    if items == [] then []
    else [Job(items[..Min(size, |items|)], depth)] + Chunks(items[Min(size, |items|)..], size, depth)
  }

  /** How much of the queue a thread keeps. */
  function Kept(w: Work, k: nat, discovered: seq<nat>, remaining: nat): (kept: nat)
    requires remaining <= |discovered|
    ensures remaining <= kept <= |discovered|
  {
    if |discovered| - remaining >= w.unitMax && |discovered| >= w.localQueueSize(k) + w.unitMax && w.pooled
    then Max(remaining, w.localQueueSize(k))
    else |discovered|
  }

  /** Work is handed off only when there is enough for a unit of the next level and for the
      thread itself, which then keeps its local share and all of the current level. */
  ghost predicate KeepsEnough(w: Work, k: nat, queue: seq<nat>, remaining: nat, kept: nat) {
    && remaining <= kept <= |queue|
    && (kept < |queue| <==>
          w.pooled && remaining + w.unitMax <= |queue| && w.localQueueSize(k) + w.unitMax <= |queue|)
    && (kept < |queue| ==> w.localQueueSize(k) <= kept && (kept == remaining || kept == w.localQueueSize(k)))
  }

  lemma KeptIsEnough(w: Work, k: nat, queue: seq<nat>, remaining: nat)
    requires ValidWork(w) && remaining <= |queue|
    ensures KeepsEnough(w, k, queue, remaining, Kept(w, k, queue, remaining))
  {
  }

  /** The queue after its first node has been processed. */
  function Discovered(w: Work, t: Thread): seq<nat>
    requires t.discovered != []
  {
    t.discovered[1..] + w.noted(t.discovered[0])
  }

  function NextLevel(t: Thread): Thread {
    if t.remaining == 0 then Thread(t.discovered, |t.discovered|, t.depth + 1) else t
  }

  predicate CanStep(s: State, k: nat) {
    k < |s.threads| && 0 < s.threads[k].remaining <= |s.threads[k].discovered|
  }

  /** One round of thread `k`: process a node, hand off work, go to the next level. */
  function Stepped(w: Work, s: State, k: nat): State
    requires CanStep(s, k) && (w.pooled ==> w.unitMax > 0)
  {
    var t := s.threads[k];
    var queue := Discovered(w, t);
    var kept := Kept(w, k, queue, t.remaining - 1);
    State(s.visits + [Visit(t.discovered[0], t.depth)],
          s.threads[k := NextLevel(Thread(queue[..kept], t.remaining - 1, t.depth))],
          if w.pooled then s.jobs + Chunks(queue[kept..], w.unitMax, t.depth + 1) else s.jobs)
  }

  predicate CanStart(s: State, k: nat, j: nat) {
    k < |s.threads| && s.threads[k].discovered == [] && j < |s.jobs|
  }

  /** An idle thread takes a waiting chunk. */
  function Started(s: State, k: nat, j: nat): State
    requires CanStart(s, k, j)
  {
    State(s.visits,
          s.threads[k := Thread(s.jobs[j].items, |s.jobs[j].items|, s.jobs[j].depth)],
          s.jobs[..j] + s.jobs[j + 1..])
  }

  ghost predicate Initial(w: Work, root: nat, s: State) {
    && root < |w.tree.nodes|
    && s.visits == [] && s.jobs == [] && s.threads != []
    && s.threads[0] == Thread([root], 1, Depth(w.tree, root))
    && forall k | 1 <= k < |s.threads| :: s.threads[k].discovered == []
  }

  ghost predicate Next(w: Work, s: State, s': State)
    requires ValidWork(w)
  {
    || (exists k :: CanStep(s, k) && s' == Stepped(w, s, k))
    || (exists k, j :: CanStart(s, k, j) && s' == Started(s, k, j))
  }

  // ------------------------------------------------------------- invariant

  function Count(s: seq<nat>, x: nat): nat {
    if s == [] then 0 else Count(s[..|s| - 1], x) + if s[|s| - 1] == x then 1 else 0
  }

  /** How often `x` waits in the queues of the threads, in chunks, and was visited. */
  function Queued(threads: seq<Thread>, x: nat): nat {
    if threads == [] then 0
    else Queued(threads[..|threads| - 1], x) + Count(threads[|threads| - 1].discovered, x)
  }

  function Waiting(jobs: seq<Job>, x: nat): nat {
    if jobs == [] then 0 else Waiting(jobs[..|jobs| - 1], x) + Count(jobs[|jobs| - 1].items, x)
  }

  function Visits(visits: seq<Visit>, x: nat): nat {
    if visits == [] then 0
    else Visits(visits[..|visits| - 1], x) + if visits[|visits| - 1].node == x then 1 else 0
  }

  function Pending(s: State, x: nat): nat {
    Queued(s.threads, x) + Waiting(s.jobs, x)
  }

  function VisitsIn(s: State): nat -> nat {
    x => Visits(s.visits, x)
  }

  function PendingIn(s: State): nat -> nat {
    x => Pending(s, x)
  }

  /** Every reachable node is either visited, or waits, or will be noted: nothing occurs
      twice, nothing that was noted is lost, nothing is there without its parent having
      been visited. */
  ghost predicate Accounted(w: Work, root: nat, visited: nat -> nat, pending: nat -> nat) {
    && visited(root) + pending(root) > 0
    && (forall x: nat :: visited(x) + pending(x) <= 1)
    && (forall x: nat | visited(x) + pending(x) > 0 :: Reachable(w, x, root))
    && (forall x: nat {:trigger ParentElement(w.tree, x)} | visited(x) + pending(x) > 0 && x != root ::
          visited(ParentElement(w.tree, x).value) > 0)
    && forall v: nat, x: nat | visited(v) > 0 && x in w.noted(v) :: visited(x) + pending(x) > 0
  }

  /** The first `remaining` nodes of a queue are on the thread's level, the others on
      the next one. */
  ghost predicate LevelsRight(t: Tree, th: Thread) {
    && th.remaining <= |th.discovered|
    && (th.discovered != [] ==> th.remaining > 0)
    && forall i | 0 <= i < |th.discovered| ::
         th.discovered[i] < |t.nodes|
         && Depth(t, th.discovered[i]) == th.depth + if i < th.remaining then 0 else 1
  }

  ghost predicate JobRight(t: Tree, job: Job) {
    job.items != [] && OnLevel(t, job.items, job.depth)
  }

  ghost predicate OnLevel(t: Tree, items: seq<nat>, depth: nat) {
    forall i | 0 <= i < |items| :: items[i] < |t.nodes| && Depth(t, items[i]) == depth
  }

  ghost predicate Inv(w: Work, root: nat, s: State) {
    && Accounted(w, root, VisitsIn(s), PendingIn(s))
    && s.threads != []
    && AllLevelsRight(w.tree, s)
  }

  ghost predicate AllLevelsRight(t: Tree, s: State) {
    && (forall k | 0 <= k < |s.threads| && s.threads[k].discovered != [] :: LevelsRight(t, s.threads[k]))
    && (forall j | 0 <= j < |s.jobs| :: JobRight(t, s.jobs[j]))
    && forall i | 0 <= i < |s.visits| ::
         s.visits[i].node < |t.nodes| && s.visits[i].depth == Depth(t, s.visits[i].node)
  }

  // -------------------------------------------------------- counting lemmas

  lemma {:induction false} CountConcat(a: seq<nat>, b: seq<nat>, x: nat)
    ensures Count(a + b, x) == Count(a, x) + Count(b, x)
    decreases |b|
  {
    if b == [] {
      assert a + b == a;
    } else {
      CountConcat(a, b[..|b| - 1], x);
      assert (a + b)[..|a + b| - 1] == a + b[..|b| - 1];
    }
  }

  lemma {:induction false} CountMember(s: seq<nat>, x: nat)
    ensures Count(s, x) > 0 <==> x in s
    ensures (forall i, j | 0 <= i < j < |s| :: s[i] != s[j]) ==> Count(s, x) <= 1
    decreases |s|
  {
    if s != [] {
      CountMember(s[..|s| - 1], x);
      assert s == s[..|s| - 1] + [s[|s| - 1]];
    }
  }

  lemma {:induction false} QueuedUpdate(threads: seq<Thread>, k: nat, t: Thread, x: nat)
    requires k < |threads|
    ensures Queued(threads[k := t], x) + Count(threads[k].discovered, x) == Queued(threads, x) + Count(t.discovered, x)
    decreases |threads|
  {
    var n := |threads| - 1;
    var updated := threads[k := t];
    if k < n {
      QueuedUpdate(threads[..n], k, t, x);
      assert updated[..n] == threads[..n][k := t];
    } else {
      assert updated[..n] == threads[..n];
    }
  }

  lemma {:induction false} WaitingConcat(a: seq<Job>, b: seq<Job>, x: nat)
    ensures Waiting(a + b, x) == Waiting(a, x) + Waiting(b, x)
    decreases |b|
  {
    if b == [] {
      assert a + b == a;
    } else {
      WaitingConcat(a, b[..|b| - 1], x);
      assert (a + b)[..|a + b| - 1] == a + b[..|b| - 1];
    }
  }

  lemma WaitingWithout(jobs: seq<Job>, j: nat, x: nat)
    requires j < |jobs|
    ensures Waiting(jobs[..j] + jobs[j + 1..], x) + Count(jobs[j].items, x) == Waiting(jobs, x)
  {
    var before, after := jobs[..j], jobs[j + 1..];
    WaitingConcat(before, after, x);
    WaitingConcat(before, [jobs[j]], x);
    WaitingConcat(before + [jobs[j]], after, x);
    assert jobs == before + [jobs[j]] + after;
  }

  lemma {:induction false} ChunksHoldAll(items: seq<nat>, size: nat, depth: nat, x: nat)
    requires size > 0
    ensures Waiting(Chunks(items, size, depth), x) == Count(items, x)
    decreases |items|
  {
    if items != [] {
      var m := Min(size, |items|);
      var first := Job(items[..m], depth);
      ChunksHoldAll(items[m..], size, depth, x);
      WaitingConcat([first], Chunks(items[m..], size, depth), x);
      CountConcat(items[..m], items[m..], x);
      assert items == items[..m] + items[m..];
    }
  }

  /** Chunks are not empty and keep to one level. */
  lemma {:induction false} ChunksAreRight(t: Tree, items: seq<nat>, size: nat, depth: nat)
    requires size > 0 && OnLevel(t, items, depth)
    ensures forall j | 0 <= j < |Chunks(items, size, depth)| :: JobRight(t, Chunks(items, size, depth)[j])
    decreases |items|
  {
    if items != [] {
      ChunksAreRight(t, items[Min(size, |items|)..], size, depth);
    }
  }

  ghost function Flattened(jobs: seq<Job>): seq<nat> {
    if jobs == [] then [] else jobs[0].items + Flattened(jobs[1..])
  }

  /** Chunks keep the order, and all but the last one are full. */
  lemma {:induction false} ChunksInOrder(items: seq<nat>, size: nat, depth: nat)
    requires size > 0
    ensures var jobs := Chunks(items, size, depth);
            && Flattened(jobs) == items
            && forall j | 0 <= j < |jobs| :: |jobs[j].items| <= size && (j + 1 < |jobs| ==> |jobs[j].items| == size)
    decreases |items|
  {
    if items != [] {
      var m := Min(size, |items|);
      ChunksInOrder(items[m..], size, depth);
      assert items == items[..m] + items[m..];
      var jobs, rest := Chunks(items, size, depth), Chunks(items[m..], size, depth);
      assert jobs == [Job(items[..m], depth)] + rest && jobs[1..] == rest;
      assert rest != [] ==> items[m..] != [];
    }
  }

  // ------------------------------------------------- the invariant is kept

  lemma ReachableIsLater(w: Work, n: nat, root: nat)
    requires Reachable(w, n, root)
    ensures root <= n
  {
  }

  /** Visiting a waiting node and queueing what it notes keeps the account. */
  lemma VisitKeepsAccount(w: Work, root: nat, visited: nat -> nat, pending: nat -> nat, n: nat,
                          visited': nat -> nat, pending': nat -> nat)
    requires ValidWork(w) && Accounted(w, root, visited, pending) && pending(n) > 0
    requires forall x: nat :: visited'(x) == visited(x) + if x == n then 1 else 0
    requires forall x: nat :: pending'(x) + (if x == n then 1 else 0) == pending(x) + Count(w.noted(n), x)
    ensures Accounted(w, root, visited', pending')
  {
    forall x: nat
      ensures Count(w.noted(n), x) <= 1
      ensures Count(w.noted(n), x) > 0 <==> x in w.noted(n)
      ensures x in w.noted(n) ==>
                visited(x) + pending(x) == 0 && Reachable(w, x, root) && ParentElement(w.tree, x) == Some(n)
    {
      CountMember(w.noted(n), x);
      if x in w.noted(n) {
        NotedIsNew(w, root, visited, pending, n, x);
      }
    }
  }

  lemma NotedIsNew(w: Work, root: nat, visited: nat -> nat, pending: nat -> nat, n: nat, x: nat)
    requires ValidWork(w) && Accounted(w, root, visited, pending) && pending(n) > 0 && x in w.noted(n)
    ensures visited(x) + pending(x) == 0 && Reachable(w, x, root) && ParentElement(w.tree, x) == Some(n)
  {
    assert visited(n) + pending(n) == 1 && visited(n) == 0;
    ReachableIsLater(w, n, root);
    assert ParentElement(w.tree, x) == Some(n);
  }

  /** What a round does to the waiting nodes. */
  lemma SteppedPending(w: Work, s: State, k: nat, x: nat)
    requires CanStep(s, k) && (w.pooled ==> w.unitMax > 0)
    ensures var n := s.threads[k].discovered[0];
            Pending(Stepped(w, s, k), x) + (if x == n then 1 else 0) == Pending(s, x) + Count(w.noted(n), x)
  {
    var t := s.threads[k];
    var queue := Discovered(w, t);
    var kept := Kept(w, k, queue, t.remaining - 1);
    QueueAfterVisit(t.discovered, w.noted(t.discovered[0]), kept, x);
    SteppedQueued(w, s, k, queue, kept, x);
    SteppedWaiting(w, s, k, queue, kept, x);
  }

  lemma SteppedQueued(w: Work, s: State, k: nat, queue: seq<nat>, kept: nat, x: nat)
    requires CanStep(s, k) && (w.pooled ==> w.unitMax > 0)
    requires queue == Discovered(w, s.threads[k]) && kept == Kept(w, k, queue, s.threads[k].remaining - 1)
    ensures Queued(Stepped(w, s, k).threads, x) + Count(s.threads[k].discovered, x)
            == Queued(s.threads, x) + Count(queue[..kept], x)
  {
    var t' := NextLevel(Thread(queue[..kept], s.threads[k].remaining - 1, s.threads[k].depth));
    QueuedUpdate(s.threads, k, t', x);
    assert Stepped(w, s, k).threads == s.threads[k := t'];
    assert t'.discovered == queue[..kept];
  }

  lemma SteppedWaiting(w: Work, s: State, k: nat, queue: seq<nat>, kept: nat, x: nat)
    requires CanStep(s, k) && (w.pooled ==> w.unitMax > 0)
    requires queue == Discovered(w, s.threads[k]) && kept == Kept(w, k, queue, s.threads[k].remaining - 1)
    ensures Waiting(Stepped(w, s, k).jobs, x) == Waiting(s.jobs, x) + Count(queue[kept..], x)
  {
    SteppedJobs(w, s, k, queue, kept);
    if w.pooled {
      HandedOff(s.jobs, queue[kept..], w.unitMax, s.threads[k].depth + 1, x);
    } else {
      assert queue[kept..] == [];
    }
  }

  lemma SteppedJobs(w: Work, s: State, k: nat, queue: seq<nat>, kept: nat)
    requires CanStep(s, k) && (w.pooled ==> w.unitMax > 0)
    requires queue == Discovered(w, s.threads[k]) && kept == Kept(w, k, queue, s.threads[k].remaining - 1)
    ensures w.pooled ==>
              Stepped(w, s, k).jobs == s.jobs + Chunks(queue[kept..], w.unitMax, s.threads[k].depth + 1)
    ensures !w.pooled ==> Stepped(w, s, k).jobs == s.jobs && kept == |queue|
  {
  }

  lemma HandedOff(jobs: seq<Job>, items: seq<nat>, size: nat, depth: nat, x: nat)
    requires size > 0
    ensures Waiting(jobs + Chunks(items, size, depth), x) == Waiting(jobs, x) + Count(items, x)
  {
    ChunksHoldAll(items, size, depth, x);
    WaitingConcat(jobs, Chunks(items, size, depth), x);
  }

  lemma QueueAfterVisit(discovered: seq<nat>, noted: seq<nat>, kept: nat, x: nat)
    requires discovered != [] && kept <= |discovered| - 1 + |noted|
    ensures var queue := discovered[1..] + noted;
            Count(queue[..kept], x) + Count(queue[kept..], x) + (if x == discovered[0] then 1 else 0)
            == Count(discovered, x) + Count(noted, x)
  {
    var queue := discovered[1..] + noted;
    CountConcat(queue[..kept], queue[kept..], x);
    assert queue == queue[..kept] + queue[kept..];
    CountConcat(discovered[1..], noted, x);
    CountConcat([discovered[0]], discovered[1..], x);
    assert discovered == [discovered[0]] + discovered[1..];
    assert [discovered[0]][..0] == [];
  }

  lemma SteppedLevels(w: Work, s: State, k: nat)
    requires ValidWork(w) && CanStep(s, k) && LevelsRight(w.tree, s.threads[k])
    ensures var t' := Stepped(w, s, k).threads[k]; t'.discovered != [] ==> LevelsRight(w.tree, t')
    ensures forall j | |s.jobs| <= j < |Stepped(w, s, k).jobs| :: JobRight(w.tree, Stepped(w, s, k).jobs[j])
  {
    var t := s.threads[k];
    var queue := Discovered(w, t);
    var kept := Kept(w, k, queue, t.remaining - 1);
    if w.pooled {
      ChunksAreRight(w.tree, queue[kept..], w.unitMax, t.depth + 1);
    }
  }

  lemma StepKeepsInv(w: Work, root: nat, s: State, k: nat)
    requires ValidWork(w) && Inv(w, root, s) && CanStep(s, k)
    ensures Inv(w, root, Stepped(w, s, k))
  {
    var s' := Stepped(w, s, k);
    var n := s.threads[k].discovered[0];
    forall x: nat
      ensures Pending(s', x) + (if x == n then 1 else 0) == Pending(s, x) + Count(w.noted(n), x)
      ensures Visits(s'.visits, x) == Visits(s.visits, x) + if x == n then 1 else 0
    {
      SteppedPending(w, s, k, x);
    }
    WaitingInThread(s, k, 0);
    VisitKeepsAccount(w, root, VisitsIn(s), PendingIn(s), n, VisitsIn(s'), PendingIn(s'));
    StepKeepsLevels(w, s, k);
  }

  lemma StepKeepsLevels(w: Work, s: State, k: nat)
    requires ValidWork(w) && CanStep(s, k) && AllLevelsRight(w.tree, s)
    ensures AllLevelsRight(w.tree, Stepped(w, s, k))
  {
    var s' := Stepped(w, s, k);
    SteppedLevels(w, s, k);
    forall i | 0 <= i < |s'.threads| && s'.threads[i].discovered != []
      ensures LevelsRight(w.tree, s'.threads[i])
    {
      assert i != k ==> s'.threads[i] == s.threads[i];
    }
    forall j | 0 <= j < |s'.jobs|
      ensures JobRight(w.tree, s'.jobs[j])
    {
      assert j < |s.jobs| ==> s'.jobs[j] == s.jobs[j];
    }
  }

  lemma {:induction false} WaitingInThread(s: State, k: nat, i: nat)
    requires k < |s.threads| && i < |s.threads[k].discovered|
    ensures Pending(s, s.threads[k].discovered[i]) > 0
  {
    var x := s.threads[k].discovered[i];
    QueuedUpdate(s.threads, k, Thread([], 0, 0), x);
    CountMember(s.threads[k].discovered, x);
  }

  lemma StartKeepsInv(w: Work, root: nat, s: State, k: nat, j: nat)
    requires ValidWork(w) && Inv(w, root, s) && CanStart(s, k, j)
    ensures Inv(w, root, Started(s, k, j))
    ensures forall x: nat :: Pending(Started(s, k, j), x) == Pending(s, x)
  {
    var s' := Started(s, k, j);
    forall x: nat
      ensures Pending(s', x) == Pending(s, x)
    {
      StartedPending(s, k, j, x);
    }
    StartKeepsLevels(w.tree, s, k, j);
  }

  lemma StartKeepsLevels(t: Tree, s: State, k: nat, j: nat)
    requires CanStart(s, k, j) && AllLevelsRight(t, s)
    ensures AllLevelsRight(t, Started(s, k, j))
  {
    var s' := Started(s, k, j);
    assert JobRight(t, s.jobs[j]);
    forall i | 0 <= i < |s'.jobs|
      ensures JobRight(t, s'.jobs[i])
    {
      assert s'.jobs[i] == if i < j then s.jobs[i] else s.jobs[i + 1];
    }
  }

  lemma StartedPending(s: State, k: nat, j: nat, x: nat)
    requires CanStart(s, k, j)
    ensures Pending(Started(s, k, j), x) == Pending(s, x)
  {
    QueuedUpdate(s.threads, k, Thread(s.jobs[j].items, |s.jobs[j].items|, s.jobs[j].depth), x);
    WaitingWithout(s.jobs, j, x);
  }

  lemma {:induction false} NothingQueued(threads: seq<Thread>, x: nat)
    requires forall k | 0 <= k < |threads| :: threads[k].discovered == []
    ensures Queued(threads, x) == 0
    decreases |threads|
  {
    if threads != [] {
      NothingQueued(threads[..|threads| - 1], x);
    }
  }

  lemma InitialInv(w: Work, root: nat, s: State)
    requires Initial(w, root, s)
    ensures Inv(w, root, s)
  {
    var idle := s.threads[0 := Thread([], 0, 0)];
    forall x: nat
      ensures Pending(s, x) == if x == root then 1 else 0
    {
      QueuedUpdate(s.threads, 0, Thread([], 0, 0), x);
      NothingQueued(idle, x);
      assert [root][..0] == [];
      assert Count([root], x) == if x == root then 1 else 0;
    }
  }

  // ------------------------------------------------------------ whole runs

  /** A run: any interleaving, from the root being queued on the first thread. */
  ghost predicate IsRun(w: Work, root: nat, run: seq<State>)
    requires ValidWork(w)
  {
    && run != [] && Initial(w, root, run[0])
    && forall i | 0 <= i < |run| - 1 :: Next(w, run[i], run[i + 1])
  }

  lemma {:induction false} RunKeepsInv(w: Work, root: nat, run: seq<State>, i: nat)
    requires ValidWork(w) && IsRun(w, root, run) && i < |run|
    ensures Inv(w, root, run[i])
  {
    if i == 0 {
      InitialInv(w, root, run[0]);
    } else {
      RunKeepsInv(w, root, run, i - 1);
      assert Next(w, run[i - 1], run[i - 1 + 1]);
      NextKeepsInv(w, root, run[i - 1], run[i]);
    }
  }

  lemma NextKeepsInv(w: Work, root: nat, s: State, s': State)
    requires ValidWork(w) && Inv(w, root, s) && Next(w, s, s')
    ensures Inv(w, root, s')
  {
    if k :| CanStep(s, k) && s' == Stepped(w, s, k) {
      StepKeepsInv(w, root, s, k);
    } else {
      var k, j :| CanStart(s, k, j) && s' == Started(s, k, j);
      StartKeepsInv(w, root, s, k, j);
    }
  }

  ghost predicate Stuck(w: Work, s: State)
    requires ValidWork(w)
  {
    forall s' :: !Next(w, s, s')
  }

  /** While a node waits, some thread can go on. */
  lemma NoDeadlock(w: Work, root: nat, s: State, x: nat)
    requires ValidWork(w) && Inv(w, root, s) && Pending(s, x) > 0
    ensures !Stuck(w, s)
  {
    if k :| 0 <= k < |s.threads| && s.threads[k].discovered != [] {
      assert CanStep(s, k);
      assert Next(w, s, Stepped(w, s, k));
    } else {
      NothingQueued(s.threads, x);
      assert s.jobs != [];
      assert CanStart(s, 0, 0);
      assert Next(w, s, Started(s, 0, 0));
    }
  }

  /** In every state of every run: no node visited twice, each at its own depth, every
      waiting chunk non-empty and on a single level. */
  lemma EveryStateIsSafe(w: Work, root: nat, run: seq<State>, i: nat)
    requires ValidWork(w) && IsRun(w, root, run) && i < |run|
    ensures forall x: nat :: Visits(run[i].visits, x) <= 1
    ensures forall v | v in run[i].visits :: v.node < |w.tree.nodes| && v.depth == Depth(w.tree, v.node)
    ensures forall j | 0 <= j < |run[i].jobs| :: JobRight(w.tree, run[i].jobs[j])
  {
    RunKeepsInv(w, root, run, i);
    forall x: nat
      ensures Visits(run[i].visits, x) <= 1
    {
      AccountOf(w, root, run[i], x);
    }
  }

  lemma AccountOf(w: Work, root: nat, s: State, x: nat)
    requires Inv(w, root, s)
    ensures Visits(s.visits, x) + Pending(s, x) <= 1
    ensures Visits(s.visits, x) + Pending(s, x) > 0 ==> Reachable(w, x, root)
    ensures x == root ==> Visits(s.visits, x) + Pending(s, x) > 0
  {
    assert VisitsIn(s)(x) == Visits(s.visits, x) && PendingIn(s)(x) == Pending(s, x);
  }

  lemma NotedIsAccounted(w: Work, root: nat, s: State, v: nat, x: nat)
    requires Inv(w, root, s) && Visits(s.visits, v) > 0 && x in w.noted(v)
    ensures Visits(s.visits, x) + Pending(s, x) > 0
  {
    assert VisitsIn(s)(v) > 0;
    assert VisitsIn(s)(x) + PendingIn(s)(x) > 0;
  }

  lemma {:induction false} AllReachableVisited(w: Work, root: nat, s: State, x: nat)
    requires ValidWork(w) && Inv(w, root, s) && (forall y: nat :: Pending(s, y) == 0) && Reachable(w, x, root)
    ensures Visits(s.visits, x) == 1
    decreases x
  {
    AccountOf(w, root, s, x);
    assert Pending(s, x) == 0;
    if x != root {
      var p := ParentElement(w.tree, x).value;
      AllReachableVisited(w, root, s, p);
      NotedIsAccounted(w, root, s, p, x);
    }
  }

  /** A run that cannot go on has visited every reachable node exactly once, and no
      other node. */
  lemma FinishedRunVisitsAllOnce(w: Work, root: nat, run: seq<State>, x: nat)
    requires ValidWork(w) && IsRun(w, root, run)
    requires Stuck(w, run[|run| - 1])
    ensures Visits(run[|run| - 1].visits, x) == if Reachable(w, x, root) then 1 else 0
  {
    var s := run[|run| - 1];
    RunKeepsInv(w, root, run, |run| - 1);
    forall y: nat
      ensures Pending(s, y) == 0
    {
      if Pending(s, y) > 0 {
        NoDeadlock(w, root, s, y);
      }
    }
    if Reachable(w, x, root) {
      AllReachableVisited(w, root, s, x);
    }
    AccountOf(w, root, s, x);
  }

  // ----------------------------------------------------------- termination

  ghost function NodesOf(visits: seq<Visit>): seq<nat> {
    seq(|visits|, i requires 0 <= i < |visits| => visits[i].node)
  }

  /** One node of every waiting chunk. */
  ghost function HeadsOf(jobs: seq<Job>): seq<nat>
    requires forall j | 0 <= j < |jobs| :: jobs[j].items != []
  {
    seq(|jobs|, j requires 0 <= j < |jobs| => jobs[j].items[0])
  }

  lemma {:induction false} CountVisits(visits: seq<Visit>, x: nat)
    ensures Count(NodesOf(visits), x) == Visits(visits, x)
    decreases |visits|
  {
    if visits != [] {
      var n := |visits| - 1;
      CountVisits(visits[..n], x);
      assert NodesOf(visits)[..n] == NodesOf(visits[..n]);
    }
  }

  lemma {:induction false} CountHeads(jobs: seq<Job>, x: nat)
    requires forall j | 0 <= j < |jobs| :: jobs[j].items != []
    ensures Count(HeadsOf(jobs), x) <= Waiting(jobs, x)
    decreases |jobs|
  {
    if jobs != [] {
      var n := |jobs| - 1;
      CountHeads(jobs[..n], x);
      assert HeadsOf(jobs)[..n] == HeadsOf(jobs[..n]);
      CountMember(jobs[n].items, jobs[n].items[0]);
    }
  }

  lemma {:induction false} DistinctBelow(s: seq<nat>, n: nat)
    requires forall x: nat :: Count(s, x) <= 1
    requires forall i | 0 <= i < |s| :: s[i] < n
    ensures |s| <= n
    decreases n
  {
    if n == 0 {
      assert s == [];
    } else if n - 1 in s {
      var i :| 0 <= i < |s| && s[i] == n - 1;
      var rest := s[..i] + s[i + 1..];
      forall x: nat
        ensures Count(s, x) == Count(rest, x) + if x == n - 1 then 1 else 0
      {
        RemoveOne(s, i, x);
      }
      assert Count(rest, n - 1) == 0;
      CountMember(rest, n - 1);
      DistinctBelow(rest, n - 1);
    } else {
      DistinctBelow(s, n - 1);
    }
  }

  lemma CountAround(before: seq<nat>, y: nat, after: seq<nat>, x: nat)
    ensures Count(before + [y] + after, x) == Count(before + after, x) + if x == y then 1 else 0
  {
    CountConcat(before, after, x);
    CountConcat(before + [y], after, x);
    assert (before + [y])[..|before|] == before;
  }

  lemma RemoveOne(s: seq<nat>, i: nat, x: nat)
    requires i < |s|
    ensures Count(s, x) == Count(s[..i] + s[i + 1..], x) + if x == s[i] then 1 else 0
  {
    var before, y, after := s[..i], s[i], s[i + 1..];
    SplitAround(s, i);
    CountAround(before, y, after, x);
  }

  lemma SplitAround<T>(s: seq<T>, i: nat)
    requires i < |s|
    ensures s == s[..i] + [s[i]] + s[i + 1..]
  {
  }

  lemma MarkedOnce(w: Work, root: nat, s: State, x: nat)
    requires Inv(w, root, s) && forall j | 0 <= j < |s.jobs| :: s.jobs[j].items != []
    ensures Count(NodesOf(s.visits) + HeadsOf(s.jobs), x) <= 1
  {
    CountVisits(s.visits, x);
    CountHeads(s.jobs, x);
    CountConcat(NodesOf(s.visits), HeadsOf(s.jobs), x);
    AccountOf(w, root, s, x);
  }

  /** Visits and waiting chunks together are at most as many as the nodes. */
  lemma FewVisitsAndJobs(w: Work, root: nat, s: State)
    requires Inv(w, root, s)
    ensures |s.visits| + |s.jobs| <= |w.tree.nodes|
  {
    forall x: nat
      ensures Count(NodesOf(s.visits) + HeadsOf(s.jobs), x) <= 1
    {
      MarkedOnce(w, root, s, x);
    }
    DistinctBelow(NodesOf(s.visits) + HeadsOf(s.jobs), |w.tree.nodes|);
  }

  /** Decreases with every step: first the nodes still to visit, then waiting chunks. */
  ghost function Measure(w: Work, s: State): int {
    Rank(|w.tree.nodes|, |s.visits|, |s.jobs|)
  }

  function Rank(n: nat, visits: nat, jobs: nat): int {
    (n - visits) * (n + 1) + jobs
  }

  lemma RankDecreases(n: nat, visits: nat, jobs: nat, jobs': nat)
    requires visits + 1 + jobs' <= n
    ensures 0 <= Rank(n, visits + 1, jobs') < Rank(n, visits, jobs)
  {
    assert (n - visits) * (n + 1) == (n - visits - 1) * (n + 1) + (n + 1);
  }

  lemma RankIsNatural(n: nat, visits: nat, jobs: nat)
    requires visits <= n
    ensures 0 <= Rank(n, visits, jobs)
  {
  }

  lemma StepDecreases(w: Work, root: nat, s: State, k: nat)
    requires ValidWork(w) && Inv(w, root, s) && CanStep(s, k)
    ensures Inv(w, root, Stepped(w, s, k))
    ensures 0 <= Measure(w, Stepped(w, s, k)) < Measure(w, s)
  {
    var s' := Stepped(w, s, k);
    StepKeepsInv(w, root, s, k);
    assert |s'.visits| == |s.visits| + 1 && |s'.visits| + |s'.jobs| <= |w.tree.nodes| by {
      FewVisitsAndJobs(w, root, s');
    }
    var n, visits, waiting, waiting' := |w.tree.nodes|, |s.visits|, |s.jobs|, |s'.jobs|;
    assert Measure(w, s) == Rank(n, visits, waiting) && Measure(w, s') == Rank(n, visits + 1, waiting');
    RankDecreases(n, visits, waiting, waiting');
  }

  lemma StartDecreases(w: Work, root: nat, s: State, k: nat, j: nat)
    requires ValidWork(w) && Inv(w, root, s) && CanStart(s, k, j)
    ensures Inv(w, root, Started(s, k, j))
    ensures 0 <= Measure(w, Started(s, k, j)) < Measure(w, s)
  {
    StartKeepsInv(w, root, s, k, j);
    FewVisitsAndJobs(w, root, Started(s, k, j));
    RankIsNatural(|w.tree.nodes|, |s.visits|, |s.jobs| - 1);
  }

  lemma NextDecreases(w: Work, root: nat, s: State, s': State)
    requires ValidWork(w) && Inv(w, root, s) && Next(w, s, s')
    ensures Inv(w, root, s') && 0 <= Measure(w, s') < Measure(w, s)
  {
    if k :| CanStep(s, k) && s' == Stepped(w, s, k) {
      StepDecreases(w, root, s, k);
    } else {
      var k, j :| CanStart(s, k, j) && s' == Started(s, k, j);
      StartDecreases(w, root, s, k, j);
    }
  }

  /** The measure falls by at least one with every step of a run. */
  lemma {:induction false} MeasureFalls(w: Work, root: nat, run: seq<State>, n: nat)
    requires ValidWork(w) && IsRun(w, root, run) && n < |run|
    ensures n + Measure(w, run[n]) <= Measure(w, run[0])
  {
    if n > 0 {
      MeasureFalls(w, root, run, n - 1);
      StepOfRun(w, root, run, n);
      NextDecreases(w, root, run[n - 1], run[n]);
    }
  }

  lemma StepOfRun(w: Work, root: nat, run: seq<State>, n: nat)
    requires ValidWork(w) && IsRun(w, root, run) && 0 < n < |run|
    ensures Inv(w, root, run[n - 1]) && Next(w, run[n - 1], run[n])
  {
    RunKeepsInv(w, root, run, n - 1);
    assert Next(w, run[n - 1], run[n - 1 + 1]);
  }

  /** No schedule goes on for ever. */
  lemma RunsAreShort(w: Work, root: nat, run: seq<State>)
    requires ValidWork(w) && IsRun(w, root, run)
    ensures |run| - 1 + Measure(w, run[|run| - 1]) <= |w.tree.nodes| * (|w.tree.nodes| + 1)
    ensures |run| <= |w.tree.nodes| * (|w.tree.nodes| + 1) + 1
  {
    var n := |run| - 1;
    MeasureFalls(w, root, run, n);
    MeasureAtStart(w, root, run[0]);
    RunKeepsInv(w, root, run, n);
    MeasureIsNatural(w, root, run[n]);
  }

  lemma MeasureAtStart(w: Work, root: nat, s: State)
    requires Initial(w, root, s)
    ensures Measure(w, s) == |w.tree.nodes| * (|w.tree.nodes| + 1)
  {
  }

  lemma MeasureIsNatural(w: Work, root: nat, s: State)
    requires Inv(w, root, s)
    ensures 0 <= Measure(w, s)
  {
    FewVisitsAndJobs(w, root, s);
    RankIsNatural(|w.tree.nodes|, |s.visits|, |s.jobs|);
  }

  // -------------------------------------------------------- the code itself

  /** What a thread keeps between chunks. */
  class ThreadContext {
    var currentDomDepth: nat

    constructor (depth: nat)
      ensures currentDomDepth == depth
    {
      currentDomDepth := depth;
    }
  }

  class Traversal {
    const work: Work
    var visits: seq<Visit>
    var jobs: seq<Job>
    /** The queue of every thread, as its loop left it. */
    ghost var threads: seq<Thread>

    constructor (work: Work, threads: nat)
      ensures this.work == work && visits == [] && jobs == [] && |this.threads| == threads
      ensures forall k | 0 <= k < threads :: this.threads[k].discovered == []
    {
      this.work, visits, jobs := work, [], [];
      this.threads := seq(threads, k => Thread([], 0, 0));
    }

    ghost function Now(): State
      reads this
    {
      State(visits, threads, jobs)
    }

    method DistributeOneChunk(items: seq<nat>, depth: nat)
      modifies this`jobs
      ensures jobs == old(jobs) + [Job(items, depth)]
    {
      jobs := jobs + [Job(items, depth)];
    }

    method DistributeWork(items: seq<nat>, depth: nat)
      requires work.unitMax > 0
      modifies this`jobs
      ensures jobs == old(jobs) + Chunks(items, work.unitMax, depth)
    {
      var rest := items;
      while true
        invariant jobs + Chunks(rest, work.unitMax, depth) == old(jobs) + Chunks(items, work.unitMax, depth)
        decreases |rest|
      {
        var size := Min(work.unitMax, |rest|);
        var chunk := rest[..size];
        if chunk == [] {
          return;
        }
        ghost var after := Chunks(rest[size..], work.unitMax, depth);
        assert Chunks(rest, work.unitMax, depth) == [Job(chunk, depth)] + after;
        assert jobs + ([Job(chunk, depth)] + after) == (jobs + [Job(chunk, depth)]) + after;
        rest := rest[size..];
        DistributeOneChunk(chunk, depth);
      }
    }

    /** Runs thread `k` until its queue is empty, whatever else waits meanwhile. */
    method StyleTrees(k: nat, items: seq<nat>, context: ThreadContext, ghost root: nat)
      requires ValidWork(work) && Inv(work, root, Now())
      requires k < |threads| && threads[k] == Thread(items, |items|, context.currentDomDepth)
      modifies this, context
      ensures Inv(work, root, Now()) && |threads| == |old(threads)| && threads[k].discovered == []
      ensures forall i | 0 <= i < |threads| && i != k :: threads[i] == old(threads)[i]
      ensures Measure(work, Now()) <= old(Measure(work, Now()))
    {
      var discovered: seq<nat>, nodesRemaining: nat := items, |items|;
      while discovered != []
        invariant Inv(work, root, Now()) && |threads| == |old(threads)|
        invariant threads[k] == Thread(discovered, nodesRemaining, context.currentDomDepth)
        invariant forall i | 0 <= i < |threads| && i != k :: threads[i] == old(threads)[i]
        invariant Measure(work, Now()) <= old(Measure(work, Now()))
        decreases Measure(work, Now())
      {
        StepDecreases(work, root, Now(), k);
        discovered, nodesRemaining := ProcessFirst(k, discovered, nodesRemaining, context);
        threads := threads[k := Thread(discovered, nodesRemaining, context.currentDomDepth)];
      }
    }

    /** One round of the loop. */
    method ProcessFirst(k: nat, queue: seq<nat>, remaining: nat, context: ThreadContext)
      returns (discovered: seq<nat>, nodesRemaining: nat)
      requires ValidWork(work) && 0 < remaining <= |queue|
      requires k < |threads| && threads[k] == Thread(queue, remaining, context.currentDomDepth)
      modifies this`visits, this`jobs, context
      ensures var t := Thread(discovered, nodesRemaining, context.currentDomDepth);
              State(visits, threads[k := t], jobs) == Stepped(work, old(Now()), k)
    {
      var node := queue[0];
      ghost var all := Discovered(work, threads[k]);
      discovered := queue[1..];
      visits := visits + [Visit(node, context.currentDomDepth)];
      discovered := NoteChildren(node, discovered);
      assert discovered == all;
      nodesRemaining := remaining - 1;
      discovered := ShareSurplus(k, discovered, nodesRemaining, context.currentDomDepth);
      if nodesRemaining == 0 {
        context.currentDomDepth := context.currentDomDepth + 1;
        nodesRemaining := |discovered|;
      }
    }

    /** Hands out the discovered children beyond what the thread keeps for itself. */
    method ShareSurplus(k: nat, queue: seq<nat>, nodesRemaining: nat, depth: nat) returns (discovered: seq<nat>)
      requires ValidWork(work) && nodesRemaining <= |queue|
      modifies this`jobs
      ensures var kept := Kept(work, k, queue, nodesRemaining);
              && discovered == queue[..kept]
              && jobs == if work.pooled then old(jobs) + Chunks(queue[kept..], work.unitMax, depth + 1) else old(jobs)
      ensures KeepsEnough(work, k, queue, nodesRemaining, |discovered|)
    {
      discovered := queue;
      var discoveredChildren := |discovered| - nodesRemaining;
      if discoveredChildren >= work.unitMax && |discovered| >= work.localQueueSize(k) + work.unitMax && work.pooled {
        var keptWork := Max(nodesRemaining, work.localQueueSize(k));
        DistributeWork(discovered[keptWork..], depth + 1);
        discovered := discovered[..keptWork];
      } else {
        KeepsAll(work, jobs, discovered, depth + 1);
      }
    }

    /** Processing a node appends the children it notes. */
    method NoteChildren(node: nat, queue: seq<nat>) returns (discovered: seq<nat>)
      ensures discovered == queue + work.noted(node)
    {
      discovered := queue;
      var children := work.noted(node);
      for i := 0 to |children|
        invariant discovered == queue + children[..i]
      {
        discovered := discovered + [children[i]];
        assert children[..i + 1] == children[..i] + [children[i]];
      }
      assert children[..|children|] == children;
    }

    /** An idle thread starts on a waiting chunk. */
    method TakeChunk(k: nat, j: nat, context: ThreadContext, ghost root: nat) returns (items: seq<nat>)
      requires ValidWork(work) && Inv(work, root, Now()) && CanStart(Now(), k, j)
      modifies this, context
      ensures Now() == Started(old(Now()), k, j) && Inv(work, root, Now())
      ensures threads[k] == Thread(items, |items|, context.currentDomDepth)
      ensures 0 <= Measure(work, Now()) < old(Measure(work, Now()))
    {
      StartDecreases(work, root, Now(), k, j);
      items := jobs[j].items;
      context.currentDomDepth := jobs[j].depth;
      threads := threads[k := Thread(items, |items|, jobs[j].depth)];
      jobs := jobs[..j] + jobs[j + 1..];
    }

    /** The traversal without a pool, and on one thread of a pool whose chunks all come
        back to it: every reachable node once, at its depth. */
    method TraverseDom(root: nat)
      requires ValidWork(work) && root < |work.tree.nodes|
      requires visits == [] && jobs == [] && |threads| == 1 && threads[0].discovered == []
      modifies this
      ensures forall x: nat :: Visits(visits, x) == if Reachable(work, x, root) then 1 else 0
      ensures forall i | 0 <= i < |visits| ::
                visits[i].node < |work.tree.nodes| && visits[i].depth == Depth(work.tree, visits[i].node)
    {
      var context := new ThreadContext(Depth(work.tree, root));
      threads := [Thread([root], 1, context.currentDomDepth)];
      InitialInv(work, root, Now());
      StyleTrees(0, [root], context, root);
      while jobs != []
        invariant Inv(work, root, Now()) && |threads| == 1 && threads[0].discovered == []
        decreases Measure(work, Now())
      {
        var items := TakeChunk(0, 0, context, root);
        StyleTrees(0, items, context, root);
      }
      AllVisited(work, root, Now());
    }
  }

  lemma KeepsAll(w: Work, jobs: seq<Job>, queue: seq<nat>, depth: nat)
    ensures queue[..|queue|] == queue
    ensures w.unitMax > 0 ==> jobs + Chunks(queue[|queue|..], w.unitMax, depth) == jobs
  {
  }

  lemma NothingLeft(w: Work, root: nat, s: State, x: nat)
    requires ValidWork(w) && Inv(w, root, s) && s.jobs == []
    requires forall k | 0 <= k < |s.threads| :: s.threads[k].discovered == []
    ensures Visits(s.visits, x) == if Reachable(w, x, root) then 1 else 0
  {
    forall y: nat
      ensures Pending(s, y) == 0
    {
      NothingQueued(s.threads, y);
    }
    AccountOf(w, root, s, x);
    if Reachable(w, x, root) {
      AllReachableVisited(w, root, s, x);
    }
  }

  lemma AllVisited(w: Work, root: nat, s: State)
    requires ValidWork(w) && Inv(w, root, s) && s.jobs == [] && |s.threads| == 1 && s.threads[0].discovered == []
    ensures forall x: nat :: Visits(s.visits, x) == if Reachable(w, x, root) then 1 else 0
  {
    assert forall k | 0 <= k < |s.threads| :: s.threads[k].discovered == [];
    forall x: nat
      ensures Visits(s.visits, x) == if Reachable(w, x, root) then 1 else 0
    {
      NothingLeft(w, root, s, x);
    }
  }
}
