/** The counting protocol behind shared boxes: `clone` and `drop` as separate atomic
    steps on one counter, taken by any number of threads in any order. */
module RefCount {

  const MAX_REFCOUNT: nat := 0x7fff_ffff_ffff_ffff
  const STATIC_REFCOUNT: nat := 0xffff_ffff_ffff_ffff

  /** The counter is a machine word. */
  function Wrapped(x: int): nat {
    x % 0x1_0000_0000_0000_0000
  }

  /** A handle is in use, or a step of its `drop` has been taken: it has seen that the
      box is not static; it has subtracted, and knows what was there before; it is about
      to destroy the box. */
  datatype Phase = Live | Leaving | Subtracted(seen: nat) | Destroying

  /** A `clone` has begun; it has seen that the box is not static; it has added. */
  datatype Stage = Started | Loaded | Added(seen: nat)

  /** A `clone` borrows the handle it copies. */
  datatype Cloner = Cloner(of: nat, stage: Stage)

  /** `destroyed` counts how often the destructor has run; `leaked` says whether the box
      was marked as intentionally leaked. */
  datatype State = State(
    count: nat,
    handles: map<nat, Phase>,
    cloners: map<nat, Cloner>,
    destroyed: nat,
    aborted: bool,
    leaked: bool)

  ghost predicate Borrowed(s: State, h: nat) {
    exists t :: t in s.cloners && s.cloners[t].of == h
  }

  // ------------------------------------------------------------------ steps

  datatype Step =
    | CloneStart(t: nat, h: nat)
    | CloneLoad(t: nat, copy: nat)
    | CloneAdd(t: nat)
    | CloneFinish(t: nat, copy: nat)
    | DropLoad(h: nat)
    | DropSub(h: nat)
    | DropCheck(h: nat)
    | DropSlow(h: nat)
    | Leak(h: nat)

  /** A step happens where its thread is in the code.  A borrowed handle is not dropped,
      and a box is marked as leaked only before it is shared. */
  ghost predicate Enabled(s: State, step: Step) {
    && !s.aborted
    && match step
       case CloneStart(t, h) => t !in s.cloners && h in s.handles && s.handles[h].Live?
       case CloneLoad(t, copy) => t in s.cloners && s.cloners[t].stage.Started? && copy !in s.handles
       case CloneAdd(t) => t in s.cloners && s.cloners[t].stage.Loaded?
       case CloneFinish(t, copy) => t in s.cloners && s.cloners[t].stage.Added? && copy !in s.handles
       case DropLoad(h) => h in s.handles && s.handles[h].Live? && !Borrowed(s, h)
       case DropSub(h) => h in s.handles && s.handles[h].Leaving?
       case DropCheck(h) => h in s.handles && s.handles[h].Subtracted?
       case DropSlow(h) => h in s.handles && s.handles[h].Destroying?
       case Leak(h) => s.handles == map[h := Live] && s.cloners == map[]
  }

  ghost function After(s: State, step: Step): State
    requires Enabled(s, step)
  {
    match step
    case CloneStart(t, h) => s.(cloners := s.cloners[t := Cloner(h, Started)])
    case CloneLoad(t, copy) =>
      if s.count == STATIC_REFCOUNT then s.(handles := s.handles[copy := Live], cloners := s.cloners - {t})
      else s.(cloners := s.cloners[t := Cloner(s.cloners[t].of, Loaded)])
    case CloneAdd(t) =>
      s.(count := Wrapped(s.count + 1), cloners := s.cloners[t := Cloner(s.cloners[t].of, Added(s.count))])
    case CloneFinish(t, copy) =>
      if s.cloners[t].stage.seen > MAX_REFCOUNT then s.(aborted := true)
      else s.(handles := s.handles[copy := Live], cloners := s.cloners - {t})
    case DropLoad(h) =>
      if s.count == STATIC_REFCOUNT then s.(handles := s.handles - {h}) else s.(handles := s.handles[h := Leaving])
    case DropSub(h) => s.(count := Wrapped(s.count - 1), handles := s.handles[h := Subtracted(s.count)])
    case DropCheck(h) =>
      if s.handles[h].seen != 1 then s.(handles := s.handles - {h}) else s.(handles := s.handles[h := Destroying])
    case DropSlow(h) => s.(handles := s.handles - {h}, destroyed := s.destroyed + 1)
    case Leak(h) => s.(count := STATIC_REFCOUNT, leaked := true)
  }

  /** Steps that read or write the counter, or the box itself. */
  predicate TouchesBox(s: State, step: Step)
    requires Enabled(s, step)
  {
    match step
    case CloneStart(_, _) => false
    case CloneFinish(_, _) => false
    case DropCheck(h) => s.handles[h].seen == 1
    case _ => true
  }

  // -------------------------------------------------------------- invariant

  ghost function Having<V>(m: map<nat, V>, p: V -> bool): set<nat> {
    set k | k in m && p(m[k])
  }

  ghost function Tally<V>(m: map<nat, V>, p: V -> bool): nat {
    |Having(m, p)|
  }

  /** Handles that have not been subtracted. */
  function Holds(): Phase -> bool {
    (p: Phase) => p.Live? || p.Leaving?
  }

  /** Clones that have been added but not handed over yet. */
  function Adds(): Cloner -> bool {
    (c: Cloner) => c.stage.Added?
  }

  function AddsTooMany(): Cloner -> bool {
    (c: Cloner) => c.stage.Added? && c.stage.seen > MAX_REFCOUNT
  }

  /** The handle whose `drop` has to destroy the box. */
  function Dies(): Phase -> bool {
    (p: Phase) => p == Subtracted(1) || p.Destroying?
  }

  ghost function References(s: State): nat {
    Tally(s.handles, Holds()) + Tally(s.cloners, Adds())
  }

  ghost predicate BorrowsLive(s: State) {
    forall t | t in s.cloners :: s.cloners[t].of in s.handles && s.handles[s.cloners[t].of].Live?
  }

  /** The counter of a box that is not static is the number of references, and exactly
      one thread is to destroy the box, or has done so, when there are none. */
  ghost predicate Inv(s: State) {
    && BorrowsLive(s)
    && if s.leaked then
         && s.count == STATIC_REFCOUNT
         && s.destroyed == 0
         && (forall h | h in s.handles :: s.handles[h].Live?)
         && (forall t | t in s.cloners :: s.cloners[t].stage.Started?)
       else
         && s.count == References(s)
         && s.count <= MAX_REFCOUNT + 1 + Tally(s.cloners, AddsTooMany())
         && Tally(s.handles, Dies()) + s.destroyed == if s.count == 0 then 1 else 0
  }

  /** Fewer threads are cloning at once than the count has room for above the bound at
      which a clone aborts. */
  ghost predicate FewThreads(s: State) {
    |s.cloners| < MAX_REFCOUNT
  }

  // ------------------------------------------------------------- lemmas

  lemma TallyInsert<V>(m: map<nat, V>, k: nat, v: V, p: V -> bool)
    requires k !in m
    ensures Tally(m[k := v], p) == Tally(m, p) + if p(v) then 1 else 0
  {
    assert Having(m[k := v], p) == Having(m, p) + if p(v) then {k} else {};
  }

  lemma TallyUpdate<V>(m: map<nat, V>, k: nat, v: V, p: V -> bool)
    ensures Tally(m[k := v], p) + (if k in m && p(m[k]) then 1 else 0) == Tally(m, p) + if p(v) then 1 else 0
  {
    if k in m {
      TallyRemove(m, k, p);
      TallyInsert(m - {k}, k, v, p);
      assert m[k := v] == (m - {k})[k := v];
    } else {
      TallyInsert(m, k, v, p);
    }
  }

  lemma TallyRemove<V>(m: map<nat, V>, k: nat, p: V -> bool)
    requires k in m
    ensures Tally(m - {k}, p) + (if p(m[k]) then 1 else 0) == Tally(m, p)
  {
    var rest := Having(m, p) - {k};
    assert Having(m, p) == rest + if p(m[k]) then {k} else {};
    assert Having(m - {k}, p) == rest;
  }

  lemma TallyOne<V>(m: map<nat, V>, k: nat, p: V -> bool)
    requires k in m && p(m[k])
    ensures Tally(m, p) > 0
  {
    assert k in Having(m, p);
  }

  lemma TallyNone<V>(m: map<nat, V>, p: V -> bool)
    requires Tally(m, p) == 0
    ensures forall k | k in m :: !p(m[k])
  {
    forall k | k in m
      ensures !p(m[k])
    {
      if p(m[k]) {
        TallyOne(m, k, p);
      }
    }
  }

  lemma TallyAtMostAll<V>(m: map<nat, V>, p: V -> bool)
    ensures Tally(m, p) <= |m|
  {
    SubsetSize(Having(m, p), m.Keys);
    assert |m.Keys| == |m|;
  }

  lemma {:induction false} SubsetSize(a: set<nat>, b: set<nat>)
    requires a <= b
    ensures |a| <= |b|
  {
    if a != {} {
      var x :| x in a;
      SubsetSize(a - {x}, b - {x});
    }
  }

  /** Before it wraps or reaches the static value, the program aborts. */
  lemma CountStaysSmall(s: State)
    requires Inv(s) && !s.leaked && FewThreads(s)
    ensures s.count < STATIC_REFCOUNT
  {
    TallyAtMostAll(s.cloners, AddsTooMany());
  }

  /** A clone in progress keeps the counter above zero. */
  lemma ClonerMeansReference(s: State, t: nat)
    requires Inv(s) && !s.leaked && t in s.cloners
    ensures s.count > 0 && s.destroyed == 0 && Tally(s.handles, Dies()) == 0
  {
    TallyOne(s.handles, s.cloners[t].of, Holds());
  }

  lemma HolderMeansReference(s: State, h: nat)
    requires Inv(s) && !s.leaked && h in s.handles && Holds()(s.handles[h])
    ensures s.count > 0 && s.destroyed == 0 && Tally(s.handles, Dies()) == 0
  {
    TallyOne(s.handles, h, Holds());
  }

  lemma CloneStartKeepsInv(s: State, t: nat, h: nat)
    requires Inv(s) && FewThreads(s) && Enabled(s, CloneStart(t, h))
    ensures Inv(After(s, CloneStart(t, h)))
  {
    if !s.leaked {
      CountStaysSmall(s);
    }
    TallyUpdate(s.cloners, t, Cloner(h, Started), Adds());
    TallyUpdate(s.cloners, t, Cloner(h, Started), AddsTooMany());
  }

  lemma CloneLoadKeepsInv(s: State, t: nat, copy: nat)
    requires Inv(s) && FewThreads(s) && Enabled(s, CloneLoad(t, copy))
    ensures Inv(After(s, CloneLoad(t, copy)))
  {
    if !s.leaked {
      CountStaysSmall(s);
    }
    TallyUpdate(s.cloners, t, Cloner(s.cloners[t].of, Loaded), Adds());
    TallyUpdate(s.cloners, t, Cloner(s.cloners[t].of, Loaded), AddsTooMany());
  }

  lemma CloneAddKeepsInv(s: State, t: nat)
    requires Inv(s) && FewThreads(s) && Enabled(s, CloneAdd(t))
    ensures Inv(After(s, CloneAdd(t)))
  {
    if !s.leaked {
      CountStaysSmall(s);
    }
    ClonerMeansReference(s, t);
    TallyUpdate(s.cloners, t, Cloner(s.cloners[t].of, Added(s.count)), Adds());
    TallyUpdate(s.cloners, t, Cloner(s.cloners[t].of, Added(s.count)), AddsTooMany());
  }

  lemma CloneFinishKeepsInv(s: State, t: nat, copy: nat)
    requires Inv(s) && FewThreads(s) && Enabled(s, CloneFinish(t, copy))
    ensures Inv(After(s, CloneFinish(t, copy)))
  {
    if !s.leaked {
      CountStaysSmall(s);
    }
    ClonerMeansReference(s, t);
    TallyUpdate(s.handles, copy, Live, Holds());
    TallyUpdate(s.handles, copy, Live, Dies());
    TallyRemove(s.cloners, t, Adds());
    TallyRemove(s.cloners, t, AddsTooMany());
  }

  lemma DropLoadKeepsInv(s: State, h: nat)
    requires Inv(s) && FewThreads(s) && Enabled(s, DropLoad(h))
    ensures Inv(After(s, DropLoad(h)))
  {
    if !s.leaked {
      CountStaysSmall(s);
      TallyUpdate(s.handles, h, Leaving, Holds());
      TallyUpdate(s.handles, h, Leaving, Dies());
    }
  }

  lemma DropSubKeepsInv(s: State, h: nat)
    requires Inv(s) && FewThreads(s) && Enabled(s, DropSub(h))
    ensures Inv(After(s, DropSub(h)))
  {
    CountStaysSmall(s);
    HolderMeansReference(s, h);
    TallyUpdate(s.handles, h, Subtracted(s.count), Holds());
    TallyUpdate(s.handles, h, Subtracted(s.count), Dies());
  }

  lemma DropCheckKeepsInv(s: State, h: nat)
    requires Inv(s) && Enabled(s, DropCheck(h))
    ensures Inv(After(s, DropCheck(h)))
  {
    if s.handles[h].seen == 1 {
      TallyUpdate(s.handles, h, Destroying, Holds());
      TallyUpdate(s.handles, h, Destroying, Dies());
    } else {
      TallyRemove(s.handles, h, Holds());
      TallyRemove(s.handles, h, Dies());
    }
  }

  lemma DropSlowKeepsInv(s: State, h: nat)
    requires Inv(s) && Enabled(s, DropSlow(h))
    ensures Inv(After(s, DropSlow(h)))
  {
    TallyRemove(s.handles, h, Holds());
    TallyRemove(s.handles, h, Dies());
  }

  lemma LeakKeepsInv(s: State, h: nat)
    requires Inv(s) && Enabled(s, Leak(h))
    ensures Inv(After(s, Leak(h)))
  {
    if !s.leaked {
      HolderMeansReference(s, h);
    }
  }

  lemma StepKeepsInv(s: State, step: Step)
    requires Inv(s) && FewThreads(s) && Enabled(s, step)
    ensures Inv(After(s, step))
  {
    match step {
      case DropLoad(h) => DropLoadKeepsInv(s, h);
      case DropSub(h) => DropSubKeepsInv(s, h);
      case DropCheck(h) => DropCheckKeepsInv(s, h);
      case DropSlow(h) => DropSlowKeepsInv(s, h);
      case Leak(h) => LeakKeepsInv(s, h);
      case CloneStart(t, k) => CloneStartKeepsInv(s, t, k);
      case CloneLoad(t, copy) => CloneLoadKeepsInv(s, t, copy);
      case CloneAdd(t) => CloneAddKeepsInv(s, t);
      case CloneFinish(t, copy) => CloneFinishKeepsInv(s, t, copy);
    }
  }

  // -------------------------------------------------------------- whole runs

  function Fresh(h: nat): State {
    State(1, map[h := Live], map[], 0, false, false)
  }

  lemma FreshIsSound(h: nat)
    ensures Inv(Fresh(h))
  {
    TallyInsert(map[], h, Live, Holds());
    TallyInsert(map[], h, Live, Dies());
    assert map[][h := Live] == map[h := Live];
  }

  /** The state after a run of steps in any order. */
  ghost predicate IsRun(h: nat, steps: seq<Step>, states: seq<State>) {
    && |states| == |steps| + 1 && states[0] == Fresh(h)
    && (forall i | 0 <= i < |states| :: FewThreads(states[i]))
    && forall i | 0 <= i < |steps| :: Enabled(states[i], steps[i]) && states[i + 1] == After(states[i], steps[i])
  }

  lemma {:induction false} RunKeepsInv(h: nat, steps: seq<Step>, states: seq<State>, i: nat)
    requires IsRun(h, steps, states) && i < |states|
    ensures Inv(states[i])
  {
    if i == 0 {
      FreshIsSound(h);
    } else {
      RunKeepsInv(h, steps, states, i - 1);
      assert Enabled(states[i - 1], steps[i - 1]) && states[i - 1 + 1] == After(states[i - 1], steps[i - 1]);
      StepKeepsInv(states[i - 1], steps[i - 1]);
    }
  }

  /** The counter of a box that is not static is exactly the number of handles that have
      not been subtracted, clones on their way included. */
  lemma CountIsReferences(h: nat, steps: seq<Step>, states: seq<State>, i: nat)
    requires IsRun(h, steps, states) && i < |states|
    ensures if states[i].leaked then states[i].count == STATIC_REFCOUNT
            else states[i].count == References(states[i]) < STATIC_REFCOUNT
  {
    RunKeepsInv(h, steps, states, i);
    if !states[i].leaked {
      CountStaysSmall(states[i]);
    }
  }

  /** The destructor runs at most once, never for a static box, and only when no handle
      and no clone is left that could still look at the box. */
  lemma DestroyedAfterLast(h: nat, steps: seq<Step>, states: seq<State>, i: nat)
    requires IsRun(h, steps, states) && i < |states|
    ensures states[i].destroyed <= 1
    ensures states[i].leaked ==> states[i].destroyed == 0
    ensures states[i].destroyed == 1 ==>
              states[i].cloners == map[] && forall k | k in states[i].handles :: !Holds()(states[i].handles[k])
  {
    var s := states[i];
    RunKeepsInv(h, steps, states, i);
    if s.destroyed > 0 {
      assert s.count == 0;
      TallyNone(s.handles, Holds());
      forall t | t in s.cloners
        ensures false
      {
        ClonerMeansReference(s, t);
      }
    }
  }

  /** No step ever touches a destroyed box. */
  lemma NoUseAfterFree(h: nat, steps: seq<Step>, states: seq<State>, i: nat)
    requires IsRun(h, steps, states) && i < |steps| && TouchesBox(states[i], steps[i])
    ensures states[i].destroyed == 0
  {
    var s := states[i];
    RunKeepsInv(h, steps, states, i);
    if !s.leaked {
      match steps[i] {
        case CloneLoad(t, _) => ClonerMeansReference(s, t);
        case CloneAdd(t) => ClonerMeansReference(s, t);
        case DropCheck(k) => TallyOne(s.handles, k, Dies());
        case DropSlow(k) => TallyOne(s.handles, k, Dies());
        case Leak(k) => HolderMeansReference(s, k);
        case DropLoad(k) => HolderMeansReference(s, k);
        case DropSub(k) => HolderMeansReference(s, k);
      }
    }
  }

  /** When every handle has been dropped and nothing is under way, the box of a box that
      was not leaked has been destroyed exactly once. */
  lemma DestroyedInTheEnd(h: nat, steps: seq<Step>, states: seq<State>)
    requires IsRun(h, steps, states)
    requires var s := states[|steps|]; s.handles == map[] && s.cloners == map[]
    ensures states[|steps|].destroyed == if states[|steps|].leaked then 0 else 1
  {
    var s := states[|steps|];
    RunKeepsInv(h, steps, states, |steps|);
    TallyAtMostAll(s.handles, Holds());
    TallyAtMostAll(s.handles, Dies());
    TallyAtMostAll(s.cloners, Adds());
  }

  /** How many steps a handle or a clone has before it at most. */
  function StepsLeft(s: State, h: nat): nat {
    if h !in s.handles then 0
    else match s.handles[h]
      case Live => 4
      case Leaving => 3
      case Subtracted(_) => 2
      case Destroying => 1
  }

  function CloneStepsLeft(s: State, t: nat): nat {
    if t !in s.cloners then 0
    else match s.cloners[t].stage
      case Started => 3
      case Loaded => 2
      case Added(_) => 1
  }

  /** A handle that nobody borrows can go on dropping, and gets nearer to its end. */
  lemma DropGoesOn(s: State, h: nat) returns (step: Step)
    requires Inv(s) && !s.aborted && h in s.handles && !Borrowed(s, h)
    ensures Enabled(s, step) && StepsLeft(After(s, step), h) < StepsLeft(s, h)
    ensures forall k | k != h :: StepsLeft(After(s, step), k) == StepsLeft(s, k)
  {
    step := match s.handles[h]
      case Live => DropLoad(h)
      case Leaving => DropSub(h)
      case Subtracted(_) => DropCheck(h)
      case Destroying => DropSlow(h);
  }

  /** A clone can go on, and gets nearer to its end unless the program aborts. */
  lemma CloneGoesOn(s: State, t: nat, copy: nat) returns (step: Step)
    requires Inv(s) && !s.aborted && t in s.cloners && copy !in s.handles
    ensures Enabled(s, step)
    ensures After(s, step).aborted || CloneStepsLeft(After(s, step), t) < CloneStepsLeft(s, t)
  {
    step := match s.cloners[t].stage
      case Started => CloneLoad(t, copy)
      case Loaded => CloneAdd(t)
      case Added(_) => CloneFinish(t, copy);
  }

  ghost predicate HasReferences(s: State, n: nat) {
    !s.leaked && References(s) == n
  }

  /** At some time up to `i` the number of references was `n`. */
  ghost predicate OnceHad(states: seq<State>, i: nat, n: nat)
    requires i < |states|
  {
    exists j | 0 <= j <= i :: HasReferences(states[j], n)
  }

  predicate HasAdded(s: State, t: nat, seen: nat) {
    t in s.cloners && s.cloners[t].stage == Added(seen)
  }

  lemma LastStep(h: nat, steps: seq<Step>, states: seq<State>, i: nat)
    requires IsRun(h, steps, states) && 0 < i < |states|
    ensures Inv(states[i - 1]) && Enabled(states[i - 1], steps[i - 1])
    ensures states[i] == After(states[i - 1], steps[i - 1])
  {
    RunKeepsInv(h, steps, states, i - 1);
    assert Enabled(states[i - 1], steps[i - 1]) && states[i - 1 + 1] == After(states[i - 1], steps[i - 1]);
  }

  /** A clone that has added did so in the last step, or had before. */
  ghost predicate AddedOrBefore(states: seq<State>, i: nat, t: nat, seen: nat)
    requires i < |states|
  {
    HasAdded(states[i], t, seen) ==>
      i > 0 && (HasAdded(states[i - 1], t, seen) || HasReferences(states[i - 1], seen))
  }

  lemma StepsAddOne(h: nat, steps: seq<Step>, states: seq<State>, i: nat, t: nat, seen: nat)
    requires IsRun(h, steps, states) && i < |states|
    ensures AddedOrBefore(states, i, t, seen)
  {
    if i > 0 {
      LastStep(h, steps, states, i);
    }
  }

  lemma {:induction false} OnceAdded(states: seq<State>, i: nat, t: nat, seen: nat)
    requires i < |states| && HasAdded(states[i], t, seen)
    requires forall k | 0 <= k <= i :: AddedOrBefore(states, k, t, seen)
    ensures OnceHad(states, i, seen)
  {
    assert AddedOrBefore(states, i, t, seen);
    if HasAdded(states[i - 1], t, seen) {
      OnceAdded(states, i - 1, t, seen);
    }
  }

  /** What a clone has seen when it added was the number of references at that time. */
  lemma AddedSawReferences(h: nat, steps: seq<Step>, states: seq<State>, i: nat, t: nat, seen: nat)
    requires IsRun(h, steps, states) && i < |states| && HasAdded(states[i], t, seen)
    ensures OnceHad(states, i, seen)
  {
    forall k | 0 <= k <= i
      ensures AddedOrBefore(states, k, t, seen)
    {
      StepsAddOne(h, steps, states, k, t, seen);
    }
    OnceAdded(states, i, t, seen);
  }

  /** The program aborts only after there have been too many references. */
  lemma {:induction false} AbortMeansTooMany(h: nat, steps: seq<Step>, states: seq<State>, i: nat)
    requires IsRun(h, steps, states) && i < |states| && states[i].aborted
    ensures exists n: nat | OnceHad(states, i, n) :: n > MAX_REFCOUNT
  {
    var s := states[i - 1];
    LastStep(h, steps, states, i);
    var t := steps[i - 1].t;
    var n := s.cloners[t].stage.seen;
    AddedSawReferences(h, steps, states, i - 1, t, n);
    assert OnceHad(states, i, n);
  }

  /** As long as there have never been too many references, every clone hands its copy over. */
  lemma ClonesSucceed(h: nat, steps: seq<Step>, states: seq<State>, i: nat, t: nat, copy: nat)
    requires IsRun(h, steps, states) && i < |steps| && steps[i] == CloneFinish(t, copy)
    requires forall j | 0 <= j <= i :: References(states[j]) <= MAX_REFCOUNT
    ensures !states[i + 1].aborted && copy !in states[i].handles
    ensures states[i + 1] == states[i].(handles := states[i].handles[copy := Live], cloners := states[i].cloners - {t})
  {
    assert Enabled(states[i], steps[i]) && states[i + 1] == After(states[i], steps[i]);
    AddedSawReferences(h, steps, states, i, t, states[i].cloners[t].stage.seen);
  }

  predicate IsUnique(s: State) {
    s.count == 1
  }

  /** `k` is the only handle, and nobody is cloning. */
  ghost predicate Alone(s: State, k: nat) {
    && !s.leaked && s.cloners == map[]
    && forall other | other in s.handles && other != k :: !Holds()(s.handles[other])
  }

  lemma UniqueIffAlone(s: State, k: nat)
    requires Inv(s) && k in s.handles && s.handles[k].Live? && !Borrowed(s, k)
    ensures IsUnique(s) <==> Alone(s, k)
  {
    TallyRemove(s.handles, k, Holds());
    if IsUnique(s) {
      TallyNone(s.handles - {k}, Holds());
      forall other | other in s.handles && other != k
        ensures !Holds()(s.handles[other])
      {
        assert other in s.handles - {k} && (s.handles - {k})[other] == s.handles[other];
      }
      if t :| t in s.cloners {
        assert false;
      }
    }
    assert Alone(s, k) ==> Having(s.handles - {k}, Holds()) == {} && Having(s.cloners, Adds()) == {};
  }

  /** A live handle that reads one is alone: no other handle, no clone under way. */
  lemma UniqueMeansAlone(h: nat, steps: seq<Step>, states: seq<State>, i: nat, k: nat)
    requires IsRun(h, steps, states) && i < |states|
    requires k in states[i].handles && states[i].handles[k].Live? && !Borrowed(states[i], k)
    ensures IsUnique(states[i]) <==> Alone(states[i], k)
  {
    RunKeepsInv(h, steps, states, i);
    UniqueIffAlone(states[i], k);
  }

  /** The copy is in use, its clone is over, and nothing else has changed. */
  ghost predicate HandedOver(s: State, s': State, t: nat, copy: nat) {
    && copy in s'.handles && s'.handles[copy].Live? && s'.handles - {copy} == s.handles - {copy}
    && s'.cloners == s.cloners - {t}
    && s'.count == s.count && s'.destroyed == s.destroyed && s'.aborted == s.aborted && s'.leaked == s.leaked
  }

  /** A counted box.  Every method is one atomic step of the thread that runs it. */
  class ArcInner {
    var count: nat
    ghost var state: State

    ghost predicate Valid()
      reads this
    {
      state.count == count
    }

    constructor (ghost h: nat)
      ensures Valid() && state == Fresh(h)
    {
      count, state := 1, Fresh(h);
    }

    method FetchAdd() returns (before: nat)
      modifies this`count
      ensures before == old(count) && count == Wrapped(old(count) + 1)
    {
      before := count;
      count := Wrapped(count + 1);
    }

    method FetchSub() returns (before: nat)
      modifies this`count
      ensures before == old(count) && count == Wrapped(old(count) - 1)
    {
      before := count;
      count := Wrapped(count - 1);
    }

    /** `clone`, first part: a static box needs no counting. */
    method CloneCheck(ghost t: nat, ghost copy: nat) returns (done: bool)
      requires Valid() && Enabled(state, CloneLoad(t, copy))
      modifies this
      ensures Valid() && state == After(old(state), CloneLoad(t, copy))
      ensures done <==> old(count) == STATIC_REFCOUNT
      ensures count == old(count) && (done ==> HandedOver(old(state), state, t, copy))
      ensures !done ==> state.handles == old(state.handles)
    {
      state := After(state, CloneLoad(t, copy));
      done := count == STATIC_REFCOUNT;
    }

    /** `clone`, second part. */
    method CloneIncrement(ghost t: nat) returns (oldSize: nat)
      requires Valid() && Enabled(state, CloneAdd(t))
      modifies this
      ensures Valid() && state == After(old(state), CloneAdd(t)) && state.cloners[t].stage == Added(oldSize)
      ensures oldSize == old(count) && count == Wrapped(oldSize + 1) && state.handles == old(state.handles)
    {
      state := After(state, CloneAdd(t));
      oldSize := FetchAdd();
    }

    /** `clone`, last part: hand the new handle over, or abort. */
    method CloneReturn(ghost t: nat, ghost copy: nat, oldSize: nat) returns (ok: bool)
      requires Valid() && Enabled(state, CloneFinish(t, copy)) && state.cloners[t].stage.seen == oldSize
      modifies this
      ensures Valid() && state == After(old(state), CloneFinish(t, copy)) && ok == !state.aborted
      ensures count == old(count) && (ok <==> oldSize <= MAX_REFCOUNT)
      ensures if ok then HandedOver(old(state), state, t, copy) else state == old(state).(aborted := true)
    {
      state := After(state, CloneFinish(t, copy));
      ok := oldSize <= MAX_REFCOUNT;
    }

    /** `drop`, first part. */
    method DropCheckStatic(ghost h: nat) returns (done: bool)
      requires Valid() && Enabled(state, DropLoad(h))
      modifies this
      ensures Valid() && state == After(old(state), DropLoad(h)) && done == (h !in state.handles)
      ensures count == old(count) && (done <==> count == STATIC_REFCOUNT)
      ensures !done ==> state.handles == old(state.handles)[h := Leaving]
    {
      state := After(state, DropLoad(h));
      done := count == STATIC_REFCOUNT;
    }

    /** `drop`, second part; reports whether this was the last reference. */
    method DropDecrement(ghost h: nat) returns (last: bool)
      requires Valid() && Enabled(state, DropSub(h))
      modifies this
      ensures Valid() && state == After(old(state), DropSub(h)) && last == (state.handles[h].seen == 1)
      ensures count == Wrapped(old(count) - 1) && (last <==> old(count) == 1)
    {
      state := After(state, DropSub(h));
      var before := FetchSub();
      last := before == 1;
    }

    /** One load tells the holder of a handle whether it is the only one. */
    method IsUniqueNow(ghost k: nat) returns (b: bool)
      requires Valid() && Inv(state) && k in state.handles && state.handles[k].Live? && !Borrowed(state, k)
      ensures b <==> Alone(state, k)
    {
      UniqueIffAlone(state, k);
      b := count == 1;
    }

    method MarkAsIntentionallyLeaked(ghost h: nat)
      requires Valid() && Enabled(state, Leak(h))
      modifies this
      ensures Valid() && state == After(old(state), Leak(h))
    {
      state := After(state, Leak(h));
      count := STATIC_REFCOUNT;
    }
  }
}
