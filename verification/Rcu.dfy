/** Any number of writers and readers on one `RuleStore` (core/src/store.rs, RuleStore).

    A writer runs `ArcSwap::rcu`: load the current snapshot, compute the next one from a clone,
    compare-and-swap, and on failure start over from the snapshot that was found instead. A
    snapshot is identified by its version, as the source identifies it by its `Arc` pointer. */
module Rcu {
  import opened Names
  import opened Rules
  import opened Stores

  datatype Writer =
    | Idle
    | Loaded(op: Op, began: nat, seen: nat, snapshot: Store)
    | Computed(op: Op, began: nat, seen: nat, next: Store, removed: Option<Rule>)
    | Swapped(op: Op, began: nat, index: nat, removed: Option<Rule>)

  /** A reader holds the snapshot it loaded and evaluates its query on it later. */
  datatype Reader = Reader(seen: nat, snapshot: Store)

  datatype Commit = Commit(writer: nat, op: Op, removed: Option<Rule>)

  /** An operation that has returned: `began` and `ended` count the commits before each moment. */
  datatype Return = Return(writer: nat, op: Op, began: nat, index: nat, ended: nat, removed: Option<Rule>)

  datatype Failure = Failure(writer: nat, seen: nat)

  /** `current` and `version` are the shared cell; `commits`, `done` and `failures` record the run. */
  datatype State = State(
    current: Store,
    version: nat,
    writers: map<nat, Writer>,
    readers: map<nat, Reader>,
    commits: seq<Commit>,
    done: seq<Return>,
    failures: seq<Failure>)

  datatype Step =
    | Begin(w: nat, op: Op)
    | Compute(w: nat)
    | Swap(w: nat)
    | Finish(w: nat)
    | Load(r: nat)

  function WriterAt(s: State, w: nat): Writer {
    if w in s.writers then s.writers[w] else Idle
  }

  predicate Enabled(s: State, step: Step) {
    match step
    case Begin(w, _) => WriterAt(s, w).Idle?
    case Compute(w) => WriterAt(s, w).Loaded?
    case Swap(w) => WriterAt(s, w).Computed?
    case Finish(w) => WriterAt(s, w).Swapped?
    case Load(_) => true
  }

  function Next(s: State, step: Step): State
    requires Enabled(s, step)
  {
    match step
    case Begin(w, op) =>
      s.(writers := s.writers[w := Loaded(op, |s.commits|, s.version, s.current)])
    case Compute(w) =>
      var p := WriterAt(s, w);
      var out := Perform(p.snapshot, p.op);
      s.(writers := s.writers[w := Computed(p.op, p.began, p.seen, out.store, out.removed)])
    case Swap(w) =>
      var p := WriterAt(s, w);
      if p.seen == s.version then
        s.(current := p.next, version := s.version + 1,
           writers := s.writers[w := Swapped(p.op, p.began, |s.commits|, p.removed)],
           commits := s.commits + [Commit(w, p.op, p.removed)])
      else
        s.(writers := s.writers[w := Loaded(p.op, p.began, s.version, s.current)],
           failures := s.failures + [Failure(w, p.seen)])
    case Finish(w) =>
      var p := WriterAt(s, w);
      s.(writers := s.writers[w := Idle],
         done := s.done + [Return(w, p.op, p.began, p.index, |s.commits|, p.removed)])
    case Load(r) =>
      s.(readers := s.readers[r := Reader(s.version, s.current)])
  }

  predicate Init(s: State) {
    s.version == 0 && s.writers == map[] && s.readers == map[] && s.commits == [] && s.done == [] && s.failures == []
  }

  ghost predicate IsRun(states: seq<State>, steps: seq<Step>) {
    && |states| == |steps| + 1
    && Init(states[0])
    && forall i :: 0 <= i < |steps| ==> Enabled(states[i], steps[i]) && states[i + 1] == Next(states[i], steps[i])
  }

  // ----------------------------------------------------------- the sequential view

  /** The store after the first `n` commits, performed one at a time. */
  function Replayed(init: Store, commits: seq<Commit>, n: nat): Store
    requires n <= |commits|
  {
    if n == 0 then init else Perform(Replayed(init, commits, n - 1), commits[n - 1].op).store
  }

  lemma {:induction false} ReplayedPrefix(init: Store, commits: seq<Commit>, c: Commit, n: nat)
    requires n <= |commits|
    ensures Replayed(init, commits + [c], n) == Replayed(init, commits, n)
  {
    if n > 0 { ReplayedPrefix(init, commits, c, n - 1); }
  }

  // ------------------------------------------------------------------- invariants

  /** The shared cell is the sequential store, and every snapshot in use is one of its past states. */
  predicate Consistent(init: Store, s: State) {
    && s.version == |s.commits|
    && s.current == Replayed(init, s.commits, |s.commits|)
    && (forall w :: w in s.writers ==> ConsistentWriter(init, s.commits, s.writers[w]))
    && (forall r :: r in s.readers ==>
          s.readers[r].seen <= |s.commits| && s.readers[r].snapshot == Replayed(init, s.commits, s.readers[r].seen))
  }

  predicate ConsistentWriter(init: Store, commits: seq<Commit>, p: Writer) {
    match p
    case Idle => true
    case Loaded(_, began, seen, snapshot) =>
      began <= seen <= |commits| && snapshot == Replayed(init, commits, seen)
    case Computed(op, began, seen, next, removed) =>
      began <= seen <= |commits| && Outcome(next, removed) == Perform(Replayed(init, commits, seen), op)
    case Swapped(_, _, _, _) => true
  }

  /** Each commit answered with what its operation yields on the state just before it. */
  predicate Answered(init: Store, commits: seq<Commit>) {
    forall i :: 0 <= i < |commits| ==> AnsweredAt(init, commits, i)
  }

  predicate AnsweredAt(init: Store, commits: seq<Commit>, i: nat)
    requires i < |commits|
  {
    commits[i].removed == Perform(Replayed(init, commits, i), commits[i].op).removed
  }

  /** Commits and the operations they belong to: each finished or swapped operation owns the commit
      at its index, made between its start and its end, and every commit is owned. */
  predicate Owned(s: State) {
    && (forall w :: w in s.writers && s.writers[w].Swapped? ==>
          var p := s.writers[w];
          p.began <= p.index < |s.commits| && s.commits[p.index] == Commit(w, p.op, p.removed))
    && (forall i :: 0 <= i < |s.done| ==> ReturnOwns(s, s.done[i]))
    && (forall i :: 0 <= i < |s.commits| ==> HasOwner(s, i))
  }

  predicate ReturnOwns(s: State, r: Return) {
    r.began <= r.index < r.ended <= |s.commits| && s.commits[r.index] == Commit(r.writer, r.op, r.removed)
  }

  predicate HasOwner(s: State, i: nat)
    requires i < |s.commits|
  {
    || (exists k :: 0 <= k < |s.done| && s.done[k].index == i)
    || (var w := s.commits[i].writer; WriterAt(s, w).Swapped? && WriterAt(s, w).index == i)
  }

  /** No two operations that have swapped or returned share a commit. */
  predicate SeparateReturns(s: State) {
    && (forall i, j :: 0 <= i < j < |s.done| ==> s.done[i].index != s.done[j].index)
    && (forall i, w :: 0 <= i < |s.done| && w in s.writers && s.writers[w].Swapped? ==>
          s.done[i].index != s.writers[w].index)
  }

  function SeenBound(s: State, w: nat): nat {
    var p := WriterAt(s, w);
    if p.Loaded? || p.Computed? then p.seen else |s.commits|
  }

  /** A failed attempt is paid for by the commit that replaced the snapshot it had loaded: a commit
      by another writer, and no two failures of one writer are charged to the same commit. */
  ghost predicate Charged(s: State) {
    && (forall w: nat, i :: SeenBound(s, w) <= i < |s.commits| ==> s.commits[i].writer != w)
    && (forall k :: 0 <= k < |s.failures| ==>
          var f := s.failures[k];
          f.seen < |s.commits| && s.commits[f.seen].writer != f.writer && f.seen < SeenBound(s, f.writer))
    && (forall k, m :: 0 <= k < m < |s.failures| && s.failures[k].writer == s.failures[m].writer ==>
          s.failures[k].seen < s.failures[m].seen)
  }

  // ------------------------------------------------------------------ preservation

  lemma {:induction false} ConsistentWriterGrows(init: Store, commits: seq<Commit>, c: Commit, p: Writer)
    requires ConsistentWriter(init, commits, p)
    ensures ConsistentWriter(init, commits + [c], p)
  {
    if p.Loaded? || p.Computed? { ReplayedPrefix(init, commits, c, p.seen); }
  }

  lemma {:induction false} ConsistentStep(init: Store, s: State, step: Step)
    requires Consistent(init, s) && Enabled(s, step)
    ensures Consistent(init, Next(s, step))
  {
    if step.Swap? && WriterAt(s, step.w).seen == s.version {
      var t := Next(s, step);
      var c := t.commits[|s.commits|];
      assert t.commits == s.commits + [c];
      forall w | w in t.writers ensures ConsistentWriter(init, t.commits, t.writers[w]) {
        if w != step.w { ConsistentWriterGrows(init, s.commits, c, s.writers[w]); }
      }
      forall r | r in t.readers ensures t.readers[r].snapshot == Replayed(init, t.commits, t.readers[r].seen) {
        ReplayedPrefix(init, s.commits, c, t.readers[r].seen);
      }
      ReplayedPrefix(init, s.commits, c, |s.commits|);
    }
  }

  lemma {:induction false} AnsweredStep(init: Store, s: State, step: Step)
    requires Consistent(init, s) && Answered(init, s.commits) && Enabled(s, step)
    ensures Answered(init, Next(s, step).commits)
  {
    if step.Swap? && WriterAt(s, step.w).seen == s.version {
      var t := Next(s, step);
      var c := t.commits[|s.commits|];
      forall i | 0 <= i < |t.commits| ensures AnsweredAt(init, t.commits, i) {
        ReplayedPrefix(init, s.commits, c, i);
        if i < |s.commits| { assert AnsweredAt(init, s.commits, i); }
      }
    }
  }

  lemma {:induction false} OwnerStays(s: State, step: Step, i: nat)
    requires Enabled(s, step) && i < |s.commits| && HasOwner(s, i)
    ensures i < |Next(s, step).commits| && HasOwner(Next(s, step), i)
  {
    var t := Next(s, step);
    assert t.commits[i] == s.commits[i];
    if k :| 0 <= k < |s.done| && s.done[k].index == i {
      assert t.done[k].index == i;
    } else if step.Finish? && s.commits[i].writer == step.w {
      assert t.done[|s.done|].index == i;
    }
  }

  lemma {:induction false} OwnedStep(s: State, step: Step)
    requires Owned(s) && Enabled(s, step)
    requires step.Swap? ==> WriterAt(s, step.w).began <= |s.commits|
    ensures Owned(Next(s, step))
  {
    var t := Next(s, step);
    forall i | 0 <= i < |t.commits| ensures HasOwner(t, i) {
      if i < |s.commits| { OwnerStays(s, step, i); }
    }
    forall k | 0 <= k < |t.done| ensures ReturnOwns(t, t.done[k]) {
      if k < |s.done| { assert ReturnOwns(s, s.done[k]); }
    }
  }

  lemma {:induction false} SeparateStep(s: State, step: Step)
    requires Owned(s) && SeparateReturns(s) && Enabled(s, step)
    ensures SeparateReturns(Next(s, step))
  {
    var t := Next(s, step);
    if step.Finish? {
      var p := WriterAt(s, step.w);
      forall w | w in t.writers && t.writers[w].Swapped? ensures t.writers[w].index != p.index {
        assert s.commits[p.index].writer == step.w;
      }
    } else if step.Swap? {
      forall i | 0 <= i < |s.done| ensures s.done[i].index < |s.commits| {
        assert ReturnOwns(s, s.done[i]);
      }
    }
  }

  lemma {:induction false} ChargedWhenUnchanged(s: State, t: State)
    requires Charged(s) && t.commits == s.commits && t.failures == s.failures
    requires forall w: nat :: SeenBound(t, w) >= SeenBound(s, w)
    ensures Charged(t)
  {}

  lemma {:induction false} ChargedSwap(s: State, w: nat)
    requires s.version == |s.commits| && Charged(s) && Enabled(s, Swap(w)) && WriterAt(s, w).seen <= |s.commits|
    ensures Charged(Next(s, Swap(w)))
  {
    var t, p := Next(s, Swap(w)), WriterAt(s, w);
    assert SeenBound(s, w) == p.seen && SeenBound(t, w) == |t.commits|;
    forall v: nat | v != w ensures SeenBound(s, v) <= SeenBound(t, v) {}
    forall v: nat, i | SeenBound(t, v) <= i < |t.commits| ensures t.commits[i].writer != v {
      if i < |s.commits| { assert t.commits[i] == s.commits[i]; }
    }
  }

  lemma {:induction false} ChargedStep(init: Store, s: State, step: Step)
    requires Consistent(init, s) && Charged(s) && Enabled(s, step)
    ensures Charged(Next(s, step))
  {
    if step.Swap? {
      ChargedSwap(s, step.w);
    } else {
      ChargedWhenUnchanged(s, Next(s, step));
    }
  }

  /** Everything that holds in each state of a run. */
  ghost predicate Linear(init: Store, s: State) {
    Consistent(init, s) && Answered(init, s.commits) && Owned(s) && SeparateReturns(s) && Charged(s)
  }

  /** Linearizability of copy-and-swap: for any number of writers and readers and any schedule. */
  lemma {:induction false} EveryRunIsLinear(states: seq<State>, steps: seq<Step>, i: nat)
    requires IsRun(states, steps) && i < |states|
    ensures Linear(states[0].current, states[i])
  {
    if i > 0 {
      var init, s, step := states[0].current, states[i - 1], steps[i - 1];
      EveryRunIsLinear(states, steps, i - 1);
      ConsistentStep(init, s, step);
      AnsweredStep(init, s, step);
      OwnedStep(s, step);
      SeparateStep(s, step);
      ChargedStep(init, s, step);
    }
  }

  // ------------------------------------------------------------------- consequences

  /** What the step at `i`, a Finish, records. */
  function Returned(states: seq<State>, steps: seq<Step>, i: nat): Return
    requires i < |steps| < |states| && steps[i].Finish? && Enabled(states[i], steps[i])
  {
    Next(states[i], steps[i]).done[|states[i].done|]
  }

  lemma {:induction false} CommitsGrow(states: seq<State>, steps: seq<Step>, i: nat, j: nat)
    requires IsRun(states, steps) && i <= j < |states|
    ensures |states[i].commits| <= |states[j].commits|
  {
    if i < j { CommitsGrow(states, steps, i, j - 1); }
  }

  predicate BeganAt(p: Writer, began: nat) { !p.Idle? && p.began == began }

  /** Through all its retries a writer remembers when it began. */
  lemma {:induction false} RemembersBegin(states: seq<State>, steps: seq<Step>, i: nat, j: nat)
    requires IsRun(states, steps) && i < j < |states| && steps[i].Begin?
    requires forall k :: i < k < j ==> steps[k] != Finish(steps[i].w)
    ensures BeganAt(WriterAt(states[j], steps[i].w), |states[i].commits|)
  {
    if i + 1 < j {
      RemembersBegin(states, steps, i, j - 1);
      assert steps[j - 1] != Finish(steps[i].w);
    }
  }

  lemma {:induction false} ReturnOwnsItsCommit(states: seq<State>, steps: seq<Step>, i: nat)
    requires IsRun(states, steps) && i < |steps| && steps[i].Finish?
    ensures var a := Returned(states, steps, i); ReturnOwns(states[i + 1], a) && a.ended == |states[i].commits|
  {
    EveryRunIsLinear(states, steps, i + 1);
    assert states[i + 1].done[|states[i].done|] == Returned(states, steps, i);
  }

  /** Real-time order, by positions in the run: if an operation returns at step `i`, another begins at
      a later step `j` and returns at step `k`, then the first comes first in the sequential order. */
  lemma {:induction false} RealTimeOrder(states: seq<State>, steps: seq<Step>, i: nat, j: nat, k: nat)
    requires IsRun(states, steps) && i < j < k < |steps|
    requires steps[i].Finish? && steps[j].Begin? && steps[k] == Finish(steps[j].w)
    requires forall m :: j < m < k ==> steps[m] != Finish(steps[j].w)
    ensures Returned(states, steps, i).index < Returned(states, steps, k).index
  {
    ReturnOwnsItsCommit(states, steps, i);
    ReturnOwnsItsCommit(states, steps, k);
    CommitsGrow(states, steps, i, j);
    RemembersBegin(states, steps, j, k);
  }

  /** A returned operation answers what it yields on the committed state just before its own. */
  lemma {:induction false} AnswersAreSequential(states: seq<State>, steps: seq<Step>, i: nat, a: Return)
    requires IsRun(states, steps) && i < |states| && a in states[i].done
    ensures a.index < |states[i].commits| && states[i].commits[a.index] == Commit(a.writer, a.op, a.removed)
    ensures a.removed == Perform(Replayed(states[0].current, states[i].commits, a.index), a.op).removed
  {
    EveryRunIsLinear(states, steps, i);
    assert ReturnOwns(states[i], a);
    assert AnsweredAt(states[0].current, states[i].commits, a.index);
  }

  function FailureIndices(s: State, w: nat): set<nat> {
    set k | 0 <= k < |s.failures| && s.failures[k].writer == w
  }

  function OthersCommits(s: State, w: nat): set<nat> {
    set i | 0 <= i < |s.commits| && s.commits[i].writer != w
  }

  lemma {:induction false} ImageSize(s: State, w: nat, ks: set<nat>)
    requires Charged(s) && ks <= FailureIndices(s, w)
    ensures |ks| == |set k | k in ks :: s.failures[k].seen|
    decreases ks
  {
    if ks != {} {
      var k :| k in ks;
      var rest := ks - {k};
      ImageSize(s, w, rest);
      var image := set j | j in rest :: s.failures[j].seen;
      assert s.failures[k].seen !in image by {
        forall j | j in rest ensures s.failures[j].seen != s.failures[k].seen {
          if j < k { assert s.failures[j].seen < s.failures[k].seen; }
          else { assert s.failures[k].seen < s.failures[j].seen; }
        }
      }
      assert (set j | j in ks :: s.failures[j].seen) == image + {s.failures[k].seen};
    }
  }

  lemma {:induction false} SubsetSize(a: set<nat>, b: set<nat>)
    requires a <= b
    ensures |a| <= |b|
  {
    assert |b - a| == |b| - |a|;
  }

  /** Lock freedom, counted: a writer retries at most once per commit of the other writers. */
  lemma {:induction false} RetriesAreBounded(states: seq<State>, steps: seq<Step>, i: nat, w: nat)
    requires IsRun(states, steps) && i < |states|
    ensures |FailureIndices(states[i], w)| <= |OthersCommits(states[i], w)|
  {
    EveryRunIsLinear(states, steps, i);
    var s := states[i];
    ImageSize(s, w, FailureIndices(s, w));
    var image := set k | k in FailureIndices(s, w) :: s.failures[k].seen;
    SubsetSize(image, OthersCommits(s, w));
  }

  /** A load sees every write that has returned before it. */
  lemma {:induction false} LoadsSeeReturnedWrites(states: seq<State>, steps: seq<Step>, i: nat, j: nat)
    requires IsRun(states, steps) && i < j < |steps| && steps[i].Finish? && steps[j].Load?
    ensures Returned(states, steps, i).index < states[j + 1].readers[steps[j].r].seen
  {
    ReturnOwnsItsCommit(states, steps, i);
    CommitsGrow(states, steps, i, j);
    EveryRunIsLinear(states, steps, j);
  }

  /** What any reader answers, whenever it evaluates its query, is the answer of the committed
      state that was current when it loaded. */
  lemma {:induction false} ReadersSeeOneState(states: seq<State>, steps: seq<Step>, i: nat, r: nat, name: string)
    requires IsRun(states, steps) && i < |states| && r in states[i].readers
    ensures var held := states[i].readers[r];
            held.seen <= |states[i].commits|
            && Resolve(held.snapshot, name) ==
               Resolve(Replayed(states[0].current, states[i].commits, held.seen), name)
  {
    EveryRunIsLinear(states, steps, i);
  }
}
