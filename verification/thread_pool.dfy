/**
 A model of the tagged worker pool (`ThreadPool` in thread_pool.py).

 The pool is an immutable state value and each of its methods is one atomic
 transition: `Enqueue` (the bookkeeping half of `add_thread`), `Dispatch` (one
 iteration of the inner loop of `run`) and `Finish` (the accounting at the end
 of `_f`). Worker threads, sleeps and the endless outer loop are abstracted
 away; interleavings are modelled only at the granularity of these steps.
 */
module ThreadPool {
  import opened Options

  /** A caller-chosen grouping key; the source's default tag is the empty string. */
  type Tag = string

  /** One entry of `_actions`: `work` stands for the callable together with its
      argument tuple, which the pool never inspects. */
  datatype Action = Action(work: nat, tag: Tag)

  /** How a task's run ended. The pool swallows the exception, so the accounting
      after the run does not depend on it. */
  datatype Outcome = Returned | Raised

  datatype Pool = Pool(
    queue: seq<Action>,    // `_actions`: appended and popped at the right end
    running: seq<Action>,  // actions handed to a worker thread and not yet finished
    tags: map<Tag, int>,   // `_tags`
    threads: int,          // `_threads`
    maxThreads: int,       // `_max_threads`
    maxAwaiting: int)      // `_max_awaiting`

  /** Number of entries of `s` carrying `tag`. */
  function Occurrences(s: seq<Action>, tag: Tag): (n: nat)
    ensures n <= |s|
    ensures n == 0 <==> forall i :: 0 <= i < |s| ==> s[i].tag != tag
  {
    if s == [] then 0
    else (if s[0].tag == tag then 1 else 0) + Occurrences(s[1..], tag)
  }

  lemma {:induction false} OccurrencesConcat(a: seq<Action>, b: seq<Action>, tag: Tag)
    ensures Occurrences(a + b, tag) == Occurrences(a, tag) + Occurrences(b, tag)
  {
    if a == [] {
      assert a + b == b;
    } else {
      assert (a + b)[1..] == a[1..] + b;
      OccurrencesConcat(a[1..], b, tag);
    }
  }

  /** Work under `tag` that is queued or running. */
  function Pending(p: Pool, tag: Tag): nat
  {
    Occurrences(p.queue, tag) + Occurrences(p.running, tag)
  }

  /** `count(tag)`: the stored counter, or 0 for a tag the pool has never seen. */
  function Count(p: Pool, tag: Tag): int
  {
    if tag in p.tags then p.tags[tag] else 0
  }

  /** The accounting invariant: `_threads` is the number of running actions and
      stays within `_max_threads` whenever anything runs, and every tag's
      counter is the amount of its work that is queued or running. */
  ghost predicate Inv(p: Pool)
  {
    && p.threads == |p.running|
    && (p.threads == 0 || p.threads <= p.maxThreads)
    && forall tag :: Count(p, tag) == Pending(p, tag)
  }

  /** The state right after the constructor: nothing queued, nothing running. */
  function New(maxThreads: int, maxAwaiting: int): (p: Pool)
    ensures Inv(p)
    ensures p.maxThreads == maxThreads && p.maxAwaiting == maxAwaiting
    ensures p.queue == [] && p.running == []
    ensures forall tag :: Count(p, tag) == 0
  {
    Pool([], [], map[], 0, maxThreads, maxAwaiting)
  }

  /** The bookkeeping of `add_thread`: bump the tag's counter (creating it at 1)
      and append the action on the right of the queue. */
  function Enqueue(p: Pool, a: Action): (q: Pool)
    ensures q.queue == p.queue + [a]
    ensures q.running == p.running && q.threads == p.threads
    ensures q.maxThreads == p.maxThreads && q.maxAwaiting == p.maxAwaiting
    ensures q.tags.Keys == p.tags.Keys + {a.tag}
    ensures a.tag !in p.tags ==> q.tags[a.tag] == 1
    ensures Count(q, a.tag) == Count(p, a.tag) + 1
    ensures forall t :: t != a.tag ==> Count(q, t) == Count(p, t)
  {
    var tags := if a.tag !in p.tags then p.tags[a.tag := 1]
                else p.tags[a.tag := p.tags[a.tag] + 1];
    p.(tags := tags, queue := p.queue + [a])
  }

  /** The guard of the inner dispatch loop of `run`. */
  predicate CanDispatch(p: Pool)
  {
    p.threads < p.maxThreads && |p.queue| > 0
  }

  /** One iteration of the inner loop of `run`: take a slot and start the most
      recently appended action (`deque.pop` takes from the right). */
  function Dispatch(p: Pool): (q: Pool)
    requires CanDispatch(p)
    ensures q.threads == p.threads + 1
    ensures q.queue + [p.queue[|p.queue| - 1]] == p.queue
    ensures q.running == p.running + [p.queue[|p.queue| - 1]]
    ensures q.tags == p.tags
    ensures q.maxThreads == p.maxThreads && q.maxAwaiting == p.maxAwaiting
  {
    var last := |p.queue| - 1;
    p.(threads := p.threads + 1, queue := p.queue[..last], running := p.running + [p.queue[last]])
  }

  /** The accounting at the end of `_f` once the `index`-th running action has
      returned or raised. Line 22 looks the tag up with `[]`: for a tag missing
      from `_tags` it raises `KeyError` outside the `try`, which ends the worker
      thread before `_threads` is decremented. `Inv` rules that case out. */
  function Finish(p: Pool, index: nat, outcome: Outcome): (q: Pool)
    requires index < |p.running|
    ensures q.running == p.running[..index] + p.running[index + 1..]
    ensures q.queue == p.queue
    ensures q.maxThreads == p.maxThreads && q.maxAwaiting == p.maxAwaiting
    ensures p.running[index].tag in p.tags ==>
      && q.threads == p.threads - 1
      && Count(q, p.running[index].tag) == Count(p, p.running[index].tag) - 1
      && forall t :: t != p.running[index].tag ==> Count(q, t) == Count(p, t)
    ensures p.running[index].tag !in p.tags ==> q.threads == p.threads && q.tags == p.tags
  {
    var a := p.running[index];
    var rest := p.running[..index] + p.running[index + 1..];
    if a.tag in p.tags then
      p.(running := rest, tags := p.tags[a.tag := p.tags[a.tag] - 1], threads := p.threads - 1)
    else
      p.(running := rest)
  }

  lemma EnqueuePreservesInv(p: Pool, a: Action)
    requires Inv(p)
    ensures Inv(Enqueue(p, a))
  {
    var q := Enqueue(p, a);
    forall t
      ensures Count(q, t) == Pending(q, t)
    {
      OccurrencesConcat(p.queue, [a], t);
    }
  }

  lemma DispatchPreservesInv(p: Pool)
    requires Inv(p) && CanDispatch(p)
    ensures Inv(Dispatch(p))
  {
    var q := Dispatch(p);
    var a := p.queue[|p.queue| - 1];
    assert [a][1..] == [];
    forall t
      ensures Count(q, t) == Pending(q, t)
    {
      assert Count(q, t) == Count(p, t) == Pending(p, t);
      OccurrencesConcat(q.queue, [a], t);
      OccurrencesConcat(p.running, [a], t);
    }
  }

  lemma FinishPreservesInv(p: Pool, index: nat, outcome: Outcome)
    requires Inv(p) && index < |p.running|
    ensures Inv(Finish(p, index, outcome))
  {
    var q := Finish(p, index, outcome);
    var a := p.running[index];
    assert Occurrences(p.running, a.tag) > 0;
    assert Count(p, a.tag) > 0;
    assert p.running == p.running[..index] + [a] + p.running[index + 1..];
    forall t
      ensures Occurrences(p.running, t)
           == Occurrences(q.running, t) + (if a.tag == t then 1 else 0)
    {
      OccurrencesConcat(p.running[..index] + [a], p.running[index + 1..], t);
      OccurrencesConcat(p.running[..index], [a], t);
      OccurrencesConcat(p.running[..index], p.running[index + 1..], t);
    }
  }

  /** Under the invariant, `count(tag)` is exactly the work under `tag` that is
      queued or running: never negative, and zero exactly when nothing under
      `tag` is left. This is what the busy-wait on `count("RP") > 0` relies on,
      including when running tasks submit more work under the same tag. */
  lemma CountMatchesWork(p: Pool, tag: Tag)
    requires Inv(p)
    ensures Count(p, tag) == Occurrences(p.queue, tag) + Occurrences(p.running, tag)
    ensures Count(p, tag) >= 0
    ensures Count(p, tag) == 0 <==>
      && (forall i :: 0 <= i < |p.queue| ==> p.queue[i].tag != tag)
      && (forall i :: 0 <= i < |p.running| ==> p.running[i].tag != tag)
  {
  }

  /** A task that returned and a task that raised release the pool identically,
      and the slot they free lets the next queued action start. */
  lemma CompletionFreesSlot(p: Pool, index: nat)
    requires Inv(p) && index < |p.running|
    ensures Finish(p, index, Returned) == Finish(p, index, Raised)
    ensures Inv(Finish(p, index, Raised))
    ensures Finish(p, index, Raised).threads == p.threads - 1
    ensures |p.queue| > 0 ==> CanDispatch(Finish(p, index, Raised))
  {
    CountMatchesWork(p, p.running[index].tag);
    FinishPreservesInv(p, index, Raised);
  }

  /** Dispatch is last-in first-out: an action appended while a slot is free
      is the very next one to start, and the queue goes back to what it was. */
  lemma DispatchIsLifo(p: Pool, a: Action)
    requires p.threads < p.maxThreads
    ensures CanDispatch(Enqueue(p, a))
    ensures Dispatch(Enqueue(p, a)).queue == p.queue
    ensures Dispatch(Enqueue(p, a)).running == p.running + [a]
  {
  }

  /** The reversal of a sequence, peeling from the right. */
  function Reverse<T>(s: seq<T>): (r: seq<T>)
    ensures |r| == |s|
    ensures forall i :: 0 <= i < |s| ==> r[i] == s[|s| - 1 - i]
  {
    if s == [] then [] else [s[|s| - 1]] + Reverse(s[..|s| - 1])
  }

  /** The inner `while` of `run` (lines 32-36), run until its guard fails.
      `started` lists the actions in the order their threads were started:
      the newest queued action first. */
  method DispatchRound(p: Pool) returns (q: Pool, started: seq<Action>)
    ensures !CanDispatch(q)
    ensures q.queue + Reverse(started) == p.queue
    ensures q.running == p.running + started
    ensures q.threads == p.threads + |started|
    ensures p.threads >= p.maxThreads ==> started == []
    ensures p.threads < p.maxThreads ==>
      |started| == if |p.queue| < p.maxThreads - p.threads then |p.queue| else p.maxThreads - p.threads
    ensures q.tags == p.tags && q.maxThreads == p.maxThreads && q.maxAwaiting == p.maxAwaiting
    ensures Inv(p) ==> Inv(q)
  {
    q := p;
    started := [];
    while q.threads < q.maxThreads && |q.queue| > 0
      invariant q.queue + Reverse(started) == p.queue
      invariant q.running == p.running + started
      invariant q.threads == p.threads + |started|
      invariant p.threads >= p.maxThreads ==> started == []
      invariant p.threads < p.maxThreads ==> q.threads <= p.maxThreads
      invariant q.tags == p.tags && q.maxThreads == p.maxThreads && q.maxAwaiting == p.maxAwaiting
      invariant Inv(p) ==> Inv(q)
      decreases |q.queue|
    {
      var a := q.queue[|q.queue| - 1];
      if Inv(q) {
        DispatchPreservesInv(q);
      }
      ghost var before := q.queue;
      q := Dispatch(q);
      assert Reverse(started + [a]) == [a] + Reverse(started) by {
        assert (started + [a])[..|started|] == started;
      }
      started := started + [a];
      assert q.queue + Reverse(started) == before + Reverse(started[..|started| - 1]);
    }
  }

  /** The atomic steps the environment can interleave: a submission, one
      dispatch, or the completion of the `index`-th running action. */
  datatype Step = Submitted(action: Action) | Dispatched | Completed(index: nat, outcome: Outcome)

  /** One step; a step that is not enabled (no free slot or empty queue, no such
      running action) leaves the pool unchanged. */
  function Next(p: Pool, s: Step): (q: Pool)
    ensures q.maxThreads == p.maxThreads && q.maxAwaiting == p.maxAwaiting
  {
    match s
    case Submitted(a) => Enqueue(p, a)
    case Dispatched => if CanDispatch(p) then Dispatch(p) else p
    case Completed(i, o) => if i < |p.running| then Finish(p, i, o) else p
  }

  /** The pool after the steps in order; the bounds never change. */
  function Run(p: Pool, steps: seq<Step>): (q: Pool)
    decreases |steps|
    ensures q.maxThreads == p.maxThreads && q.maxAwaiting == p.maxAwaiting
  {
    if steps == [] then p else Run(Next(p, steps[0]), steps[1..])
  }

  lemma NextPreservesInv(p: Pool, s: Step)
    requires Inv(p)
    ensures Inv(Next(p, s))
  {
    match s
    case Submitted(a) => EnqueuePreservesInv(p, a);
    case Dispatched => if CanDispatch(p) { DispatchPreservesInv(p); }
    case Completed(i, o) => if i < |p.running| { FinishPreservesInv(p, i, o); }
  }

  lemma {:induction false} RunPreservesInv(p: Pool, steps: seq<Step>)
    requires Inv(p)
    ensures Inv(Run(p, steps))
    decreases |steps|
  {
    if steps != [] {
      NextPreservesInv(p, steps[0]);
      RunPreservesInv(Next(p, steps[0]), steps[1..]);
    }
  }

  /** Every state reachable from a fresh pool keeps the accounting invariant:
      `_threads` counts the running actions and never exceeds `_max_threads`
      (it stays 0 when the bound is not positive), and each counter is the
      number of queued plus running actions under its tag. */
  lemma ReachableInv(maxThreads: int, maxAwaiting: int, steps: seq<Step>)
    ensures Inv(Run(New(maxThreads, maxAwaiting), steps))
    ensures Run(New(maxThreads, maxAwaiting), steps).threads == |Run(New(maxThreads, maxAwaiting), steps).running|
    ensures Run(New(maxThreads, maxAwaiting), steps).threads <= maxThreads
         || Run(New(maxThreads, maxAwaiting), steps).threads == 0
  {
    RunPreservesInv(New(maxThreads, maxAwaiting), steps);
    var q := Run(New(maxThreads, maxAwaiting), steps);
    assert Inv(q);
  }

  /** No step other than a submission under `tag` adds `tag` to `_tags`. */
  lemma {:induction false} UnsubmittedTagStaysAbsent(p: Pool, steps: seq<Step>, tag: Tag)
    requires tag !in p.tags
    requires forall k :: 0 <= k < |steps| && steps[k].Submitted? ==> steps[k].action.tag != tag
    ensures tag !in Run(p, steps).tags
    decreases |steps|
  {
    if steps != [] {
      var q := Next(p, steps[0]);
      assert tag !in q.tags;
      UnsubmittedTagStaysAbsent(q, steps[1..], tag);
    }
  }

  /** `count(tag)` is 0 for a tag that was never submitted. */
  lemma NeverSubmittedCountsZero(maxThreads: int, maxAwaiting: int, steps: seq<Step>, tag: Tag)
    requires forall k :: 0 <= k < |steps| && steps[k].Submitted? ==> steps[k].action.tag != tag
    ensures Count(Run(New(maxThreads, maxAwaiting), steps), tag) == 0
  {
    UnsubmittedTagStaysAbsent(New(maxThreads, maxAwaiting), steps, tag);
  }

  /** Number of submissions under `tag` in a list of steps. */
  function Submissions(steps: seq<Step>, tag: Tag): nat
  {
    if steps == [] then 0
    else (if steps[0].Submitted? && steps[0].action.tag == tag then 1 else 0)
         + Submissions(steps[1..], tag)
  }

  /** While nothing completes, every submission under `tag` raises `count(tag)`
      by one and nothing else moves it: after N submissions it has grown by N. */
  lemma {:induction false} CountTracksSubmissions(p: Pool, steps: seq<Step>, tag: Tag)
    requires forall k :: 0 <= k < |steps| ==> !steps[k].Completed?
    ensures Count(Run(p, steps), tag) == Count(p, tag) + Submissions(steps, tag)
    decreases |steps|
  {
    if steps != [] {
      CountTracksSubmissions(Next(p, steps[0]), steps[1..], tag);
    }
  }

  /** The first `k` states of the interleaving `env` from `p` (after 0, 1, …,
      `k - 1` steps) all have the queue at `_max_awaiting`. */
  ghost predicate HeldAtBound(p: Pool, env: seq<Step>, k: nat)
  {
    forall j :: 0 <= j < k && j <= |env| ==> |Run(p, env[..j]).queue| == p.maxAwaiting
  }

  /** A submitter blocked in the busy-wait of `add_thread`: it polls after every
      interleaved step and returns at the first state whose queue length differs
      from `_max_awaiting`; `None` means it is still waiting when `env` runs out.
      The state it returns in is the pool after some prefix `env[..k]` of the
      interleaving, and every earlier state had the queue at the bound. */
  function AwaitBelowBound(p: Pool, env: seq<Step>): (r: Option<Pool>)
    decreases |env|
    ensures r.Some? ==> |r.value.queue| != r.value.maxAwaiting
    ensures r.Some? ==> r.value.maxAwaiting == p.maxAwaiting && r.value.maxThreads == p.maxThreads
    ensures r.None? ==> |p.queue| == p.maxAwaiting
    ensures |p.queue| != p.maxAwaiting ==> r == Some(p)
    ensures r.Some? ==>
      (exists k :: 0 <= k <= |env| && r.value == Run(p, env[..k]) && HeldAtBound(p, env, k))
    ensures r.None? ==> HeldAtBound(p, env, |env| + 1)
  {
    RunNone(p, env);
    if |p.queue| != p.maxAwaiting then Some(p)
    else if env == [] then None
    else
      var r := AwaitBelowBound(Next(p, env[0]), env[1..]);
      AwaitStep(p, env, r);
      r
  }

  /** Running no steps changes nothing. */
  lemma RunNone(p: Pool, env: seq<Step>)
    ensures Run(p, env[..0]) == p
  {
  }

  /** Running the first `k` steps is the first step followed by the next `k - 1`. */
  lemma RunPrefix(p: Pool, env: seq<Step>, k: nat)
    requires 0 < k <= |env|
    ensures Run(p, env[..k]) == Run(Next(p, env[0]), env[1..][..k - 1])
  {
    assert env[..k][0] == env[0];
    assert env[..k][1..] == env[1..][..k - 1];
  }

  /** A pool at the bound, followed by `k` states at the bound after its first
      step, gives `k + 1` states at the bound. */
  lemma HeldStep(p: Pool, env: seq<Step>, k: nat)
    requires env != [] && |p.queue| == p.maxAwaiting && k <= |env|
    requires HeldAtBound(Next(p, env[0]), env[1..], k)
    ensures HeldAtBound(p, env, k + 1)
  {
    forall j | 0 <= j < k + 1 && j <= |env|
      ensures |Run(p, env[..j]).queue| == p.maxAwaiting
    {
      if j == 0 {
        RunNone(p, env);
      } else {
        RunPrefix(p, env, j);
      }
    }
  }

  /** The busy-wait's contract for `p` at the bound follows from the one for
      the state after the first interleaved step. */
  lemma AwaitStep(p: Pool, env: seq<Step>, r: Option<Pool>)
    requires env != [] && |p.queue| == p.maxAwaiting
    requires r.Some? ==>
      (exists k :: 0 <= k <= |env| - 1 && r.value == Run(Next(p, env[0]), env[1..][..k])
                   && HeldAtBound(Next(p, env[0]), env[1..], k))
    requires r.None? ==> HeldAtBound(Next(p, env[0]), env[1..], |env|)
    ensures r.Some? ==>
      (exists k :: 0 <= k <= |env| && r.value == Run(p, env[..k]) && HeldAtBound(p, env, k))
    ensures r.None? ==> HeldAtBound(p, env, |env| + 1)
  {
    var q := Next(p, env[0]);
    if r.Some? {
      var k :| 0 <= k <= |env| - 1 && r.value == Run(q, env[1..][..k]) && HeldAtBound(q, env[1..], k);
      HeldStep(p, env, k);
      RunPrefix(p, env, k + 1);
      assert r.value == Run(p, env[..k + 1]);
    } else {
      HeldStep(p, env, |env|);
    }
  }

  /** `add_thread` as a whole: the bookkeeping, then the backpressure wait while
      `env` interleaves. The call returns only in a state whose queue length is
      not `_max_awaiting`, namely the first such state the interleaving reaches
      after the append; because the guard is `==`, a queue already at or past
      the bound before the call does not block at all. */
  function AddThread(p: Pool, a: Action, env: seq<Step>): (r: Option<Pool>)
    ensures r.Some? ==> |r.value.queue| != p.maxAwaiting
    ensures |p.queue| + 1 != p.maxAwaiting ==> r == Some(Enqueue(p, a))
    ensures env == [] ==> (r.Some? <==> |p.queue| + 1 != p.maxAwaiting)
    ensures |p.queue| >= p.maxAwaiting ==> r.Some?
    ensures r.Some? ==>
      (exists k :: 0 <= k <= |env| && r.value == Run(Enqueue(p, a), env[..k])
                   && HeldAtBound(Enqueue(p, a), env, k))
    ensures r.None? ==> HeldAtBound(Enqueue(p, a), env, |env| + 1)
  {
    AwaitBelowBound(Enqueue(p, a), env)
  }

  /** One dispatch releases a submitter blocked at the bound. */
  lemma DispatchReleasesSubmitter(p: Pool, env: seq<Step>)
    requires |p.queue| == p.maxAwaiting && CanDispatch(p)
    ensures AwaitBelowBound(p, [Dispatched] + env) == Some(Dispatch(p))
  {
  }

  /** The bound is not a cap: a submitter blocked at the bound is released by
      another submission, which leaves the queue one past `_max_awaiting`. */
  lemma ConcurrentSubmitOvershoots(p: Pool, a: Action, b: Action)
    requires |p.queue| + 1 == p.maxAwaiting
    ensures AddThread(p, a, []).None?
    ensures AddThread(p, a, [Submitted(b)]) == Some(Enqueue(Enqueue(p, a), b))
    ensures |AddThread(p, a, [Submitted(b)]).value.queue| == p.maxAwaiting + 1
  {
  }
}
