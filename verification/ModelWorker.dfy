/**
 The model-worker queue: any number of submitters, one worker, priority first and submission order
 within a priority. Each method is one atomic section of the source: drawing a sequence number,
 pushing under the lock, popping under the lock, answering, unloading, shutting down.
 */
module ModelWorker {
  import opened Wrappers

  datatype Priority = Backfill | Review | Synthesis | Interactive

  function Rank(p: Priority): nat {
    match p
    case Backfill => 0
    case Review => 1
    case Synthesis => 2
    case Interactive => 3
  }

  datatype Work = Documents(texts: seq<string>) | Query(text: string)

  datatype Job = Job(priority: Priority, seqNo: nat, work: Work)

  datatype Reply = Vectors(rows: seq<seq<real>>) | LoadFailed | EmbedFailed

  datatype Answer = Answer(seqNo: nat, reply: Reply)

  /** The heap's order: greater means served first. */
  predicate Greater(a: Job, b: Job) {
    Rank(a.priority) > Rank(b.priority) || (a.priority == b.priority && a.seqNo < b.seqNo)
  }

  /** Jobs by their sequence number. */
  type Queue = map<nat, Job>

  ghost predicate Labelled(q: Queue) {
    forall n | n in q :: q[n].seqNo == n
  }

  ghost predicate IsTop(q: Queue, n: nat) {
    n in q && forall m | m in q && m != n :: Greater(q[n], q[m])
  }

  lemma {:induction false} TopExists(q: Queue)
    requires q != map[] && Labelled(q)
    ensures exists n :: IsTop(q, n)
    decreases |q|
  {
    var n :| n in q;
    var rest := q - {n};
    assert forall m :: m in q <==> m == n || m in rest;
    if rest == map[] {
      assert IsTop(q, n);
    } else {
      assert rest.Keys < q.Keys;
      SmallerQueue(q, n);
      TopExists(rest);
      var m :| IsTop(rest, m);
      assert IsTop(q, if Greater(q[m], q[n]) then m else n);
    }
  }

  lemma SmallerQueue(q: Queue, n: nat)
    requires n in q
    ensures |q - {n}| == |q| - 1
  {
    assert (q - {n}).Keys == q.Keys - {n};
    assert |(q - {n}).Keys| == |q.Keys| - 1;
  }

  // ----- the service order ---------------------------------------------------------

  /** The jobs of one priority in submission order, among sequence numbers below `n`. */
  function InOrder(q: Queue, p: Priority, n: nat): seq<Job> {
    if n == 0 then []
    else InOrder(q, p, n - 1) + (if n - 1 in q && q[n - 1].priority == p then [q[n - 1]] else [])
  }

  /** The stable sort by priority of the submission order. */
  function ServiceOrder(q: Queue, n: nat): seq<Job> {
    InOrder(q, Interactive, n) + InOrder(q, Synthesis, n) + InOrder(q, Review, n) + InOrder(q, Backfill, n)
  }

  lemma {:induction false} InOrderWithout(q: Queue, p: Priority, n: nat, k: nat)
    requires k in q && q[k].priority != p
    ensures InOrder(q - {k}, p, n) == InOrder(q, p, n)
  {
    if n == 0 {
    } else {
      InOrderWithout(q, p, n - 1, k);
    }
  }

  lemma {:induction false} InOrderEmpty(q: Queue, p: Priority, n: nat)
    requires forall k | k in q && k < n :: q[k].priority != p
    ensures InOrder(q, p, n) == []
  {
    if n == 0 {
    } else {
      InOrderEmpty(q, p, n - 1);
    }
  }

  lemma {:induction false} InOrderFirst(q: Queue, p: Priority, n: nat, k: nat)
    requires k in q && q[k].priority == p
    requires forall m | m in q && q[m].priority == p :: k <= m
    ensures k < n ==> InOrder(q, p, n) == [q[k]] + InOrder(q - {k}, p, n)
    ensures n <= k ==> InOrder(q, p, n) == InOrder(q - {k}, p, n) == []
  {
    if n == 0 {
    } else {
      InOrderFirst(q, p, n - 1, k);
    }
  }

  lemma TopByPriority(q: Queue, n: nat, top: nat, o: Priority)
    requires Labelled(q) && IsTop(q, top) && top < n
    ensures InOrder(q, o, n) == (if o == q[top].priority then [q[top]] else []) + InOrder(q - {top}, o, n)
    ensures Rank(o) > Rank(q[top].priority) ==> InOrder(q, o, n) == []
  {
    if o == q[top].priority {
      InOrderFirst(q, o, n, top);
    } else {
      InOrderWithout(q, o, n, top);
      if Rank(o) > Rank(q[top].priority) {
        InOrderEmpty(q, o, n);
      }
    }
  }

  /** Popping the top job leaves the rest of the service order. */
  lemma TopIsServedFirst(q: Queue, n: nat, top: nat)
    requires Labelled(q) && IsTop(q, top) && top < n
    ensures ServiceOrder(q, n) == [q[top]] + ServiceOrder(q - {top}, n)
  {
    hide InOrder, IsTop;
    TopByPriority(q, n, top, Interactive);
    TopByPriority(q, n, top, Synthesis);
    TopByPriority(q, n, top, Review);
    TopByPriority(q, n, top, Backfill);
  }

  lemma {:induction false} NothingToServe(n: nat)
    ensures ServiceOrder(map[], n) == []
  {
    InOrderEmpty(map[], Interactive, n);
    InOrderEmpty(map[], Synthesis, n);
    InOrderEmpty(map[], Review, n);
    InOrderEmpty(map[], Backfill, n);
  }

  lemma RestOfQueue(q: Queue, n: nat) returns (top: nat)
    requires q != map[] && Labelled(q) && forall k | k in q :: k < n
    ensures IsTop(q, top) && Labelled(q - {top}) && |q - {top}| == |q| - 1
    ensures ServiceOrder(q, n) == [q[top]] + ServiceOrder(q - {top}, n)
  {
    hide ServiceOrder;
    TopExists(q);
    top :| IsTop(q, top);
    SmallerQueue(q, top);
    TopIsServedFirst(q, n, top);
  }

  ghost predicate Holds(q: Queue, j: Job) {
    j.seqNo in q && q[j.seqNo] == j
  }

  /** The service order holds each queued job once and nothing else. */
  lemma {:induction false} ServiceOrderIsComplete(q: Queue, n: nat)
    requires Labelled(q) && forall k | k in q :: k < n
    ensures |ServiceOrder(q, n)| == |q|
    ensures forall j :: j in ServiceOrder(q, n) <==> Holds(q, j)
    decreases |q|
  {
    hide ServiceOrder, IsTop;
    if q == map[] {
      NothingToServe(n);
    } else {
      var top := RestOfQueue(q, n);
      var rest := q - {top};
      ServiceOrderIsComplete(rest, n);
      TopIsQueued(q, top);
      forall j ensures j in ServiceOrder(q, n) <==> Holds(q, j) {
        assert j in ServiceOrder(q, n) <==> j == q[top] || j in ServiceOrder(rest, n);
        assert Holds(rest, j) <==> Holds(q, j) && j.seqNo != top;
      }
    }
  }

  lemma TopIsQueued(q: Queue, top: nat)
    requires IsTop(q, top)
    ensures top in q
  {
  }

  ghost predicate Sorted(jobs: seq<Job>) {
    forall a, b | 0 <= a < b < |jobs| :: Greater(jobs[a], jobs[b])
  }

  lemma SortedPrepend(first: Job, later: seq<Job>)
    requires Sorted(later) && forall j | j in later :: Greater(first, j)
    ensures Sorted([first] + later)
  {
  }

  /** The service order is sorted by the heap's order. */
  lemma {:induction false} ServiceOrderIsSorted(q: Queue, n: nat)
    requires Labelled(q) && forall k | k in q :: k < n
    ensures Sorted(ServiceOrder(q, n))
    decreases |q|
  {
    hide ServiceOrder, Sorted, Greater;
    if q == map[] {
      NothingToServe(n);
      NothingIsSorted();
    } else {
      var top := RestOfQueue(q, n);
      var rest := q - {top};
      ServiceOrderIsSorted(rest, n);
      ServiceOrderIsComplete(rest, n);
      forall j | j in ServiceOrder(rest, n) ensures Greater(q[top], j) {
        assert Holds(rest, j);
      }
      SortedPrepend(q[top], ServiceOrder(rest, n));
    }
  }

  lemma NothingIsSorted()
    ensures Sorted([])
  {
  }

  // ----- the worker ----------------------------------------------------------------

  function SeqNos(answers: seq<Answer>): (r: seq<nat>)
    ensures |r| == |answers| && forall i | 0 <= i < |r| :: r[i] == answers[i].seqNo
  {
    seq(|answers|, i requires 0 <= i < |answers| => answers[i].seqNo)
  }

  function JobNos(jobs: seq<Job>): (r: seq<nat>)
    ensures |r| == |jobs| && forall i | 0 <= i < |r| :: r[i] == jobs[i].seqNo
  {
    seq(|jobs|, i requires 0 <= i < |jobs| => jobs[i].seqNo)
  }

  class ModelWorker {
    var nextSeq: nat
    var queue: Queue
    var serving: Option<Job>
    var loaded: bool
    var shutdown: bool
    /** What the submitters received, in the order in which it was sent. */
    var answers: seq<Answer>
    /** Jobs whose submitter has drawn a number and not yet pushed. */
    ghost var drawn: Queue
    /** The submit calls that have drawn a number and not yet returned; each borrows the handle. */
    ghost var calls: set<nat>

    constructor ()
      ensures Valid() && nextSeq == 0 && queue == map[] && drawn == map[] && answers == []
      ensures calls == {} && serving == None && !loaded && !shutdown
    {
      nextSeq, queue, serving, loaded, shutdown, answers := 0, map[], None, false, false, [];
      drawn, calls := map[], {};
    }

    ghost predicate Serves(n: nat)
      reads `serving
    {
      serving.Some? && serving.value.seqNo == n
    }

    ghost predicate HasAnswer(n: nat)
      reads `answers
    {
      n in SeqNos(answers)
    }

    /** Every number ever drawn is in exactly one place, and no submitter was answered twice. */
    ghost predicate Valid()
      reads this
    {
      && Labelled(queue) && Labelled(drawn)
      && (forall n: nat :: n < nextSeq <==> n in drawn || n in queue || Serves(n) || HasAnswer(n))
      && (forall n | n in drawn :: n !in queue && !Serves(n) && !HasAnswer(n))
      && (forall n | n in queue :: !Serves(n) && !HasAnswer(n))
      && (serving.Some? ==> !HasAnswer(serving.value.seqNo))
      && (forall i, j | 0 <= i < j < |answers| :: answers[i].seqNo != answers[j].seqNo)
      && BlocksItsCaller()
    }

    /** A call whose job is drawn, queued or being served has not returned: it waits for its answer. */
    ghost predicate BlocksItsCaller()
      reads this
    {
      && (forall n | n in calls :: n < nextSeq)
      && (forall n | n in drawn :: n in calls)
      && (forall n | n in queue :: n in calls)
      && (serving.Some? ==> serving.value.seqNo in calls)
    }

    method DrawNumber(priority: Priority, work: Work) returns (job: Job)
      requires Valid() && !shutdown
      modifies this
      ensures Valid() && job == Job(priority, old(nextSeq), work)
      ensures nextSeq == old(nextSeq) + 1 && drawn == old(drawn)[job.seqNo := job]
      ensures calls == old(calls) + {job.seqNo} && job.seqNo !in old(calls)
      ensures queue == old(queue) && serving == old(serving) && answers == old(answers)
      ensures loaded == old(loaded) && shutdown == old(shutdown)
    {
      job := Job(priority, nextSeq, work);
      assert !HasAnswer(nextSeq) && nextSeq !in queue && nextSeq !in drawn && !Serves(nextSeq);
      nextSeq := nextSeq + 1;
      drawn, calls := drawn[job.seqNo := job], calls + {job.seqNo};
      assert forall n: nat :: HasAnswer(n) <==> old(HasAnswer(n));
    }

    method Push(job: Job)
      requires Valid() && !shutdown && job.seqNo in drawn && drawn[job.seqNo] == job
      modifies this
      ensures Valid() && queue == old(queue)[job.seqNo := job] && drawn == old(drawn) - {job.seqNo}
      ensures calls == old(calls) && nextSeq == old(nextSeq) && serving == old(serving) && answers == old(answers)
      ensures loaded == old(loaded) && shutdown == old(shutdown)
    {
      queue := queue[job.seqNo := job];
      drawn := drawn - {job.seqNo};
      assert forall n: nat :: HasAnswer(n) <==> old(HasAnswer(n));
    }

    /** The worker takes the greatest queued job, whatever the order in which the jobs were pushed. */
    method Pop()
      requires Valid() && !shutdown && queue != map[] && serving == None
      modifies this
      ensures Valid() && serving.Some? && IsTop(old(queue), serving.value.seqNo)
      ensures serving.value == old(queue)[serving.value.seqNo] && queue == old(queue) - {serving.value.seqNo}
      ensures nextSeq == old(nextSeq) && drawn == old(drawn) && calls == old(calls) && answers == old(answers)
      ensures loaded == old(loaded) && shutdown == old(shutdown)
    {
      TopExists(queue);
      var top :| top in queue && forall m | m in queue && m != top :: Greater(queue[top], queue[m]);
      serving := Some(queue[top]);
      queue := queue - {top};
    }

    /** Loads the model if none is loaded and answers the job; a load that fails answers this job and
        touches no other. */
    method Serve(loads: bool, embed: Work -> Option<seq<seq<real>>>)
      requires Valid() && serving.Some?
      modifies this
      ensures Valid() && serving == None && loaded == (old(loaded) || loads)
      ensures answers == old(answers) + [Answer(old(serving).value.seqNo,
                if !old(loaded) && !loads then LoadFailed
                else match embed(old(serving).value.work) case Some(rows) => Vectors(rows) case None => EmbedFailed)]
      ensures nextSeq == old(nextSeq) && queue == old(queue) && drawn == old(drawn) && shutdown == old(shutdown)
      ensures calls == old(calls)
    {
      var job := serving.value;
      var reply := LoadFailed;
      if !loaded && loads {
        loaded := true;
      }
      if loaded {
        match embed(job.work) {
          case Some(rows) => reply := Vectors(rows);
          case None => reply := EmbedFailed;
        }
      }
      ghost var sent := SeqNos(answers);
      assert forall n: nat :: HasAnswer(n) <==> n in sent;
      assert forall i | 0 <= i < |answers| :: answers[i].seqNo == sent[i] && sent[i] in sent;
      answers := answers + [Answer(job.seqNo, reply)];
      serving := None;
      assert SeqNos(answers) == sent + [job.seqNo];
      assert forall n: nat :: n in SeqNos(answers) <==> n in sent || n == job.seqNo;
    }

    /** The wait timed out with an empty queue: the model is dropped, nothing else changes. */
    method IdleTimeout()
      requires Valid() && serving == None && queue == map[]
      modifies this`loaded
      ensures Valid() && !loaded
    {
      loaded := false;
    }

    /** A submit call returns with the answer to its own job, and only then. */
    method Return(n: nat) returns (reply: Reply)
      requires Valid() && n in calls && HasAnswer(n)
      modifies this`calls
      ensures Valid() && calls == old(calls) - {n} && Answer(n, reply) in answers
    {
      var i :| 0 <= i < |answers| && SeqNos(answers)[i] == n;
      reply := answers[i].reply;
      calls := calls - {n};
    }

    /** Dropping the handle needs every borrow of it to have ended, that is, every submit call to have
        returned. Then nothing is queued and every job ever submitted has its answer. */
    method Shutdown()
      requires Valid() && calls == {}
      modifies this`shutdown
      ensures Valid() && shutdown
      ensures queue == map[] && drawn == map[] && serving == None
      ensures forall n: nat :: n < nextSeq <==> HasAnswer(n)
    {
      assert queue.Keys == {} && drawn.Keys == {};
      shutdown := true;
    }

    /** One turn of the worker's loop: the greatest job is answered, the others stay queued. */
    method ServeNext(loads: bool, embed: Work -> Option<seq<seq<real>>>) returns (ghost job: Job)
      requires Valid() && !shutdown && serving == None && queue != map[]
      modifies this
      ensures Valid() && !shutdown && serving == None
      ensures IsTop(old(queue), job.seqNo) && old(queue)[job.seqNo] == job && queue == old(queue) - {job.seqNo}
      ensures SeqNos(answers) == SeqNos(old(answers)) + [job.seqNo]
      ensures nextSeq == old(nextSeq) && drawn == old(drawn) && calls == old(calls)
    {
      Pop();
      job := serving.value;
      Serve(loads, embed);
      assert SeqNos(answers) == SeqNos(old(answers)) + [job.seqNo];
    }

    /** With no further submissions the worker answers the queue in service order. */
    method ServeAll(loads: nat -> bool, embed: Work -> Option<seq<seq<real>>>)
      requires Valid() && !shutdown && serving == None
      modifies this
      ensures Valid() && queue == map[] && serving == None
      ensures SeqNos(answers) == SeqNos(old(answers)) + JobNos(ServiceOrder(old(queue), nextSeq))
      ensures nextSeq == old(nextSeq) && drawn == old(drawn) && calls == old(calls)
    {
      hide ServiceOrder, IsTop, Greater, JobNos, SeqNos;
      ghost var n, served: seq<nat> := nextSeq, [];
      var round := 0;
      while queue != map[]
        invariant Valid() && !shutdown && serving == None && nextSeq == n && drawn == old(drawn)
        invariant calls == old(calls)
        invariant SeqNos(answers) == SeqNos(old(answers)) + served
        invariant served + JobNos(ServiceOrder(queue, n)) == JobNos(ServiceOrder(old(queue), n))
        decreases |queue|
      {
        ghost var q := queue;
        BelowNext();
        ghost var job := ServeNext(loads(round), embed);
        NextInOrder(q, n, job, queue);
        assert served + JobNos(ServiceOrder(q, n)) == (served + [job.seqNo]) + JobNos(ServiceOrder(queue, n));
        served := served + [job.seqNo];
        round := round + 1;
      }
      NothingToServe(n);
    }

    lemma BelowNext()
      requires Valid()
      ensures Labelled(queue) && forall k | k in queue :: k < nextSeq
    {
    }
  }

  lemma NextInOrder(q: Queue, n: nat, job: Job, rest: Queue)
    requires Labelled(q) && (forall k | k in q :: k < n) && IsTop(q, job.seqNo)
    requires q[job.seqNo] == job && rest == q - {job.seqNo}
    ensures JobNos(ServiceOrder(q, n)) == [job.seqNo] + JobNos(ServiceOrder(rest, n))
    ensures |rest| < |q|
  {
    hide ServiceOrder;
    TopIsServedFirst(q, n, job.seqNo);
    SmallerQueue(q, job.seqNo);
  }
}
