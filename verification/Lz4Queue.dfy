/**
 The queue of the LZ4 job service: a ring of pointers, empty outside its window.
 */
module Lz4Queue {
  import opened Basics

  /** How far into a queue that begins at `head` the place `k` is, in a ring of `n`. */
  function Index(head: nat, n: nat, k: nat): (i: nat)
    requires head < n && k < n
    ensures i < n
  {
    if k >= head then k - head else k + n - head
  }

  class Ring {
    const queue: array<Option<nat>>
    var head: nat
    var count: nat
    ghost var jobs: seq<nat>

    /** The jobs, the oldest first, are in the window that begins at `head`. */
    ghost predicate Valid()
      reads this, queue
    {
      && head < queue.Length && count == |jobs| <= queue.Length
      && forall k :: 0 <= k < queue.Length ==> queue[k] == JobAt(jobs, Index(head, queue.Length, k))
    }

    constructor (capacity: nat)
      requires 0 < capacity
      ensures Valid() && fresh(queue) && queue.Length == capacity && jobs == []
    {
      queue := new Option<nat>[capacity](_ => None);
      head, count, jobs := 0, 0, [];
    }

    /** The submitting section: the job goes to the tail, unless the queue is full. */
    method Push(job: nat) returns (ok: bool)
      requires Valid()
      modifies this`count, this`jobs, queue
      ensures Valid() && ok == (|old(jobs)| < queue.Length)
      ensures jobs == if ok then old(jobs) + [job] else old(jobs)
    {
      ok := count < queue.Length;
      if ok {
        var tail := head + count;
        if tail >= queue.Length { tail := tail - queue.Length; }
        queue[tail] := Some(job);
        count, jobs := count + 1, jobs + [job];
      }
    }

    /** pop_job: the oldest job, if there is one. */
    method Pop() returns (job: Option<nat>)
      requires Valid()
      modifies this, queue
      ensures Valid() && (job.Some? <==> old(jobs) != [])
      ensures if job.Some? then old(jobs) == [job.value] + jobs else jobs == old(jobs)
    {
      job := None;
      if count > 0 {
        job := queue[head];
        queue[head] := None;
        head := head + 1;
        if head == queue.Length { head := 0; }
        count, jobs := count - 1, jobs[1..];
      }
    }
  }

  ghost function JobAt(jobs: seq<nat>, i: nat): (j: Option<nat>)
  {
    if i < |jobs| then Some(jobs[i]) else None
  }
}
