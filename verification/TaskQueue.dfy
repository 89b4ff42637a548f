/**
 The bounded task queue: what push and pop do to the queue and its two flags
 while they hold the mutex. Blocking, waking and interleaving are in module
 WorkerPool.
 */
module TaskQueue {

  class MutexTaskQueue<T> {
    var queue: seq<T>
    var empty: bool
    var full: bool
    const maxQueueSize: nat

    /** The flags say exactly whether the queue is empty or full. */
    ghost predicate Valid()
      reads this
    {
      && 0 < maxQueueSize && |queue| <= maxQueueSize
      && (empty <==> queue == [])
      && (full <==> |queue| == maxQueueSize)
    }

    constructor ()
      ensures Valid() && queue == [] && maxQueueSize == 2000
    {
      queue, empty, full, maxQueueSize := [], true, false, 2000;
    }

    /** The part of push after the waiting loop. Says whether not_empty is
        signalled: exactly when the queue was empty. */
    method Push(qe: T) returns (signal: bool)
      requires Valid() && !full
      modifies this
      ensures Valid()
      ensures queue == old(queue) + [qe]
      ensures signal <==> old(queue) == []
    {
      queue := queue + [qe];
      signal := empty;
      empty := false;
      if |queue| == maxQueueSize {
        full := true;
      }
    }

    /** The part of pop after the waiting loop. Says whether not_full is signalled:
        exactly when the queue was full. */
    method Pop() returns (front: T, signal: bool)
      requires Valid() && !empty
      modifies this
      ensures Valid()
      ensures old(queue) == [front] + queue
      ensures signal <==> old(|queue|) == maxQueueSize
    {
      front := queue[0];
      queue := queue[1..];
      if |queue| == 0 {
        empty := true;
      }
      signal := full;
      full := false;
    }
  }
}
