/** One goroutine's workerAt of pool.go, in its own form; Replacement has any number
    of them step by step. */
module WorkerSlots {
  import opened Wrappers
  import opened WorkerProcess

  class Ring {
    var workers: seq<Worker>

    constructor (workers: seq<Worker>)
      ensures this.workers == workers
    {
      this.workers := workers;
    }

    /** `stored` is what another goroutine put in the slot while this one waited for
        the write lock, and `failure` what newWorker fails with, if there is any. A
        live worker is handed out where it stands; a dead one makes way for a new
        one, or stays if none can be had. */
    method WorkerAt(idx: nat, stored: Option<Worker>, failure: Option<string>) returns (r: Result<Worker>)
      requires idx < |workers|
      modifies this
      ensures !old(workers[idx].done) ==> r == Ok(old(workers[idx])) && workers == old(workers)
      ensures old(workers[idx].done) ==>
                var found := if stored.Some? then stored.value else old(workers[idx]);
                if !old(found.done) then r == Ok(found) && workers == old(workers)[idx := found]
                else if failure.Some? then r.Err? && workers == old(workers)[idx := found]
                else r.Ok? && fresh(r.value) && !r.value.done && workers == old(workers)[idx := r.value]
    {
      var alive := workers[idx].Alive();
      if alive {
        return Ok(workers[idx]);
      }
      if stored.Some? {
        workers := workers[idx := stored.value];
      }
      alive := workers[idx].Alive();
      if alive {
        return Ok(workers[idx]);
      }
      if failure.Some? {
        return Err("replacing dead worker: " + failure.value);
      }
      var newW := new Worker();
      workers := workers[idx := newW];
      r := Ok(newW);
    }
  }
}
