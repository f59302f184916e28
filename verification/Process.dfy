/** The parts of a process that waiting and scheduling work on. */
module Process {

  datatype ProcState = RUNNABLE | SLEEPING

  class Proc {
    const pid: nat
    const priority: nat  // lab6_priority
    var state: ProcState
    var waitState: nat
    var stride: int      // lab6_stride, a uint32_t
    var left: Proc?      // lab6_run_pool
    var right: Proc?
    var parent: Proc?

    constructor (pid: nat, priority: nat)
      ensures this.pid == pid && this.priority == priority
      ensures state == RUNNABLE && waitState == 0 && stride == 0
      ensures left == null && right == null && parent == null
    {
      this.pid, this.priority := pid, priority;
      state, waitState, stride := RUNNABLE, 0, 0;
      left, right, parent := null, null, null;
    }
  }
}
