/** `ExecutionMonitor` of `JsonParserForkJoin`: counters of the tasks created
    and completed and of those running, and whether a conversion is under
    way. The clock it reads is not modelled. */
module Monitor {
  class ExecutionMonitor {
    var tasksCreated: int
    var tasksCompleted: int
    var activeThreads: int
    var isExecuting: bool

    constructor()
      ensures tasksCreated == 0 && tasksCompleted == 0 && activeThreads == 0 && !isExecuting
    {
      tasksCreated := 0;
      tasksCompleted := 0;
      activeThreads := 0;
      isExecuting := false;
    }

    /** The counter invariant: no more tasks completed than created, and the
        active count is the difference. It says nothing about how many tasks
        are still running. */
    ghost predicate Settled()
      reads this
    {
      0 <= tasksCompleted <= tasksCreated && activeThreads == tasksCreated - tasksCompleted
    }

    /** Since the start of the current method, `n` more tasks were created and
        completed, and nothing else changed. */
    twostate predicate RanTasks(n: nat)
      reads this
    {
      tasksCreated == old(tasksCreated) + n &&
      tasksCompleted == old(tasksCompleted) + n &&
      activeThreads == old(activeThreads) &&
      isExecuting == old(isExecuting)
    }

    method Reset()
      modifies this
      ensures tasksCreated == 0 && tasksCompleted == 0 && activeThreads == 0 && !isExecuting
      ensures Settled()
    {
      tasksCreated := 0;
      tasksCompleted := 0;
      activeThreads := 0;
      isExecuting := false;
    }

    method StartExecution()
      modifies this`isExecuting
      ensures isExecuting
    {
      isExecuting := true;
    }

    method EndExecution()
      modifies this`isExecuting
      ensures !isExecuting
    {
      isExecuting := false;
    }

    method IncrementTasksCreated()
      modifies this`tasksCreated
      ensures tasksCreated == old(tasksCreated) + 1
    {
      tasksCreated := tasksCreated + 1;
    }

    method IncrementTasksCompleted()
      modifies this`tasksCompleted
      ensures tasksCompleted == old(tasksCompleted) + 1
    {
      tasksCompleted := tasksCompleted + 1;
    }

    method IncrementActiveThreads()
      modifies this`activeThreads
      ensures activeThreads == old(activeThreads) + 1
    {
      activeThreads := activeThreads + 1;
    }

    method DecrementActiveThreads()
      modifies this`activeThreads
      ensures activeThreads == old(activeThreads) - 1
    {
      activeThreads := activeThreads - 1;
    }

    /** `getProgress`: the percentage of created tasks that completed, 0 before
        any task was created. */
    function Progress(): (r: real)
      reads this
      ensures tasksCreated == 0 ==> r == 0.0
      ensures 0 <= tasksCompleted <= tasksCreated ==> 0.0 <= r <= 100.0
      ensures 0 < tasksCreated == tasksCompleted ==> r == 100.0
    {
      if tasksCreated == 0 then 0.0
      else tasksCompleted as real / tasksCreated as real * 100.0
    }
  }
}
