/**
 * The two pieces of logic in the task list view, app/routes/Tasks.tsx: the
 * filter that picks the tasks to show for the selected mode, and the colour
 * of the priority chip. The mode is free text, as the view's state is; the
 * menu offers "all", "completed", "pending" and "high".
 */
module TasksView {
  import opened Seqs
  import opened TaskStore

  /** Whether a task is shown under `filter`; any mode but the three named shows everything. */
  predicate Shows(filter: string, t: Task)
    ensures Shows(filter, t) <==>
      ((filter == "completed" ==> t.completed) && (filter == "pending" ==> !t.completed)
       && (filter == "high" ==> PriorityColor(t.priority) == Error))
  {
    if filter == "completed" then t.completed
    else if filter == "pending" then !t.completed
    else if filter == "high" then t.priority == High
    else true
  }

  function ShownBy(filter: string): Task -> bool {
    (t: Task) => Shows(filter, t)
  }

  /** filteredTasks: the tasks shown under `filter`, in list order. */
  function FilteredTasks(filter: string, tasks: seq<Task>): (r: seq<Task>)
    ensures |r| <= |tasks|
    ensures forall t :: t in r <==> t in tasks && Shows(filter, t)
  {
    Filter(tasks, ShownBy(filter))
  }

  /** "completed" keeps exactly the completed tasks, each as often as it occurs. */
  lemma FilteredCompleted(tasks: seq<Task>)
    ensures forall t :: t in FilteredTasks("completed", tasks) <==> t in tasks && t.completed
    ensures forall t ::
      multiset(FilteredTasks("completed", tasks))[t] == (if t.completed then multiset(tasks)[t] else 0)
  {
    FilterMultiset(tasks, ShownBy("completed"));
  }

  /** "pending" keeps exactly the tasks not completed. */
  lemma FilteredPending(tasks: seq<Task>)
    ensures forall t :: t in FilteredTasks("pending", tasks) <==> t in tasks && !t.completed
    ensures forall t ::
      multiset(FilteredTasks("pending", tasks))[t] == (if !t.completed then multiset(tasks)[t] else 0)
  {
    FilterMultiset(tasks, ShownBy("pending"));
  }

  /** "high" keeps exactly the high-priority tasks. */
  lemma FilteredHigh(tasks: seq<Task>)
    ensures forall t :: t in FilteredTasks("high", tasks) <==> t in tasks && t.priority == High
    ensures forall t ::
      multiset(FilteredTasks("high", tasks))[t] == (if t.priority == High then multiset(tasks)[t] else 0)
  {
    FilterMultiset(tasks, ShownBy("high"));
  }

  /** "all", and any mode the view does not name, shows the whole list. */
  lemma FilteredOther(filter: string, tasks: seq<Task>)
    requires filter != "completed" && filter != "pending" && filter != "high"
    ensures FilteredTasks(filter, tasks) == tasks
  {
    FilterAll(tasks, ShownBy(filter));
  }

  /** Every mode shows a subsequence of the list, so the newest-first order carries over. */
  lemma FilteredInOrder(filter: string, tasks: seq<Task>)
    ensures IsSubsequence(FilteredTasks(filter, tasks), tasks)
    ensures Sorted(tasks) ==> Sorted(FilteredTasks(filter, tasks))
  {
    FilterIsSubsequence(tasks, ShownBy(filter));
    if Sorted(tasks) {
      FilterOrder(tasks, ShownBy(filter), (a: Task, b: Task) => a.createdAt >= b.createdAt);
    }
  }

  /** "completed" and "pending" split the list between them. */
  lemma CompletedPendingPartition(tasks: seq<Task>)
    ensures |FilteredTasks("completed", tasks)| + |FilteredTasks("pending", tasks)| == |tasks|
    ensures multiset(FilteredTasks("completed", tasks)) + multiset(FilteredTasks("pending", tasks))
      == multiset(tasks)
  {
    FilterPartition(tasks, ShownBy("completed"), ShownBy("pending"));
  }

  datatype ChipColor = Error | Warning | Default

  /** The colour of a task's priority chip. */
  function PriorityColor(p: Priority): (c: ChipColor)
    ensures c.Error? <==> p.High?
    ensures c.Warning? <==> p.Medium?
    ensures c.Default? <==> p.Low?
  {
    if p == High then Error else if p == Medium then Warning else Default
  }

  /** Each priority has its own chip colour. */
  lemma PriorityColorInjective(p: Priority, q: Priority)
    ensures PriorityColor(p) == PriorityColor(q) <==> p == q
  {
  }

  /** The "high" mode shows exactly the tasks whose chip is red (error). */
  lemma HighShowsErrorChips(tasks: seq<Task>)
    ensures forall t :: t in FilteredTasks("high", tasks) <==> t in tasks && PriorityColor(t.priority) == Error
  {
    FilteredHigh(tasks);
  }
}
