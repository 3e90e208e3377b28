/**
 * The task store of app/store/taskStore.ts: the list of tasks, its three
 * actions (addTask, toggleTask, deleteTask) and the pair of functions the
 * persistence layer applies on the way to and from local storage
 * (partialize, merge).
 *
 * Each action is a function from the old list to the new one; the class
 * TaskState holds the list and replaces it through those functions, as the
 * store's `set` does. The clock is a parameter of addTask: one reading, in
 * milliseconds, gives both the id and the creation time.
 */
module TaskStore {
  import opened Digits
  import opened IsoDate
  import opened Seqs
  import opened ArraySort

  datatype Priority = Low | Medium | High

  datatype Task = Task(id: string, title: string, description: string,
                       priority: Priority, completed: bool, createdAt: TimeValue)

  /** What a caller of addTask supplies: a task without id, createdAt and completed. */
  datatype Draft = Draft(title: string, description: string, priority: Priority)

  /** The sort key of the store: the creation time. */
  function CreatedAt(t: Task): int {
    t.createdAt
  }

  /** Newest first: createdAt never increases along the list. */
  predicate Sorted(tasks: seq<Task>) {
    SortedDesc(tasks, CreatedAt)
  }

  predicate DistinctIds(tasks: seq<Task>) {
    forall i, j :: 0 <= i < j < |tasks| ==> tasks[i].id != tasks[j].id
  }

  /** Every id is the decimal text of its task's creation time, as addTask makes it. */
  predicate Stamped(tasks: seq<Task>) {
    forall i :: 0 <= i < |tasks| ==> tasks[i].id == IntText(tasks[i].createdAt)
  }

  predicate HasId(tasks: seq<Task>, id: string) {
    exists i :: 0 <= i < |tasks| && tasks[i].id == id
  }

  // ---------------------------------------------------------------------
  // addTask
  // ---------------------------------------------------------------------

  /** The task addTask builds from a draft at clock reading `now`. */
  function NewTask(draft: Draft, now: TimeValue): (t: Task)
    ensures Stamped([t]) && t.createdAt == now && !t.completed
    ensures t.title == draft.title && t.description == draft.description && t.priority == draft.priority
  {
    Task(IntText(now), draft.title, draft.description, draft.priority, false, now)
  }

  /** The list after addTask: the new task in front, then a stable sort, newest first. */
  function Added(tasks: seq<Task>, draft: Draft, now: TimeValue): (r: seq<Task>)
    ensures |r| == |tasks| + 1
    ensures Sorted(r)
    ensures multiset(r) == multiset{NewTask(draft, now)} + multiset(tasks)
  {
    var r := SortDesc([NewTask(draft, now)] + tasks, CreatedAt);
    assert multiset([NewTask(draft, now)] + tasks) == multiset{NewTask(draft, now)} + multiset(tasks);
    assert |multiset(r)| == |r|;
    r
  }

  /** The new task carries the caller's fields, is not completed, and is stamped with the clock. */
  lemma AddedNewTask(tasks: seq<Task>, draft: Draft, now: TimeValue)
    ensures exists i :: 0 <= i < |Added(tasks, draft, now)| && Added(tasks, draft, now)[i] == NewTask(draft, now)
    ensures var t := NewTask(draft, now);
      && t.id == IntText(now) && t.createdAt == now && !t.completed
      && t.title == draft.title && t.description == draft.description && t.priority == draft.priority
  {
    var r := Added(tasks, draft, now);
    assert NewTask(draft, now) in multiset(r);
  }

  /**
   * Ties go to the new task: among the tasks created at `now` it comes first,
   * followed by the older ones in their old order.
   */
  lemma {:induction false} AddedTieBreak(tasks: seq<Task>, draft: Draft, now: TimeValue, k: int)
    ensures KeyRun(Added(tasks, draft, now), CreatedAt, k)
      == (if k == now then [NewTask(draft, now)] else []) + KeyRun(tasks, CreatedAt, k)
  {
    var n := NewTask(draft, now);
    var s := [n] + tasks;
    SortDescStable(s, CreatedAt, k);
    assert s[0] == n && s[1..] == tasks;
    assert KeyRun(s, CreatedAt, k) == (if CreatedAt(n) == k then [n] else []) + KeyRun(tasks, CreatedAt, k);
  }

  /**
   * On a list that is already newest first, addTask inserts the new task
   * after every strictly newer task and before all others, which stay in order.
   */
  lemma {:induction false} AddedIntoSorted(tasks: seq<Task>, draft: Draft, now: TimeValue)
    requires Sorted(tasks)
    ensures var p := InsertionPoint(NewTask(draft, now), tasks, CreatedAt);
      && Added(tasks, draft, now) == tasks[..p] + [NewTask(draft, now)] + tasks[p..]
      && (forall i :: 0 <= i < p ==> tasks[i].createdAt > now)
      && (forall i :: p <= i < |tasks| ==> tasks[i].createdAt <= now)
  {
    var n := NewTask(draft, now);
    var s := [n] + tasks;
    assert s[0] == n && s[1..] == tasks;
    SortDescOfSorted(tasks, CreatedAt);
    assert Added(tasks, draft, now) == Insert(n, tasks, CreatedAt);
    InsertSplit(n, tasks, CreatedAt);
    var p := InsertionPoint(n, tasks, CreatedAt);
    forall i | p <= i < |tasks| ensures tasks[i].createdAt <= now {
      if i > p {
        assert CreatedAt(tasks[p]) >= CreatedAt(tasks[i]);
      }
    }
  }

  // ---------------------------------------------------------------------
  // toggleTask
  // ---------------------------------------------------------------------

  /** One task under toggleTask(id): only a matching task's completed flag changes. */
  function Flip(t: Task, id: string): (r: Task)
    ensures r.(completed := t.completed) == t
    ensures r.completed != t.completed <==> t.id == id
  {
    if t.id == id then t.(completed := !t.completed) else t
  }

  /** The list after toggleTask(id). */
  function Toggled(tasks: seq<Task>, id: string): (r: seq<Task>)
    ensures |r| == |tasks|
    ensures forall i :: 0 <= i < |r| ==> r[i].(completed := tasks[i].completed) == tasks[i]
    ensures forall i :: 0 <= i < |r| ==> (r[i].completed != tasks[i].completed <==> tasks[i].id == id)
  {
    seq(|tasks|, i requires 0 <= i < |tasks| => Flip(tasks[i], id))
  }

  /** Toggling an id no task has changes nothing. */
  lemma ToggledAbsent(tasks: seq<Task>, id: string)
    requires !HasId(tasks, id)
    ensures Toggled(tasks, id) == tasks
  {
    var r := Toggled(tasks, id);
    assert forall i :: 0 <= i < |r| ==> r[i] == tasks[i];
  }

  /** Toggling the same id twice restores the list. */
  lemma ToggledTwice(tasks: seq<Task>, id: string)
    ensures Toggled(Toggled(tasks, id), id) == tasks
  {
    var r := Toggled(Toggled(tasks, id), id);
    assert forall i :: 0 <= i < |r| ==> r[i] == tasks[i];
  }

  /** Toggling keeps the order, the ids and the creation times. */
  lemma ToggledKeeps(tasks: seq<Task>, id: string)
    ensures Sorted(tasks) ==> Sorted(Toggled(tasks, id))
    ensures DistinctIds(tasks) ==> DistinctIds(Toggled(tasks, id))
    ensures Stamped(tasks) ==> Stamped(Toggled(tasks, id))
  {
    var r := Toggled(tasks, id);
    assert forall i :: 0 <= i < |r| ==> r[i].id == tasks[i].id && r[i].createdAt == tasks[i].createdAt;
  }

  // ---------------------------------------------------------------------
  // deleteTask
  // ---------------------------------------------------------------------

  /** The predicate deleteTask(id) filters with. */
  function OtherId(id: string): Task -> bool {
    (t: Task) => t.id != id
  }

  /** The list after deleteTask(id): the tasks whose id differs, in order. */
  function Deleted(tasks: seq<Task>, id: string): (r: seq<Task>)
    ensures |r| <= |tasks|
    ensures forall t :: t in r <==> t in tasks && t.id != id
  {
    Filter(tasks, OtherId(id))
  }

  /** deleteTask keeps exactly the tasks with another id, each as often as before, in order. */
  lemma DeletedSpec(tasks: seq<Task>, id: string)
    ensures forall t :: t in Deleted(tasks, id) <==> t in tasks && t.id != id
    ensures forall t :: multiset(Deleted(tasks, id))[t] == if t.id != id then multiset(tasks)[t] else 0
    ensures IsSubsequence(Deleted(tasks, id), tasks)
  {
    FilterMultiset(tasks, OtherId(id));
    FilterIsSubsequence(tasks, OtherId(id));
  }

  /** Deleting an id no task has changes nothing. */
  lemma DeletedAbsent(tasks: seq<Task>, id: string)
    requires !HasId(tasks, id)
    ensures Deleted(tasks, id) == tasks
  {
    FilterAll(tasks, OtherId(id));
  }

  /** Deleting the id of exactly one task removes that task and only it. */
  lemma DeletedUnique(tasks: seq<Task>, id: string, k: nat)
    requires k < |tasks| && tasks[k].id == id
    requires forall i :: 0 <= i < |tasks| && i != k ==> tasks[i].id != id
    ensures Deleted(tasks, id) == tasks[..k] + tasks[k + 1..]
    ensures |Deleted(tasks, id)| == |tasks| - 1
  {
    var p := OtherId(id);
    var front, back := tasks[..k], tasks[k + 1..];
    assert tasks == front + ([tasks[k]] + back);
    calc {
      Deleted(tasks, id);
      Filter(front + ([tasks[k]] + back), p);
      { FilterAppend(front, [tasks[k]] + back, p); }
      Filter(front, p) + Filter([tasks[k]] + back, p);
      { FilterAppend([tasks[k]], back, p); }
      Filter(front, p) + (Filter([tasks[k]], p) + Filter(back, p));
      { FilterAll(front, p); FilterAll(back, p); assert Filter([tasks[k]], p) == []; }
      front + ([] + back);
    }
  }

  /** With distinct ids, deleting a present id shortens the list by exactly one. */
  lemma DeletedDistinct(tasks: seq<Task>, id: string)
    requires DistinctIds(tasks) && HasId(tasks, id)
    ensures |Deleted(tasks, id)| == |tasks| - 1
    ensures !HasId(Deleted(tasks, id), id)
  {
    var k :| 0 <= k < |tasks| && tasks[k].id == id;
    DeletedUnique(tasks, id, k);
    var r := Deleted(tasks, id);
    forall i | 0 <= i < |r| ensures r[i].id != id {
      assert r[i] in r;
    }
  }

  /** Deleting keeps the order and the invariants of the list. */
  lemma DeletedKeeps(tasks: seq<Task>, id: string)
    ensures Sorted(tasks) ==> Sorted(Deleted(tasks, id))
    ensures DistinctIds(tasks) ==> DistinctIds(Deleted(tasks, id))
    ensures Stamped(tasks) ==> Stamped(Deleted(tasks, id))
  {
    var p := OtherId(id);
    var r := Deleted(tasks, id);
    if Sorted(tasks) {
      FilterOrder(tasks, p, (a: Task, b: Task) => a.createdAt >= b.createdAt);
    }
    if DistinctIds(tasks) {
      FilterOrder(tasks, p, (a: Task, b: Task) => a.id != b.id);
    }
    if Stamped(tasks) {
      forall i | 0 <= i < |r| ensures r[i].id == IntText(r[i].createdAt) {
        assert r[i] in tasks;
      }
    }
  }

  // ---------------------------------------------------------------------
  // Distinct ids
  // ---------------------------------------------------------------------

  lemma {:induction false} TwoOccurrences<T>(s: seq<T>, x: T)
    requires multiset(s)[x] >= 2
    ensures exists i, j :: 0 <= i < j < |s| && s[i] == x && s[j] == x
  {
    assert s == [s[0]] + s[1..];
    assert multiset(s) == multiset{s[0]} + multiset(s[1..]);
    if s[0] == x {
      assert x in multiset(s[1..]);
      var j :| 0 <= j < |s[1..]| && s[1..][j] == x;
      assert s[j + 1] == x;
    } else {
      TwoOccurrences(s[1..], x);
      var i, j :| 0 <= i < j < |s[1..]| && s[1..][i] == x && s[1..][j] == x;
      assert s[i + 1] == x && s[j + 1] == x;
    }
  }

  /** Two positions of a list are matched by two distinct positions of any reordering. */
  lemma DistinctPositions(a: seq<Task>, b: seq<Task>, i: nat, j: nat)
    requires multiset(a) == multiset(b) && i < j < |a|
    ensures exists k, l :: 0 <= k < |b| && 0 <= l < |b| && k != l && b[k] == a[i] && b[l] == a[j]
  {
    if a[i] == a[j] {
      assert multiset(a)[a[i]] >= 2 by {
        assert a == a[..j] + [a[j]] + a[j + 1..];
        assert a[i] in a[..j];
      }
      TwoOccurrences(b, a[i]);
    } else {
      assert a[i] in multiset(b) && a[j] in multiset(b);
    }
  }

  /** Reordering a list cannot make two ids equal. */
  lemma PermutationDistinct(a: seq<Task>, b: seq<Task>)
    requires multiset(a) == multiset(b) && DistinctIds(b)
    ensures DistinctIds(a)
  {
    forall i, j | 0 <= i < j < |a| ensures a[i].id != a[j].id {
      DistinctPositions(a, b, i, j);
    }
  }

  /** Every task addTask returns is the new one or an old one. */
  lemma AddedFrom(tasks: seq<Task>, draft: Draft, now: TimeValue, i: nat)
    requires i < |Added(tasks, draft, now)|
    ensures Added(tasks, draft, now)[i] in [NewTask(draft, now)] + tasks
  {
    var r := Added(tasks, draft, now);
    assert r[i] in multiset(r);
  }

  /** addTask stamps its task with the clock, so stamping is kept. */
  lemma AddedStamped(tasks: seq<Task>, draft: Draft, now: TimeValue)
    requires Stamped(tasks)
    ensures Stamped(Added(tasks, draft, now))
  {
    var r := Added(tasks, draft, now);
    forall i | 0 <= i < |r| ensures r[i].id == IntText(r[i].createdAt) {
      AddedFrom(tasks, draft, now, i);
    }
  }

  /** A clock reading that differs from every task's creation time keeps the ids distinct. */
  lemma AddedFreshDistinct(tasks: seq<Task>, draft: Draft, now: TimeValue)
    requires DistinctIds(tasks) && Stamped(tasks)
    requires forall i :: 0 <= i < |tasks| ==> tasks[i].createdAt != now
    ensures DistinctIds(Added(tasks, draft, now))
  {
    var s := [NewTask(draft, now)] + tasks;
    forall i, j | 0 <= i < j < |s| ensures s[i].id != s[j].id {
      if i == 0 {
        IntTextInjective(now, tasks[j - 1].createdAt);
      } else {
        assert s[i] == tasks[i - 1] && s[j] == tasks[j - 1];
      }
    }
    PermutationDistinct(Added(tasks, draft, now), s);
  }

  /** A clock reading equal to a task's creation time gives the new task that task's id. */
  lemma AddedCollides(tasks: seq<Task>, draft: Draft, now: TimeValue, k: nat)
    requires Stamped(tasks) && k < |tasks| && tasks[k].createdAt == now
    ensures !DistinctIds(Added(tasks, draft, now))
  {
    var s := [NewTask(draft, now)] + tasks;
    var r := Added(tasks, draft, now);
    assert s[0].id == s[k + 1].id;
    DistinctPositions(s, r, 0, k + 1);
    var i, j :| 0 <= i < |r| && 0 <= j < |r| && i != j && r[i] == s[0] && r[j] == s[k + 1];
    if i < j {
      assert r[i].id == r[j].id;
    } else {
      assert r[j].id == r[i].id;
    }
  }

  /**
   * addTask keeps the ids distinct exactly when its clock reading differs
   * from the creation time of every task in the list; nothing checks this.
   */
  lemma AddedDistinct(tasks: seq<Task>, draft: Draft, now: TimeValue)
    requires DistinctIds(tasks) && Stamped(tasks)
    ensures Stamped(Added(tasks, draft, now))
    ensures DistinctIds(Added(tasks, draft, now))
      <==> forall i :: 0 <= i < |tasks| ==> tasks[i].createdAt != now
  {
    AddedStamped(tasks, draft, now);
    if forall i :: 0 <= i < |tasks| ==> tasks[i].createdAt != now {
      AddedFreshDistinct(tasks, draft, now);
    } else {
      var k :| 0 <= k < |tasks| && tasks[k].createdAt == now;
      AddedCollides(tasks, draft, now, k);
    }
  }

  // ---------------------------------------------------------------------
  // Sessions of actions
  // ---------------------------------------------------------------------

  datatype Action = Add(draft: Draft, now: TimeValue) | Toggle(id: string) | Delete(id: string)

  function Apply(tasks: seq<Task>, a: Action): seq<Task> {
    match a
    case Add(draft, now) => Added(tasks, draft, now)
    case Toggle(id) => Toggled(tasks, id)
    case Delete(id) => Deleted(tasks, id)
  }

  function Run(tasks: seq<Task>, actions: seq<Action>): seq<Task>
    decreases |actions|
  {
    if actions == [] then tasks else Run(Apply(tasks, actions[0]), actions[1..])
  }

  /** Every addTask in the session reads a clock later than all readings before it. */
  predicate ClockRises(actions: seq<Action>, last: int)
    decreases |actions|
  {
    actions == [] ||
    (match actions[0]
     case Add(_, now) => now > last && ClockRises(actions[1..], now)
     case _ => ClockRises(actions[1..], last))
  }

  /** The list stays newest first through any session of actions. */
  lemma {:induction false} RunSorted(tasks: seq<Task>, actions: seq<Action>)
    requires Sorted(tasks)
    ensures Sorted(Run(tasks, actions))
    decreases |actions|
  {
    if actions != [] {
      var next := Apply(tasks, actions[0]);
      assert Sorted(next) by {
        match actions[0]
        case Add(_, _) =>
        case Toggle(id) => ToggledKeeps(tasks, id);
        case Delete(id) => DeletedKeeps(tasks, id);
      }
      RunSorted(next, actions[1..]);
    }
  }

  /** One action keeps ids distinct when an addTask reads a clock later than `last`. */
  lemma StepDistinct(tasks: seq<Task>, a: Action, last: int)
    requires DistinctIds(tasks) && Stamped(tasks)
    requires forall i :: 0 <= i < |tasks| ==> tasks[i].createdAt <= last
    requires a.Add? ==> a.now > last
    ensures var next := Apply(tasks, a);
      DistinctIds(next) && Stamped(next)
      && forall i :: 0 <= i < |next| ==> next[i].createdAt <= (if a.Add? then a.now else last)
  {
    match a
    case Add(draft, now) =>
      AddedDistinct(tasks, draft, now);
      AddedNoLater(tasks, draft, now);
    case Toggle(id) =>
      ToggledKeeps(tasks, id);
    case Delete(id) =>
      DeletedKeeps(tasks, id);
      DeletedNoLater(tasks, id, last);
  }

  lemma AddedNoLater(tasks: seq<Task>, draft: Draft, now: TimeValue)
    requires forall i :: 0 <= i < |tasks| ==> tasks[i].createdAt <= now
    ensures forall i :: 0 <= i < |Added(tasks, draft, now)| ==> Added(tasks, draft, now)[i].createdAt <= now
  {
    forall i | 0 <= i < |Added(tasks, draft, now)| ensures Added(tasks, draft, now)[i].createdAt <= now {
      AddedFrom(tasks, draft, now, i);
    }
  }

  lemma DeletedNoLater(tasks: seq<Task>, id: string, last: int)
    requires forall i :: 0 <= i < |tasks| ==> tasks[i].createdAt <= last
    ensures forall i :: 0 <= i < |Deleted(tasks, id)| ==> Deleted(tasks, id)[i].createdAt <= last
  {
    var r := Deleted(tasks, id);
    forall i | 0 <= i < |r| ensures r[i].createdAt <= last {
      assert r[i] in tasks;
    }
  }

  /** Ids stay distinct through a session whose clock readings strictly increase. */
  lemma {:induction false} RunDistinct(tasks: seq<Task>, actions: seq<Action>, last: int)
    requires DistinctIds(tasks) && Stamped(tasks)
    requires forall i :: 0 <= i < |tasks| ==> tasks[i].createdAt <= last
    requires ClockRises(actions, last)
    ensures DistinctIds(Run(tasks, actions)) && Stamped(Run(tasks, actions))
    decreases |actions|
  {
    if actions != [] {
      var a := actions[0];
      var later := if a.Add? then a.now else last;
      StepDistinct(tasks, a, last);
      assert ClockRises(actions[1..], later);
      RunDistinct(Apply(tasks, a), actions[1..], later);
    }
  }

  // ---------------------------------------------------------------------
  // Persistence: partialize and merge
  // ---------------------------------------------------------------------

  /** A task as written to storage: createdAt as ISO-8601 text. */
  datatype StoredTask = StoredTask(id: string, title: string, description: string,
                                   priority: Priority, completed: bool, createdAt: string)

  /** The persisted object: only the task list. */
  datatype PersistedState = PersistedState(tasks: seq<StoredTask>)

  /** One task as partialize writes it: the same fields, createdAt as text. */
  function Persisted(t: Task): (s: StoredTask)
    ensures s.id == t.id && s.title == t.title && s.description == t.description
    ensures s.priority == t.priority && s.completed == t.completed
    ensures s.createdAt == ToIsoString(t.createdAt)
    ensures ParseIso(s.createdAt) == Some(t.createdAt)
  {
    IsoRoundTrip(t.createdAt);
    StoredTask(t.id, t.title, t.description, t.priority, t.completed, ToIsoString(t.createdAt))
  }

  /** partialize: every createdAt becomes `toISOString()` text. */
  function Partialize(tasks: seq<Task>): (p: PersistedState)
    ensures |p.tasks| == |tasks|
    ensures forall i :: 0 <= i < |tasks| ==>
      (p.tasks[i].id == tasks[i].id && p.tasks[i].title == tasks[i].title
       && p.tasks[i].description == tasks[i].description
       && p.tasks[i].priority == tasks[i].priority
       && p.tasks[i].completed == tasks[i].completed
       && p.tasks[i].createdAt == ToIsoString(tasks[i].createdAt))
  {
    PersistedState(seq(|tasks|, i requires 0 <= i < |tasks| => Persisted(tasks[i])))
  }

  /** Every stored createdAt is text `new Date(...)` reads as a valid date. */
  predicate Restorable(p: PersistedState) {
    forall i :: 0 <= i < |p.tasks| ==> ParseIso(p.tasks[i].createdAt).Some?
  }

  /**
   * One task as merge rebuilds it: the same fields, createdAt read from the
   * text. Writing it out again gives text for the same instant.
   */
  function Restore(s: StoredTask): (t: Task)
    requires ParseIso(s.createdAt).Some?
    ensures t.id == s.id && t.title == s.title && t.description == s.description
    ensures t.priority == s.priority && t.completed == s.completed
    ensures Some(t.createdAt) == ParseIso(s.createdAt)
    ensures ParseIso(Persisted(t).createdAt) == ParseIso(s.createdAt)
  {
    Task(s.id, s.title, s.description, s.priority, s.completed, ParseIso(s.createdAt).value)
  }

  /** The task list merge builds from the persisted state. */
  function MergedTasks(p: PersistedState): (r: seq<Task>)
    requires Restorable(p)
    ensures |r| == |p.tasks|
    ensures forall i :: 0 <= i < |r| ==>
      (r[i].id == p.tasks[i].id && r[i].title == p.tasks[i].title
       && r[i].description == p.tasks[i].description
       && r[i].priority == p.tasks[i].priority
       && r[i].completed == p.tasks[i].completed
       && Some(r[i].createdAt) == ParseIso(p.tasks[i].createdAt))
  {
    seq(|p.tasks|, i requires 0 <= i < |p.tasks| => Restore(p.tasks[i]))
  }

  /**
   * What partialize writes, merge reads back: every task with the same
   * fields and its createdAt at the same millisecond.
   */
  lemma PersistRoundTrip(tasks: seq<Task>)
    ensures Restorable(Partialize(tasks))
    ensures MergedTasks(Partialize(tasks)) == tasks
  {
    var p := Partialize(tasks);
    forall i | 0 <= i < |tasks| ensures ParseIso(p.tasks[i].createdAt) == Some(tasks[i].createdAt) {
      IsoRoundTrip(tasks[i].createdAt);
    }
    var r := MergedTasks(p);
    assert forall i :: 0 <= i < |r| ==> r[i] == tasks[i];
  }

  // ---------------------------------------------------------------------
  // The store
  // ---------------------------------------------------------------------

  class TaskState {
    var tasks: seq<Task>

    constructor ()
      ensures tasks == []
    {
      tasks := [];
    }

    method AddTask(draft: Draft, now: TimeValue)
      modifies this
      ensures tasks == Added(old(tasks), draft, now)
      ensures |tasks| == |old(tasks)| + 1 && Sorted(tasks)
      ensures multiset(tasks) == multiset{NewTask(draft, now)} + multiset(old(tasks))
    {
      tasks := Added(tasks, draft, now);
    }

    method ToggleTask(id: string)
      modifies this
      ensures tasks == Toggled(old(tasks), id)
      ensures Sorted(old(tasks)) ==> Sorted(tasks)
    {
      ToggledKeeps(tasks, id);
      tasks := Toggled(tasks, id);
    }

    method DeleteTask(id: string)
      modifies this
      ensures tasks == Deleted(old(tasks), id)
      ensures Sorted(old(tasks)) ==> Sorted(tasks)
    {
      DeletedKeeps(tasks, id);
      tasks := Deleted(tasks, id);
    }

    /** merge: replaces the task list by the persisted one and keeps the rest of the state. */
    method Merge(persisted: PersistedState)
      requires Restorable(persisted)
      modifies this
      ensures tasks == MergedTasks(persisted)
    {
      tasks := MergedTasks(persisted);
    }
  }
}
