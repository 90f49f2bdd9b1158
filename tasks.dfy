/** Task records and the two list queries of the task tracker.
    A task is "current" while its completion timestamp is null and
    "completed" once it carries one. The queries are pure functions over
    the store's map from task id to task, scanning ids below a bound. */
module Tasks {

  datatype Option<T> = None | Some(value: T)

  type Username = string

  /** One stored task. `datecompleted` is the whole state machine:
      None means current, Some(t) means completed at time t. */
  datatype Task = Task(owner: Username, title: string, memo: string,
                       important: bool, datecompleted: Option<int>)

  type TaskMap = map<nat, Task>

  predicate OwnedBy(tasks: TaskMap, id: nat, u: Username)
  {
    id in tasks && tasks[id].owner == u
  }

  predicate IsCurrent(tasks: TaskMap, id: nat, u: Username)
  {
    OwnedBy(tasks, id, u) && tasks[id].datecompleted.None?
  }

  predicate IsCompleted(tasks: TaskMap, id: nat, u: Username)
  {
    OwnedBy(tasks, id, u) && tasks[id].datecompleted.Some?
  }

  predicate Increasing(s: seq<nat>)
  {
    forall i, j :: 0 <= i < j < |s| ==> s[i] < s[j]
  }

  predicate Distinct(s: seq<nat>)
  {
    forall i, j :: 0 <= i < j < |s| ==> s[i] != s[j]
  }

  /** The ownership lookup `get_object_or_404(Task, pk=id, user=u)`:
      a task owned by someone else is reported exactly like a missing one. */
  function Lookup(tasks: TaskMap, id: nat, u: Username): (r: Option<Task>)
    ensures r.Some? <==> OwnedBy(tasks, id, u)
    ensures r.Some? ==> r.value == tasks[id] && r.value.owner == u
  {
    if id in tasks && tasks[id].owner == u then Some(tasks[id]) else None
  }

  /** `Task.objects.filter(user=u, datecompleted__isnull=True)`, over ids below n,
      in increasing id order. */
  function CurrentTasks(tasks: TaskMap, u: Username, n: nat): (r: seq<nat>)
    ensures forall id: nat :: id in r <==> id < n && IsCurrent(tasks, id, u)
    ensures Increasing(r)
  {
    if n == 0 then []
    else
      var rest := CurrentTasks(tasks, u, n - 1);
      assert forall i :: 0 <= i < |rest| ==> rest[i] in rest;
      if IsCurrent(tasks, n - 1, u) then rest + [n - 1] else rest
  }

  /** `Task.objects.filter(user=u, datecompleted__isnull=False)`, before ordering,
      over ids below n, in increasing id order. */
  function CompletedFilter(tasks: TaskMap, u: Username, n: nat): (r: seq<nat>)
    ensures forall id: nat :: id in r <==> id < n && IsCompleted(tasks, id, u)
    ensures Increasing(r)
  {
    if n == 0 then []
    else
      var rest := CompletedFilter(tasks, u, n - 1);
      assert forall i :: 0 <= i < |rest| ==> rest[i] in rest;
      if IsCompleted(tasks, n - 1, u) then rest + [n - 1] else rest
  }

  /** Every id of s names a stored task that carries a completion time. */
  predicate AllStamped(tasks: TaskMap, s: seq<nat>)
  {
    forall i :: 0 <= i < |s| ==> s[i] in tasks && tasks[s[i]].datecompleted.Some?
  }

  function Stamp(tasks: TaskMap, id: nat): int
    requires id in tasks && tasks[id].datecompleted.Some?
  {
    tasks[id].datecompleted.value
  }

  /** The order of `order_by('-datecompleted')`: completion times never increase. */
  predicate NewestFirst(tasks: TaskMap, s: seq<nat>)
    requires AllStamped(tasks, s)
  {
    forall i, j :: 0 <= i < j < |s| ==> Stamp(tasks, s[i]) >= Stamp(tasks, s[j])
  }

  /** Places id in front of the first entry that is not newer than it. */
  function InsertByDate(tasks: TaskMap, id: nat, s: seq<nat>): (r: seq<nat>)
    requires id in tasks && tasks[id].datecompleted.Some?
    requires AllStamped(tasks, s) && NewestFirst(tasks, s)
    ensures multiset(r) == multiset(s) + multiset{id}
    ensures AllStamped(tasks, r) && NewestFirst(tasks, r)
  {
    if s == [] then [id]
    else if Stamp(tasks, id) >= Stamp(tasks, s[0]) then [id] + s
    else
      var tail := InsertByDate(tasks, id, s[1..]);
      assert s == [s[0]] + s[1..];
      StampsBounded(tasks, tail, s[1..], id, Stamp(tasks, s[0]));
      [s[0]] + tail
  }

  /** A permutation of s plus id is no newer than a bound that s and id respect. */
  lemma StampsBounded(tasks: TaskMap, t: seq<nat>, s: seq<nat>, id: nat, bound: int)
    requires id in tasks && tasks[id].datecompleted.Some? && Stamp(tasks, id) <= bound
    requires AllStamped(tasks, s) && forall i :: 0 <= i < |s| ==> Stamp(tasks, s[i]) <= bound
    requires AllStamped(tasks, t) && multiset(t) == multiset(s) + multiset{id}
    ensures forall k :: 0 <= k < |t| ==> Stamp(tasks, t[k]) <= bound
  {
    forall k | 0 <= k < |t| ensures Stamp(tasks, t[k]) <= bound {
      assert t[k] in multiset(t);
      if t[k] != id {
        assert t[k] in multiset(s);
        var m :| 0 <= m < |s| && s[m] == t[k];
      }
    }
  }

  /** Orders ids newest first; the result is a permutation of s. */
  function SortNewestFirst(tasks: TaskMap, s: seq<nat>): (r: seq<nat>)
    requires AllStamped(tasks, s)
    ensures multiset(r) == multiset(s)
    ensures AllStamped(tasks, r) && NewestFirst(tasks, r)
  {
    if s == [] then []
    else
      assert s == [s[0]] + s[1..];
      InsertByDate(tasks, s[0], SortNewestFirst(tasks, s[1..]))
  }

  /** `completedtasks`: u's completed tasks, most recently completed first. */
  function CompletedTasks(tasks: TaskMap, u: Username, n: nat): (r: seq<nat>)
    ensures forall id: nat :: id in r <==> id < n && IsCompleted(tasks, id, u)
    ensures Distinct(r)
    ensures AllStamped(tasks, r) && NewestFirst(tasks, r)
  {
    var f := CompletedFilter(tasks, u, n);
    assert forall i :: 0 <= i < |f| ==> f[i] in f;
    var r := SortNewestFirst(tasks, f);
    forall id: nat ensures id in r <==> id in f {
      assert id in r <==> id in multiset(r);
      assert id in f <==> id in multiset(f);
    }
    IncreasingAtMostOnce(f);
    DistinctByMultiset(r, multiset(f));
    r
  }

  lemma {:induction false} IncreasingAtMostOnce(s: seq<nat>)
    requires Increasing(s)
    ensures forall x :: multiset(s)[x] <= 1
  {
    if s != [] {
      assert s == [s[0]] + s[1..];
      IncreasingAtMostOnce(s[1..]);
      assert s[0] !in s[1..];
    }
  }

  lemma DistinctByMultiset(r: seq<nat>, m: multiset<nat>)
    requires multiset(r) == m
    requires forall x :: m[x] <= 1
    ensures Distinct(r)
  {
    forall i, j | 0 <= i < j < |r| ensures r[i] != r[j] {
      var x := r[j];
      assert r == r[..j] + r[j..];
      assert x == r[j..][0];
      assert multiset(r) == multiset(r[..j]) + multiset(r[j..]);
      assert m[x] <= 1;
      assert multiset(r[j..])[x] >= 1;
      assert multiset(r[..j])[x] == 0;
      assert r[i] == r[..j][i];
    }
  }

  /** The current and completed lists split u's tasks: no id is on both,
      and every task u owns is on one of them. */
  lemma ListsPartition(tasks: TaskMap, u: Username, n: nat)
    requires forall id :: id in tasks ==> id < n
    ensures forall id: nat :: !(id in CurrentTasks(tasks, u, n) && id in CompletedTasks(tasks, u, n))
    ensures forall id: nat :: OwnedBy(tasks, id, u) <==>
              id in CurrentTasks(tasks, u, n) || id in CompletedTasks(tasks, u, n)
  {
  }

  /** a and b hold the same tasks of u below n, with the same completion times. */
  predicate SameStatusBelow(a: TaskMap, b: TaskMap, u: Username, n: nat)
  {
    forall id: nat :: id < n ==>
      (OwnedBy(a, id, u) <==> OwnedBy(b, id, u)) &&
      (OwnedBy(a, id, u) ==> a[id].datecompleted == b[id].datecompleted)
  }

  /** a and b give the ids of K the same completion times. */
  predicate SameStamps(a: TaskMap, b: TaskMap, K: set<nat>)
  {
    forall k :: k in K ==> k in a && k in b && a[k].datecompleted == b[k].datecompleted
  }

  lemma {:induction false} InsertSameStamps(a: TaskMap, b: TaskMap, K: set<nat>, id: nat, s: seq<nat>)
    requires SameStamps(a, b, K) && id in K && forall i :: 0 <= i < |s| ==> s[i] in K
    requires id in a && a[id].datecompleted.Some? && AllStamped(a, s) && NewestFirst(a, s)
    ensures AllStamped(b, s) && NewestFirst(b, s)
    ensures InsertByDate(a, id, s) == InsertByDate(b, id, s)
  {
    if s != [] && Stamp(a, id) < Stamp(a, s[0]) {
      InsertSameStamps(a, b, K, id, s[1..]);
    }
  }

  lemma {:induction false} SortSameStamps(a: TaskMap, b: TaskMap, K: set<nat>, s: seq<nat>)
    requires SameStamps(a, b, K) && forall i :: 0 <= i < |s| ==> s[i] in K
    requires AllStamped(a, s)
    ensures AllStamped(b, s)
    ensures SortNewestFirst(a, s) == SortNewestFirst(b, s)
  {
    if s != [] {
      SortSameStamps(a, b, K, s[1..]);
      var t := SortNewestFirst(a, s[1..]);
      forall i | 0 <= i < |t| ensures t[i] in K {
        assert t[i] in multiset(t);
        assert t[i] in multiset(s[1..]);
      }
      InsertSameStamps(a, b, K, s[0], t);
    }
  }

  lemma {:induction false} FiltersSameStatus(a: TaskMap, b: TaskMap, u: Username, n: nat)
    requires SameStatusBelow(a, b, u, n)
    ensures CurrentTasks(a, u, n) == CurrentTasks(b, u, n)
    ensures CompletedFilter(a, u, n) == CompletedFilter(b, u, n)
  {
    if n > 0 {
      FiltersSameStatus(a, b, u, n - 1);
    }
  }

  /** Both lists of u depend only on which tasks u owns and when they were
      completed: what any other user does, and any edit that keeps u's
      completion times, leaves u's lists as they were. */
  lemma ListsSameStatus(a: TaskMap, b: TaskMap, u: Username, n: nat)
    requires SameStatusBelow(a, b, u, n)
    ensures CurrentTasks(a, u, n) == CurrentTasks(b, u, n)
    ensures CompletedTasks(a, u, n) == CompletedTasks(b, u, n)
  {
    FiltersSameStatus(a, b, u, n);
    var f := CompletedFilter(a, u, n);
    var K := set id: nat | id < n && IsCompleted(a, id, u);
    forall i | 0 <= i < |f| ensures f[i] in K && f[i] in a && a[f[i]].datecompleted.Some? {
      assert f[i] in f;
    }
    SortSameStamps(a, b, K, f);
  }

  /** A new task stored under the next free id n, owned by u and not completed,
      goes to the end of u's current list and leaves the completed list alone. */
  lemma CreateAppendsToCurrent(tasks: TaskMap, u: Username, n: nat, t: Task)
    requires forall id :: id in tasks ==> id < n
    requires t.owner == u && t.datecompleted.None?
    ensures CurrentTasks(tasks[n := t], u, n + 1) == CurrentTasks(tasks, u, n) + [n]
    ensures CompletedTasks(tasks[n := t], u, n + 1) == CompletedTasks(tasks, u, n)
  {
    var a := tasks[n := t];
    ListsSameStatus(a, tasks, u, n);
    assert IsCurrent(a, n, u) && !IsCompleted(a, n, u);
    assert CurrentTasks(a, u, n + 1) == CurrentTasks(a, u, n) + [n];
    assert CompletedFilter(a, u, n + 1) == CompletedFilter(a, u, n);
  }

  /** The same new task leaves the lists of every other user as they were. */
  lemma CreateLeavesOthers(tasks: TaskMap, u: Username, n: nat, t: Task, v: Username)
    requires forall id :: id in tasks ==> id < n
    requires t.owner == u && v != u
    ensures CurrentTasks(tasks[n := t], v, n + 1) == CurrentTasks(tasks, v, n)
    ensures CompletedTasks(tasks[n := t], v, n + 1) == CompletedTasks(tasks, v, n)
  {
    ListsSameStatus(tasks[n := t], tasks, v, n);
  }

  lemma CreateLeavesAllOthers(tasks: TaskMap, u: Username, n: nat, t: Task)
    requires forall id :: id in tasks ==> id < n
    requires t.owner == u
    ensures forall v :: v != u ==>
      CurrentTasks(tasks[n := t], v, n + 1) == CurrentTasks(tasks, v, n) &&
      CompletedTasks(tasks[n := t], v, n + 1) == CompletedTasks(tasks, v, n)
  {
    forall v | v != u
      ensures CurrentTasks(tasks[n := t], v, n + 1) == CurrentTasks(tasks, v, n)
      ensures CompletedTasks(tasks[n := t], v, n + 1) == CompletedTasks(tasks, v, n)
    {
      CreateLeavesOthers(tasks, u, n, t, v);
    }
  }

  /** A task owned by someone other than u is invisible to u: every lookup
      u can make and both of u's lists are the same as if it did not exist. */
  lemma ForeignTaskInvisible(tasks: TaskMap, u: Username, n: nat, id: nat)
    requires id in tasks && tasks[id].owner != u
    ensures forall j: nat :: Lookup(tasks, j, u) == Lookup(tasks - {id}, j, u)
    ensures CurrentTasks(tasks, u, n) == CurrentTasks(tasks - {id}, u, n)
    ensures CompletedTasks(tasks, u, n) == CompletedTasks(tasks - {id}, u, n)
  {
    ListsSameStatus(tasks, tasks - {id}, u, n);
  }

  /** The ownership lookup finds exactly the tasks the user's two lists show:
      what `viewtask` opens is what `currenttasks` or `completedtasks` lists. */
  lemma LookupMatchesLists(tasks: TaskMap, u: Username, n: nat)
    requires forall id :: id in tasks ==> id < n
    ensures forall id: nat :: Lookup(tasks, id, u).Some? <==>
              id in CurrentTasks(tasks, u, n) || id in CompletedTasks(tasks, u, n)
  {
    ListsPartition(tasks, u, n);
  }
}
