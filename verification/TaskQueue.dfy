/**
 * The bounded priority queue of crates/amplihack-agent-core/src/task_queue.rs,
 * as a refinement of four FIFO queues.
 */
module TaskQueue {
  import opened Wrappers

  datatype Priority = Low | Normal | High | Critical

  /** The derived order of TaskPriority: Low < Normal < High < Critical. */
  function Rank(p: Priority): nat {
    match p
    case Low => 0
    case Normal => 1
    case High => 2
    case Critical => 3
  }

  datatype Task = Task(description: string, priority: Priority, timeoutSecs: nat, tags: seq<string>)

  // ----- the specification: four FIFO queues with a common bound -----

  datatype Fifos = Fifos(critical: seq<Task>, high: seq<Task>, normal: seq<Task>, low: seq<Task>)

  function Of(f: Fifos, p: Priority): seq<Task> {
    match p
    case Critical => f.critical
    case High => f.high
    case Normal => f.normal
    case Low => f.low
  }

  function With(f: Fifos, p: Priority, tasks: seq<Task>): Fifos {
    match p
    case Critical => f.(critical := tasks)
    case High => f.(high := tasks)
    case Normal => f.(normal := tasks)
    case Low => f.(low := tasks)
  }

  function Pending(f: Fifos): nat {
    |f.critical| + |f.high| + |f.normal| + |f.low|
  }

  /** The highest priority with a pending task. */
  function Highest(f: Fifos): Option<Priority> {
    if f.critical != [] then Some(Critical)
    else if f.high != [] then Some(High)
    else if f.normal != [] then Some(Normal)
    else if f.low != [] then Some(Low)
    else None
  }

  datatype Op = Enqueue(task: Task) | Dequeue | Drain(p: Priority) | Clear

  /** What a call gives back: whether it was accepted, and the tasks delivered. */
  datatype Answer = Answer(accepted: bool, delivered: seq<Task>)

  const EMPTY := Fifos([], [], [], [])

  function Step(f: Fifos, capacity: nat, op: Op): (Fifos, Answer) {
    match op
    case Enqueue(t) =>
      if Pending(f) >= capacity then (f, Answer(false, []))
      else (With(f, t.priority, Of(f, t.priority) + [t]), Answer(true, []))
    case Dequeue =>
      (match Highest(f)
       case None => (f, Answer(true, []))
       case Some(p) => (With(f, p, Of(f, p)[1..]), Answer(true, [Of(f, p)[0]])))
    case Drain(p) => (With(f, p, []), Answer(true, Of(f, p)))
    case Clear => (EMPTY, Answer(true, []))
  }

  /** The answers of a run, and the state it ends in. */
  function RunSpec(f: Fifos, capacity: nat, ops: seq<Op>): (Fifos, seq<Answer>) {
    if ops == [] then (f, []) else
    var (g, answers) := RunSpec(f, capacity, ops[..|ops| - 1]);
    var (h, answer) := Step(g, capacity, ops[|ops| - 1]);
    (h, answers + [answer])
  }

  // ----- the one list -----

  /** The tasks of one priority, in order. */
  function Select(items: seq<Task>, p: Priority): seq<Task> {
    if items == [] then [] else Own(items[0], p) + Select(items[1..], p)
  }

  function Abs(items: seq<Task>): Fifos {
    Fifos(Select(items, Critical), Select(items, High), Select(items, Normal), Select(items, Low))
  }

  function Concat(f: Fifos): seq<Task> {
    f.critical + f.high + f.normal + f.low
  }

  /** Priorities never rise along the list. */
  predicate Ordered(items: seq<Task>) {
    items == [] || (AllAtMost(items, Rank(items[0].priority)) && Ordered(items[1..]))
  }

  function Own(t: Task, p: Priority): seq<Task> {
    if t.priority == p then [t] else []
  }

  lemma {:induction false} SelectConcat(a: seq<Task>, b: seq<Task>, p: Priority)
    ensures Select(a + b, p) == Select(a, p) + Select(b, p)
  {
    if a == [] {
      assert a + b == b;
    } else {
      assert (a + b)[0] == a[0] && (a + b)[1..] == a[1..] + b;
      SelectConcat(a[1..], b, p);
      assert Own(a[0], p) + (Select(a[1..], p) + Select(b, p)) == (Own(a[0], p) + Select(a[1..], p)) + Select(b, p);
    }
  }

  lemma {:induction false} SelectNone(items: seq<Task>, p: Priority)
    requires forall i :: 0 <= i < |items| ==> items[i].priority != p
    ensures Select(items, p) == []
  {
    if items != [] { SelectNone(items[1..], p); }
  }

  lemma {:induction false} SelectSize(items: seq<Task>)
    ensures Pending(Abs(items)) == |items|
  {
    if items != [] { SelectSize(items[1..]); }
  }

  /** Above the first item's priority an ordered list has nothing. */
  lemma HigherEmpty(items: seq<Task>, p: Priority)
    requires Ordered(items) && items != [] && Rank(p) > Rank(items[0].priority)
    ensures Select(items, p) == []
  {
    SelectNone(items, p);
  }

  lemma HigherEmptyAll(items: seq<Task>)
    requires Ordered(items) && items != []
    ensures forall p :: Rank(p) > Rank(items[0].priority) ==> Select(items, p) == []
  {
    forall p | Rank(p) > Rank(items[0].priority) ensures Select(items, p) == [] { HigherEmpty(items, p); }
  }

  lemma ConcatFront(f: Fifos, t: Task)
    requires forall p :: Rank(p) > Rank(t.priority) ==> Of(f, p) == []
    ensures Concat(With(f, t.priority, [t] + Of(f, t.priority))) == [t] + Concat(f)
  {
    assert Rank(t.priority) < 3 ==> Of(f, Critical) == [];
    assert Rank(t.priority) < 2 ==> Of(f, High) == [];
    assert Rank(t.priority) < 1 ==> Of(f, Normal) == [];
  }

  /** An ordered list is its four FIFOs one after the other. */
  lemma {:induction false} OrderedIsConcat(items: seq<Task>)
    requires Ordered(items)
    ensures items == Concat(Abs(items))
  {
    if items != [] {
      HigherEmptyAll(items);
      OrderedIsConcat(items[1..]);
      var f := Abs(items[1..]);
      forall p | Rank(p) > Rank(items[0].priority) ensures Of(f, p) == [] {
        assert Select(items, p) == [];
      }
      ConcatFront(f, items[0]);
      assert Abs(items) == With(f, items[0].priority, [items[0]] + Of(f, items[0].priority));
    }
  }

  lemma {:induction false} OrderedSplit(items: seq<Task>, n: nat)
    requires Ordered(items) && n <= |items|
    ensures Ordered(items[..n]) && Ordered(items[n..])
  {
    if n > 0 {
      OrderedSplit(items[1..], n - 1);
      assert items[..n][1..] == items[1..][..n - 1] && items[n..] == items[1..][n - 1..];
      PrefixAtMost(items, n, Rank(items[0].priority));
    }
  }

  lemma PrefixAtMost(items: seq<Task>, n: nat, rank: nat)
    requires n <= |items| && AllAtMost(items, rank)
    ensures AllAtMost(items[..n], rank)
  {
  }

  lemma BothAtMost(a: seq<Task>, b: seq<Task>, low: nat, high: nat)
    requires AllAtMost(a, high) && AllAtMost(b, low) && low <= high
    ensures AllAtMost(a + b, high)
  {
  }

  lemma {:induction false} OrderedJoin(a: seq<Task>, b: seq<Task>, rank: nat)
    requires Ordered(a) && Ordered(b) && AllAtLeast(a, rank) && AllAtMost(b, rank)
    ensures Ordered(a + b)
  {
    if a == [] {
      assert a + b == b;
    } else {
      assert (a + b)[0] == a[0] && (a + b)[1..] == a[1..] + b;
      OrderedJoin(a[1..], b, rank);
      BothAtMost(a, b, rank, Rank(a[0].priority));
    }
  }

  function Inserted(items: seq<Task>, t: Task, pos: nat): seq<Task>
    requires pos <= |items|
  {
    items[..pos] + [t] + items[pos..]
  }

  /** pos is the place before the first item of lower priority than t. */
  predicate InsertPosition(items: seq<Task>, t: Task, pos: nat) {
    && pos <= |items| && AllAtLeast(items[..pos], Rank(t.priority))
    && (pos < |items| ==> Rank(items[pos].priority) < Rank(t.priority))
  }

  /** From the first item of lower priority on, all are of lower priority. */
  lemma LowerFrom(items: seq<Task>, t: Task, pos: nat)
    requires Ordered(items) && InsertPosition(items, t, pos) && pos < |items|
    ensures AllAtMost(items[pos..], Rank(t.priority) - 1)
  {
    OrderedSplit(items, pos);
    assert items[pos..][0] == items[pos];
  }

  lemma InsertKeepsOrder(items: seq<Task>, t: Task, pos: nat)
    requires Ordered(items) && InsertPosition(items, t, pos)
    ensures Ordered(Inserted(items, t, pos))
  {
    OrderedSplit(items, pos);
    if pos < |items| { LowerFrom(items, t, pos); }
    OrderedAround(items[..pos], t, items[pos..]);
  }

  predicate AllAtLeast(items: seq<Task>, rank: nat) {
    forall i :: 0 <= i < |items| ==> rank <= Rank(items[i].priority)
  }

  predicate AllAtMost(items: seq<Task>, rank: nat) {
    forall i :: 0 <= i < |items| ==> Rank(items[i].priority) <= rank
  }

  lemma OrderedAround(a: seq<Task>, t: Task, b: seq<Task>)
    requires Ordered(a) && Ordered(b) && AllAtLeast(a, Rank(t.priority)) && AllAtMost(b, Rank(t.priority))
    ensures Ordered(a + [t] + b)
  {
    var one: seq<Task> := [t];
    assert one[1..] == [];
    OrderedJoin(a, one, Rank(t.priority));
    OrderedJoin(a + one, b, Rank(t.priority));
  }

  lemma SelectOne(t: Task, p: Priority)
    ensures Select([t], p) == if p == t.priority then [t] else []
  {
    var one: seq<Task> := [t];
    assert one[1..] == [];
  }

  lemma InsertSelects(items: seq<Task>, t: Task, pos: nat, p: Priority)
    requires pos <= |items| && forall j :: 0 <= j < |items| - pos ==> items[pos..][j].priority != t.priority
    ensures Select(Inserted(items, t, pos), p) == Select(items, p) + Own(t, p)
  {
    var a, b := items[..pos], items[pos..];
    assert a + b == items;
    SelectConcat(a, b, p);
    SelectConcat(a + [t], b, p);
    SelectConcat(a, [t], p);
    SelectOne(t, p);
    if p == t.priority {
      SelectNone(b, p);
    } else {
      assert Select(a, p) + [] == Select(a, p);
    }
  }

  lemma OfWith(f: Fifos, p: Priority, tasks: seq<Task>, q: Priority)
    ensures Of(With(f, p, tasks), q) == if q == p then tasks else Of(f, q)
  {
  }

  lemma OfAbs(items: seq<Task>, p: Priority)
    ensures Of(Abs(items), p) == Select(items, p)
  {
  }

  lemma SameFifos(f: Fifos, g: Fifos)
    requires forall p :: Of(f, p) == Of(g, p)
    ensures f == g
  {
    assert Of(f, Critical) == Of(g, Critical) && Of(f, High) == Of(g, High);
    assert Of(f, Normal) == Of(g, Normal) && Of(f, Low) == Of(g, Low);
  }

  /** Inserting a task before the first one of lower priority appends it to its FIFO. */
  lemma {:induction false} InsertAppends(items: seq<Task>, t: Task, pos: nat)
    requires Ordered(items) && InsertPosition(items, t, pos)
    ensures Ordered(Inserted(items, t, pos))
    ensures Abs(Inserted(items, t, pos)) == With(Abs(items), t.priority, Of(Abs(items), t.priority) + [t])
  {
    var f, g := Abs(Inserted(items, t, pos)), With(Abs(items), t.priority, Of(Abs(items), t.priority) + [t]);
    InsertKeepsOrder(items, t, pos);
    if pos < |items| { LowerFrom(items, t, pos); }
    forall p ensures Of(f, p) == Of(g, p) {
      InsertSelects(items, t, pos, p);
      OfAbs(Inserted(items, t, pos), p);
      OfAbs(items, p);
      OfWith(Abs(items), t.priority, Of(Abs(items), t.priority) + [t], p);
    }
    SameFifos(f, g);
  }

  lemma SelectNext(items: seq<Task>, i: nat, p: Priority)
    requires i < |items|
    ensures Select(items[..i + 1], p) == Select(items[..i], p) + if items[i].priority == p then [items[i]] else []
  {
    assert items[..i + 1] == items[..i] + [items[i]];
    SelectConcat(items[..i], [items[i]], p);
    SelectOne(items[i], p);
  }

  lemma HighestIs(f: Fifos, p: Priority)
    requires Of(f, p) != [] && forall q :: Rank(q) > Rank(p) ==> Of(f, q) == []
    ensures Highest(f) == Some(p)
  {
    assert Rank(p) < 3 ==> Of(f, Critical) == [];
    assert Rank(p) < 2 ==> Of(f, High) == [];
    assert Rank(p) < 1 ==> Of(f, Normal) == [];
  }

  /** The first item is the oldest task of the highest pending priority. */
  lemma {:induction false} FrontIsHighest(items: seq<Task>)
    requires Ordered(items) && items != []
    ensures Highest(Abs(items)) == Some(items[0].priority)
    ensures Of(Abs(items), items[0].priority) == [items[0]] + Select(items[1..], items[0].priority)
    ensures Abs(items[1..]) == With(Abs(items), items[0].priority, Of(Abs(items), items[0].priority)[1..])
  {
    var p, f := items[0].priority, Abs(items);
    HigherEmptyAll(items);
    forall q ensures Of(f, q) == Select(items, q) { OfAbs(items, q); }
    assert Of(f, p) == [items[0]] + Select(items[1..], p);
    HighestIs(f, p);
    forall q ensures Of(Abs(items[1..]), q) == Of(With(f, p, Of(f, p)[1..]), q) {
      OfAbs(items[1..], q);
      OfWith(f, p, Of(f, p)[1..], q);
    }
    SameFifos(Abs(items[1..]), With(f, p, Of(f, p)[1..]));
  }

  /** The tasks of the other priorities, in order. */
  function Reject(items: seq<Task>, p: Priority): (r: seq<Task>)
    ensures |r| <= |items| && forall t :: t in r ==> t in items
  {
    if items == [] then []
    else if items[0].priority == p then Reject(items[1..], p)
    else [items[0]] + Reject(items[1..], p)
  }

  lemma {:induction false} RejectConcat(a: seq<Task>, b: seq<Task>, p: Priority)
    ensures Reject(a + b, p) == Reject(a, p) + Reject(b, p)
  {
    if a == [] {
      assert a + b == b;
    } else {
      assert (a + b)[0] == a[0] && (a + b)[1..] == a[1..] + b;
      RejectConcat(a[1..], b, p);
      assert [a[0]] + (Reject(a[1..], p) + Reject(b, p)) == ([a[0]] + Reject(a[1..], p)) + Reject(b, p);
    }
  }

  lemma RejectNext(items: seq<Task>, i: nat, p: Priority)
    requires i < |items|
    ensures Reject(items[..i + 1], p) == Reject(items[..i], p) + if items[i].priority == p then [] else [items[i]]
  {
    var one: seq<Task> := [items[i]];
    assert items[..i + 1] == items[..i] + one;
    assert Reject(one, p) == if items[i].priority == p then [] else one by { assert one[1..] == []; }
    RejectConcat(items[..i], one, p);
  }

  lemma {:induction false} RejectKeepsOrder(items: seq<Task>, p: Priority)
    requires Ordered(items)
    ensures Ordered(Reject(items, p))
  {
    if items != [] {
      RejectKeepsOrder(items[1..], p);
      var rest := Reject(items[1..], p);
      forall i | 0 <= i < |rest| ensures Rank(rest[i].priority) <= Rank(items[0].priority) {
        assert rest[i] in items[1..];
      }
      if items[0].priority != p { assert Reject(items, p)[1..] == rest; }
    }
  }

  lemma {:induction false} RejectSelects(items: seq<Task>, p: Priority, q: Priority)
    ensures Select(Reject(items, p), q) == if q == p then [] else Select(items, q)
  {
    if items != [] {
      RejectSelects(items[1..], p, q);
      if items[0].priority != p { assert Reject(items, p)[1..] == Reject(items[1..], p); }
    }
  }

  /** Rejecting a priority empties its FIFO and leaves the others unchanged. */
  lemma {:induction false} RejectDrains(items: seq<Task>, p: Priority)
    ensures Abs(Reject(items, p)) == With(Abs(items), p, [])
  {
    var f, g := Abs(Reject(items, p)), With(Abs(items), p, []);
    forall q ensures Of(f, q) == Of(g, q) {
      RejectSelects(items, p, q);
      OfAbs(Reject(items, p), q);
      OfAbs(items, q);
      OfWith(Abs(items), p, [], q);
    }
    SameFifos(f, g);
  }

  /** The first i items, divided into those of one priority and the others. */
  ghost predicate Divided(items: seq<Task>, i: nat, p: Priority, own: seq<Task>, others: seq<Task>) {
    i <= |items| && own == Select(items[..i], p) && others == Reject(items[..i], p)
  }

  lemma DivideNext(items: seq<Task>, i: nat, p: Priority, own: seq<Task>, others: seq<Task>)
    requires i < |items| && Divided(items, i, p, own, others)
    ensures items[i].priority == p ==> Divided(items, i + 1, p, own + [items[i]], others)
    ensures items[i].priority != p ==> Divided(items, i + 1, p, own, others + [items[i]])
  {
    SelectNext(items, i, p);
    RejectNext(items, i, p);
  }

  lemma DivideAll(items: seq<Task>, p: Priority, own: seq<Task>, others: seq<Task>, capacity: nat)
    requires Ordered(items) && Divided(items, |items|, p, own, others)
    ensures Ordered(others) && |others| <= |items|
    ensures (Abs(others), Answer(true, own)) == Step(Abs(items), capacity, Drain(p))
  {
    assert items[..|items|] == items;
    RejectKeepsOrder(items, p);
    RejectDrains(items, p);
    OfAbs(items, p);
  }

  // ----- the queue -----

  class Queue {
    var items: seq<Task>
    const capacity: nat

    ghost predicate Valid()
      reads this
    {
      Ordered(items) && |items| <= capacity && capacity >= 1
    }

    constructor (capacity: nat)
      ensures Valid() && Abs(items) == EMPTY && this.capacity == if capacity < 1 then 1 else capacity
    {
      items := [];
      this.capacity := if capacity < 1 then 1 else capacity;
    }

    method Add(task: Task) returns (accepted: bool)
      requires Valid()
      modifies this`items
      ensures Valid()
      ensures (Abs(items), Answer(accepted, [])) == Step(Abs(old(items)), capacity, Enqueue(task))
    {
      SelectSize(items);
      if |items| >= capacity {
        return false;
      }
      var pos := 0;
      while pos < |items| && Rank(items[pos].priority) >= Rank(task.priority)
        invariant pos <= |items| && AllAtLeast(items[..pos], Rank(task.priority))
      {
        assert items[..pos + 1] == items[..pos] + [items[pos]];
        pos := pos + 1;
      }
      InsertAppends(items, task, pos);
      items := items[..pos] + [task] + items[pos..];
      return true;
    }

    method Take() returns (task: Option<Task>)
      requires Valid()
      modifies this`items
      ensures Valid()
      ensures var delivered := if task.Some? then [task.value] else [];
        (Abs(items), Answer(true, delivered)) == Step(Abs(old(items)), capacity, Dequeue)
    {
      if items == [] {
        return None;
      }
      FrontIsHighest(items);
      task := Some(items[0]);
      items := items[1..];
    }

    method DrainPriority(priority: Priority) returns (drained: seq<Task>)
      requires Valid()
      modifies this`items
      ensures Valid()
      ensures (Abs(items), Answer(true, drained)) == Step(Abs(old(items)), capacity, Drain(priority))
    {
      drained := [];
      var remaining := [];
      for i := 0 to |items|
        invariant items == old(items)
        invariant Divided(items, i, priority, drained, remaining)
      {
        DivideNext(items, i, priority, drained, remaining);
        if items[i].priority == priority {
          drained := drained + [items[i]];
        } else {
          remaining := remaining + [items[i]];
        }
      }
      DivideAll(items, priority, drained, remaining, capacity);
      items := remaining;
    }

    method RemoveAll()
      requires Valid()
      modifies this`items
      ensures Valid() && items == []
      ensures Abs(items) == Step(Abs(old(items)), capacity, Clear).0
    {
      items := [];
    }
  }

  /**
   * Any run of calls on a new queue answers as the four FIFOs do, ends with the
   * FIFOs' tasks in the order critical, high, normal, low, and stays in bounds.
   */
  method Run(capacity: nat, ops: seq<Op>) returns (q: Queue, answers: seq<Answer>)
    ensures fresh(q) && q.Valid() && q.capacity == (if capacity < 1 then 1 else capacity)
    ensures (Abs(q.items), answers) == RunSpec(EMPTY, q.capacity, ops)
    ensures q.items == Concat(RunSpec(EMPTY, q.capacity, ops).0) && |q.items| <= q.capacity
  {
    q := new Queue(capacity);
    answers := [];
    for i := 0 to |ops|
      invariant fresh(q) && q.Valid() && q.capacity == (if capacity < 1 then 1 else capacity)
      invariant (Abs(q.items), answers) == RunSpec(EMPTY, q.capacity, ops[..i])
    {
      assert ops[..i + 1][..i] == ops[..i];
      match ops[i]
      case Enqueue(t) =>
        var accepted := q.Add(t);
        answers := answers + [Answer(accepted, [])];
      case Dequeue =>
        var task := q.Take();
        answers := answers + [Answer(true, if task.Some? then [task.value] else [])];
      case Drain(p) =>
        var drained := q.DrainPriority(p);
        answers := answers + [Answer(true, drained)];
      case Clear =>
        q.RemoveAll();
        answers := answers + [Answer(true, [])];
    }
    assert ops[..|ops|] == ops;
    OrderedIsConcat(q.items);
  }

  // ----- conservation -----

  /** How often a task occurs in a list. */
  function Count(tasks: seq<Task>, x: Task): nat {
    multiset(tasks)[x]
  }

  function PendingCount(f: Fifos, x: Task): nat {
    Count(f.critical, x) + Count(f.high, x) + Count(f.normal, x) + Count(f.low, x)
  }

  /** How often a task was accepted over a run. */
  function AcceptedCount(ops: seq<Op>, answers: seq<Answer>, x: Task): nat
    requires |ops| == |answers|
  {
    if ops == [] then 0 else
    var n := |ops| - 1;
    AcceptedCount(ops[..n], answers[..n], x) + if ops[n] == Enqueue(x) && answers[n].accepted then 1 else 0
  }

  /** How often a task was handed out over a run. */
  function DeliveredCount(answers: seq<Answer>, x: Task): nat {
    if answers == [] then 0 else
    DeliveredCount(answers[..|answers| - 1], x) + Count(answers[|answers| - 1].delivered, x)
  }

  predicate ClearFree(ops: seq<Op>) {
    forall i :: 0 <= i < |ops| ==> !ops[i].Clear?
  }

  lemma WithCount(f: Fifos, p: Priority, tasks: seq<Task>, x: Task)
    ensures PendingCount(With(f, p, tasks), x) + Count(Of(f, p), x) == PendingCount(f, x) + Count(tasks, x)
  {
  }

  lemma StepConserves(f: Fifos, capacity: nat, op: Op, x: Task)
    requires !op.Clear?
    ensures var (g, a) := Step(f, capacity, op);
      PendingCount(g, x) + Count(a.delivered, x) == PendingCount(f, x) + if op == Enqueue(x) && a.accepted then 1 else 0
  {
    match op
    case Enqueue(t) => WithCount(f, t.priority, Of(f, t.priority) + [t], x);
    case Dequeue =>
      if Highest(f).Some? {
        var p := Highest(f).value;
        var s := Of(f, p);
        assert s == [s[0]] + s[1..];
        WithCount(f, p, s[1..], x);
      }
    case Drain(p) => WithCount(f, p, [], x);
  }

  /** Every accepted task is pending or was handed out, exactly once, unless the queue was cleared. */
  lemma {:induction false} TasksConserved(capacity: nat, ops: seq<Op>, x: Task)
    requires ClearFree(ops)
    ensures var (f, answers) := RunSpec(EMPTY, capacity, ops);
      |answers| == |ops| && AcceptedCount(ops, answers, x) == DeliveredCount(answers, x) + PendingCount(f, x)
  {
    if ops != [] {
      var n := |ops| - 1;
      TasksConserved(capacity, ops[..n], x);
      var (f, answers) := RunSpec(EMPTY, capacity, ops[..n]);
      var (g, answer) := Step(f, capacity, ops[n]);
      StepConserves(f, capacity, ops[n], x);
      AcceptedNext(ops, answers, answer, x);
      DeliveredNext(answers, answer, x);
    }
  }

  lemma AcceptedNext(ops: seq<Op>, answers: seq<Answer>, answer: Answer, x: Task)
    requires |ops| == |answers| + 1
    ensures AcceptedCount(ops, answers + [answer], x)
            == AcceptedCount(ops[..|answers|], answers, x)
               + if ops[|answers|] == Enqueue(x) && answer.accepted then 1 else 0
  {
    assert (answers + [answer])[..|answers|] == answers;
  }

  lemma DeliveredNext(answers: seq<Answer>, answer: Answer, x: Task)
    ensures DeliveredCount(answers + [answer], x) == DeliveredCount(answers, x) + Count(answer.delivered, x)
  {
    assert (answers + [answer])[..|answers|] == answers;
  }

  ghost predicate Filed(f: Fifos) {
    forall p, t :: t in Of(f, p) ==> t.priority == p
  }

  lemma StepKeepsFiled(f: Fifos, capacity: nat, op: Op)
    requires Filed(f) && Pending(f) <= capacity
    ensures Filed(Step(f, capacity, op).0) && Pending(Step(f, capacity, op).0) <= capacity
  {
    match op
    case Enqueue(t) => WithFiled(f, t.priority, Of(f, t.priority) + [t]);
    case Dequeue => if Highest(f).Some? { WithFiled(f, Highest(f).value, Of(f, Highest(f).value)[1..]); }
    case Drain(p) => WithFiled(f, p, []);
    case Clear =>
  }

  lemma WithFiled(f: Fifos, p: Priority, tasks: seq<Task>)
    requires Filed(f) && forall t :: t in tasks ==> t.priority == p
    ensures Filed(With(f, p, tasks)) && Pending(With(f, p, tasks)) + |Of(f, p)| == Pending(f) + |tasks|
  {
    assert forall q :: q != p ==> Of(With(f, p, tasks), q) == Of(f, q);
  }

  /** No run of the FIFOs exceeds the bound or files a task under the wrong priority. */
  lemma {:induction false} RunBounded(capacity: nat, ops: seq<Op>)
    ensures Pending(RunSpec(EMPTY, capacity, ops).0) <= capacity && Filed(RunSpec(EMPTY, capacity, ops).0)
  {
    if ops != [] {
      RunBounded(capacity, ops[..|ops| - 1]);
      StepKeepsFiled(RunSpec(EMPTY, capacity, ops[..|ops| - 1]).0, capacity, ops[|ops| - 1]);
    }
  }
}
