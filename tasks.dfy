/** The task queue of go-task.go: a FIFO of tasks drained by workers.
    The mutex is left out: every operation is one atomic step. */
module Tasks {
  import opened Wrappers

  datatype Task = Task(id: int, name: string)

  /** The result of GetTask on queue contents `q`: the head (None for Go's nil)
      and what remains. */
  function TakeHead(q: seq<Task>): (r: (Option<Task>, seq<Task>))
    ensures r.0 == None <==> q == []
    ensures r.0 == None ==> r.1 == []
    ensures r.0.Some? ==> q == [r.0.value] + r.1
  {
    if q == [] then (None, []) else (Some(q[0]), q[1..])
  }

  class TaskQueue {
    var tasks: seq<Task>

    /** `&TaskQueue{}`: the zero value holds no tasks. */
    constructor ()
      ensures tasks == []
    {
      tasks := [];
    }

    /** Appends `task` at the tail. */
    method AddTask(task: Task)
      modifies this
      ensures tasks == old(tasks) + [task]
      ensures |tasks| == |old(tasks)| + 1 && tasks[..|old(tasks)|] == old(tasks)
    {
      tasks := tasks + [task];
    }

    /** Removes and returns the head; None (nil) exactly when the queue is empty. */
    method GetTask() returns (task: Option<Task>)
      modifies this
      ensures (task, tasks) == TakeHead(old(tasks))
      ensures task == None <==> old(tasks) == []
      ensures task == None ==> tasks == []
      ensures task != None ==> task.value == old(tasks)[0] && tasks == old(tasks)[1..]
    {
      if |tasks| == 0 {
        return None;
      }
      var head := tasks[0];
      tasks := tasks[1..];
      return Some(head);
    }
  }

  /** The worker loop: take tasks until GetTask reports nil. `processed` is the
      sequence of tasks handed to processTask (itself a no-op here). Run alone,
      the worker hands over every queued task exactly once, in queue order, and
      leaves the queue empty. */
  method Worker(queue: TaskQueue) returns (processed: seq<Task>)
    modifies queue
    ensures processed == old(queue.tasks)
    ensures queue.tasks == []
  {
    processed := [];
    while true
      invariant processed + queue.tasks == old(queue.tasks)
      decreases |queue.tasks|
    {
      var task := queue.GetTask();
      if task == None {
        break;
      }
      processed := processed + [task.value];
    }
  }

  /** One step of a sequential run against the queue. */
  datatype Op = Add(task: Task) | Get

  /** Runs `ops` on queue contents `q`; yields the final contents and the tasks
      that Get steps handed out, in order. */
  function Run(q: seq<Task>, ops: seq<Op>): (seq<Task>, seq<Task>)
    decreases |ops|
  {
    if ops == [] then (q, [])
    else match ops[0]
      case Add(t) => Run(q + [t], ops[1..])
      case Get =>
        var (head, rest) := TakeHead(q);
        var (final, served) := Run(rest, ops[1..]);
        (final, (if head.Some? then [head.value] else []) + served)
  }

  /** The tasks added by `ops`, in order. */
  function Added(ops: seq<Op>): seq<Task>
    decreases |ops|
  {
    if ops == [] then []
    else (if ops[0].Add? then [ops[0].task] else []) + Added(ops[1..])
  }

  /** FIFO: what Get hands out, followed by what is left, is exactly what was
      queued followed by what Add put in. No task is lost, duplicated or
      reordered. */
  lemma {:induction false} RunIsFifo(q: seq<Task>, ops: seq<Op>)
    ensures Run(q, ops).1 + Run(q, ops).0 == q + Added(ops)
    decreases |ops|
  {
    if ops != [] {
      match ops[0]
      case Add(t) =>
        RunIsFifo(q + [t], ops[1..]);
        assert q + [t] + Added(ops[1..]) == q + Added(ops);
      case Get =>
        var (head, rest) := TakeHead(q);
        RunIsFifo(rest, ops[1..]);
        if head.Some? {
          assert q == [head.value] + rest;
          assert [head.value] + Run(rest, ops[1..]).1 + Run(rest, ops[1..]).0
              == [head.value] + (Run(rest, ops[1..]).1 + Run(rest, ops[1..]).0);
        }
    }
  }

  /** Consequence of RunIsFifo: the served tasks are a prefix of the queued-then-added tasks. */
  lemma ServedIsPrefix(q: seq<Task>, ops: seq<Op>)
    ensures Run(q, ops).1 <= q + Added(ops)
  {
    RunIsFifo(q, ops);
  }

  // Decimal rendering of `%d` for non-negative values.

  function DigitChar(d: nat): char
    requires d < 10
  {
    "0123456789"[d]
  }

  function DigitValue(c: char): nat
  {
    if '0' <= c <= '9' then (c - '0') as nat else 0
  }

  function NatToString(n: nat): (s: string)
    ensures |s| >= 1
    decreases n
  {
    if n < 10 then [DigitChar(n)] else NatToString(n / 10) + [DigitChar(n % 10)]
  }

  function ParseNat(s: string): nat
    decreases |s|
  {
    if s == [] then 0 else ParseNat(s[..|s| - 1]) * 10 + DigitValue(s[|s| - 1])
  }

  /** Reading back the decimal rendering gives the number again. */
  lemma {:induction false} ParseNatToString(n: nat)
    ensures ParseNat(NatToString(n)) == n
    decreases n
  {
    if n >= 10 {
      var s := NatToString(n / 10);
      ParseNatToString(n / 10);
      assert (s + [DigitChar(n % 10)])[..|s|] == s;
    }
  }

  /** `fmt.Sprintf("Task-%d", i)`. */
  function TaskName(i: nat): string
  {
    "Task-" + NatToString(i)
  }

  /** Distinct numbers give distinct task names. */
  lemma TaskNameInjective(a: nat, b: nat)
    ensures TaskName(a) == TaskName(b) <==> a == b
  {
    if TaskName(a) == TaskName(b) {
      assert TaskName(a)[5..] == NatToString(a);
      assert TaskName(b)[5..] == NatToString(b);
      ParseNatToString(a);
      ParseNatToString(b);
    }
  }

  /** The tasks main enqueues: IDs 1..10 in order, named Task-1 .. Task-10. */
  function MainTasks(): seq<Task>
  {
    seq(10, k requires 0 <= k => Task(k + 1, TaskName(k + 1)))
  }

  /** The ten tasks of main are pairwise distinct, by ID and by name. */
  lemma MainTasksDistinct()
    ensures forall j, k :: 0 <= j < k < 10 ==>
      MainTasks()[j].id != MainTasks()[k].id && MainTasks()[j].name != MainTasks()[k].name
  {
    forall j, k | 0 <= j < k < 10
      ensures MainTasks()[j].name != MainTasks()[k].name
    {
      TaskNameInjective(j + 1, k + 1);
    }
  }

  /** main's setup loop: enqueue Task{i, "Task-i"} for i = 1..10. */
  method PopulateQueue() returns (queue: TaskQueue)
    ensures fresh(queue)
    ensures queue.tasks == MainTasks()
    ensures |queue.tasks| == 10
    ensures forall k :: 0 <= k < 10 ==> queue.tasks[k] == Task(k + 1, TaskName(k + 1))
  {
    queue := new TaskQueue();
    var i := 1;
    while i <= 10
      invariant 1 <= i <= 11
      invariant queue.tasks == MainTasks()[..i - 1]
    {
      queue.AddTask(Task(i, TaskName(i)));
      i := i + 1;
    }
  }

  /** main with its three workers run one after another (one admissible
      schedule of the goroutines): together they process each of the ten tasks
      exactly once, in enqueue order, and leave the queue empty. */
  method ProcessAll() returns (processed: seq<Task>)
    ensures processed == MainTasks()
  {
    var queue := PopulateQueue();
    var numWorkers := 3;
    processed := [];
    var i := 0;
    while i < numWorkers
      invariant 0 <= i <= numWorkers
      invariant processed + queue.tasks == MainTasks()
      invariant i > 0 ==> queue.tasks == []
    {
      var done := Worker(queue);
      processed := processed + done;
      i := i + 1;
    }
  }
}
