/** The linked list of tasks and the pointers into it. */
module TaskList {
  import opened Bits
  import opened Registers

  class Process {
    const id: nat
    const ptr: u32
    const size: u32
    const stack: u32
    var task: Task?

    constructor (id: nat, ptr: u32, size: u32, stack: u32)
      ensures this.id == id && this.ptr == ptr && this.size == size && this.stack == stack && task == null
    {
      this.id := id;
      this.ptr := ptr;
      this.size := size;
      this.stack := stack;
      task := null;
    }
  }

  class Task {
    const process: Process
    var pageDirectory: u32
    var registers: Registers
    var next: Task?
    var prev: Task?

    constructor (process: Process, pageDirectory: u32, registers: Registers)
      ensures this.process == process && this.pageDirectory == pageDirectory && this.registers == registers
      ensures next == null && prev == null
    {
      this.process := process;
      this.pageDirectory := pageDirectory;
      this.registers := registers;
      next := null;
      prev := null;
    }

    /** `task_save_state`: copies the words of an interrupt frame into the
        fields of the same names. */
    method SaveState(frame: seq<u32>)
      requires |frame| >= 13
      modifies this`registers
      ensures forall r: Registers, k: u32, trap: Trap :: frame == Stack(r, k, trap) ==> registers == SavedAfter(r, trap)
    {
      registers := registers.(ip := frame[8]);
      registers := registers.(cs := frame[9]);
      registers := registers.(flags := frame[10]);
      registers := registers.(esp := frame[11]);
      registers := registers.(ss := frame[12]);
      registers := registers.(eax := frame[7]);
      registers := registers.(ebp := frame[2]);
      registers := registers.(ebx := frame[4]);
      registers := registers.(ecx := frame[6]);
      registers := registers.(edi := frame[0]);
      registers := registers.(edx := frame[5]);
      registers := registers.(esi := frame[1]);
    }
  }

  ghost predicate Distinct(tasks: seq<Task>) {
    forall i: nat, j: nat {:trigger Differ(tasks, i, j)} | i < j < |tasks| :: Differ(tasks, i, j)
  }

  ghost predicate Differ(tasks: seq<Task>, i: nat, j: nat)
    requires i < j < |tasks|
  {
    tasks[i] != tasks[j]
  }

  /** `next` of position `i` is the task after it. */
  ghost predicate NextOk(tasks: seq<Task>, i: nat)
    requires i < |tasks|
    reads tasks[i]
  {
    tasks[i].next == if i + 1 < |tasks| then tasks[i + 1] else null
  }

  /** `prev` of position `i` is the task before it. */
  ghost predicate PrevOk(tasks: seq<Task>, i: nat)
    requires i < |tasks|
    reads tasks[i]
  {
    tasks[i].prev == if i > 0 then tasks[i - 1] else null
  }

  /** The sequence without its k-th element. */
  function Without<T>(s: seq<T>, k: nat): seq<T>
    requires k < |s|
  {
    s[..k] + s[k + 1..]
  }

  class TaskList {
    var taskHead: Task?
    var taskTail: Task?
    var currentTask: Task?
    ghost var tasks: seq<Task>
    ghost var index: nat

    constructor ()
      ensures Valid() && tasks == [] && index == 0
    {
      taskHead, taskTail, currentTask := null, null, null;
      tasks, index := [], 0;
    }

    /** Following `next` from the head visits the tasks in order, each once,
        ends at the tail, and the current task is one of them. */
    ghost predicate Forward()
      reads this, tasks
    {
      && Distinct(tasks)
      && (forall i: nat {:trigger NextOk(tasks, i)} | i < |tasks| :: NextOk(tasks, i))
      && taskHead == (if |tasks| > 0 then tasks[0] else null)
      && taskTail == (if |tasks| > 0 then tasks[|tasks| - 1] else null)
      && (if |tasks| > 0 then index < |tasks| && currentTask == tasks[index] else index == 0 && currentTask == null)
    }

    /** In addition `prev` inverts `next`. */
    ghost predicate Valid()
      reads this, tasks
    {
      Forward() && forall i: nat {:trigger PrevOk(tasks, i)} | i < |tasks| :: PrevOk(tasks, i)
    }

    /** The part of `task_new` that links an initialised task in. */
    method Append(task: Task)
      requires Valid() && task !in tasks && task.next == null && task.prev == null
      modifies this, task`prev, if |tasks| > 0 then {tasks[|tasks| - 1]} else {}
      ensures Valid() && tasks == old(tasks) + [task] && index == old(index)
      ensures forall t | t in tasks :: t.registers == old(t.registers) && t.pageDirectory == old(t.pageDirectory)
    {
      if taskHead == null {
        taskHead := task;
        taskTail := task;
        currentTask := task;
        tasks := [task];
        return;
      }
      ghost var before := tasks;
      taskTail.next := task;
      task.prev := taskTail;
      taskTail := task;
      tasks := tasks + [task];
      Snoc(before, task);
    }

    twostate lemma Snoc(before: seq<Task>, new task: Task)
      requires before == old(tasks) && old(Valid()) && |before| > 0 && task !in before
      requires tasks == before + [task]
      requires before[|before| - 1].next == task && task.next == null
      requires task.prev == before[|before| - 1]
      requires forall t | t in before :: t.prev == old(t.prev)
      requires forall t | t in before && t != before[|before| - 1] :: t.next == old(t.next)
      ensures Distinct(tasks)
      ensures forall i: nat {:trigger NextOk(tasks, i)} | i < |tasks| :: NextOk(tasks, i)
      ensures forall i: nat {:trigger PrevOk(tasks, i)} | i < |tasks| :: PrevOk(tasks, i)
    {
      forall i: nat, j: nat | i < j < |tasks|
        ensures Differ(tasks, i, j)
      {
        assert j < |before| ==> Differ(before, i, j);
      }
      forall i: nat | i < |tasks|
        ensures NextOk(tasks, i)
      {
        assert i + 1 < |before| ==> old(NextOk(before, i)) && Differ(before, i, |before| - 1);
      }
      forall i: nat | i < |tasks|
        ensures PrevOk(tasks, i)
      {
        assert i < |before| ==> old(PrevOk(before, i));
      }
    }

    /** `task_get_next`: round robin. */
    method GetNext() returns (task: Task?)
      requires Forward() && currentTask != null
      ensures task == tasks[if index + 1 < |tasks| then index + 1 else 0]
    {
      assert NextOk(tasks, index);
      if currentTask.next == null {
        return taskHead;
      }
      return currentTask.next;
    }

    /** The first half of `task_list_remove`: relink around the task. */
    method Unlink(task: Task, ghost k: nat)
      requires Valid() && k < |tasks| && tasks[k] == task
      modifies this`taskHead, this`taskTail, this`tasks, tasks
      ensures tasks == Without(old(tasks), k) && Distinct(tasks)
      ensures forall i: nat {:trigger NextOk(tasks, i)} | i < |tasks| :: NextOk(tasks, i)
      ensures forall i: nat {:trigger PrevOk(tasks, i)} | i < |tasks| && i != k :: PrevOk(tasks, i)
      ensures k < |tasks| ==> tasks[k].prev == task
      ensures taskHead == (if |tasks| > 0 then tasks[0] else null)
      ensures taskTail == (if |tasks| > 0 then tasks[|tasks| - 1] else null)
      ensures task.next == old(task.next)
      ensures forall t | t in old(tasks) :: t.registers == old(t.registers) && t.pageDirectory == old(t.pageDirectory)
    {
      ghost var before := tasks;
      OnlyAt(before, k);
      assert NextOk(before, k) && PrevOk(before, k);
      if task.prev != null {
        OnlyAt(before, k - 1);
        task.prev.next := task.next;
      }
      if task == taskHead {
        taskHead := task.next;
      }
      if task == taskTail {
        taskTail := task.prev;
      }
      tasks := Without(tasks, k);
      WithoutDistinct(before, k);
      forall i: nat | i < |tasks|
        ensures NextOk(tasks, i)
      {
        assert old(NextOk(before, if i < k then i else i + 1));
      }
      forall i: nat | i < |tasks| && i != k
        ensures PrevOk(tasks, i)
      {
        assert old(PrevOk(before, if i < k then i else i + 1));
      }
      assert k < |tasks| ==> old(PrevOk(before, k + 1));
    }

    /** `task_list_remove`. The list without the task is intact in the forward
        direction; its successor, if any, still points back to the removed
        task, so the list is intact in both directions exactly when the last
        task was removed. The turn passes from the removed task to the one
        after it, or to the head. */
    method Remove(task: Task, ghost k: nat)
      requires Valid() && k < |tasks| && tasks[k] == task
      modifies this, tasks
      ensures tasks == Without(old(tasks), k) && Forward()
      ensures index == if k < old(index) then old(index) - 1
                       else if old(index) == k && k + 1 == |old(tasks)| then 0 else old(index)
      ensures k < |tasks| ==> tasks[k].prev == task
      ensures forall i: nat {:trigger PrevOk(tasks, i)} | i < |tasks| && i != k :: PrevOk(tasks, i)
      ensures Valid() <==> k + 1 == |old(tasks)|
      ensures forall t | t in old(tasks) :: t.registers == old(t.registers) && t.pageDirectory == old(t.pageDirectory)
    {
      ghost var before := tasks;
      OnlyAt(before, k);
      assert NextOk(before, k);
      Unlink(task, k);
      if task == currentTask {
        if currentTask.next == null {
          currentTask := taskHead;
        } else {
          currentTask := currentTask.next;
        }
      }
      index := if k < index then index - 1 else if index == k && k + 1 == |before| then 0 else index;
      if k < |tasks| {
        assert tasks[k] == before[k + 1];
        assert k > 0 ==> Differ(before, k - 1, k);
        assert !PrevOk(tasks, k);
      }
    }

    /** The shape of the list does not depend on the tasks' registers. */
    twostate lemma SameLinks()
      requires old(Valid()) && unchanged(this)
      requires forall t | t in tasks :: t.next == old(t.next) && t.prev == old(t.prev)
      ensures Valid()
    {
      forall i: nat | i < |tasks|
        ensures NextOk(tasks, i) && PrevOk(tasks, i)
      {
        assert old(NextOk(tasks, i)) && old(PrevOk(tasks, i));
      }
    }

    /** A task occurs once in the list. */
    lemma OnlyAt(before: seq<Task>, k: nat)
      requires Distinct(before) && k < |before|
      ensures forall i: nat | i < |before| :: before[i] == before[k] <==> i == k
    {
      forall i: nat | i < |before|
        ensures before[i] == before[k] <==> i == k
      {
        assert i < k ==> Differ(before, i, k);
        assert k < i ==> Differ(before, k, i);
      }
    }

    lemma WithoutDistinct(before: seq<Task>, k: nat)
      requires Distinct(before) && k < |before|
      ensures Distinct(Without(before, k))
    {
      var after := Without(before, k);
      forall i: nat, j: nat | i < j < |after|
        ensures Differ(after, i, j)
      {
        assert Differ(before, if i < k then i else i + 1, if j < k then j else j + 1);
      }
    }

    /** `task_switch`, the part that concerns the list. */
    method SetCurrent(task: Task, ghost k: nat)
      requires Valid() && k < |tasks| && tasks[k] == task
      modifies this`currentTask, this`index
      ensures Valid() && index == k && tasks == old(tasks) && currentTask == task
    {
      currentTask := task;
      index := k;
    }
  }
}
