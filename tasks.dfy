/** The task framework: AbstractTask (a name, a priority and the acceptors that decide
    which packets the task edits) and TaskListWindow's list of chosen tasks, replaced by
    name. The `@Task` annotation read by reflection is passed to the constructor. */
module Tasks {
  import opened Base
  import opened Protocols
  import opened Registry
  import Packets

  /** The `@Task(value, priority)` annotation of a task class. */
  datatype TaskAnnotation = TaskAnnotation(value: string, priority: Int32)

  class AbstractTask {
    const taskName: string
    const priority: Int32
    /** The acceptors the task registers with `acceptPacket`, in the order of the
        calls. Tasks register them only while they are being built, so the list is
        given to the constructor and never changes. */
    const acceptors: seq<PacketAcceptor>

    /** Without an annotation the name is the class's simple name and the priority 0;
        with one, both come from the annotation. Both are final. */
    constructor (annotation: Option<TaskAnnotation>, simpleName: string, acceptors: seq<PacketAcceptor>)
      ensures annotation.None? ==> taskName == simpleName && priority == 0
      ensures annotation.Some? ==> taskName == annotation.value.value && priority == annotation.value.priority
      ensures this.acceptors == acceptors
    {
      if annotation.None? {
        taskName := simpleName;
        priority := 0;
      } else {
        taskName := annotation.value.value;
        priority := annotation.value.priority;
      }
      this.acceptors := acceptors;
    }

    /** accept: the acceptors are asked in order and the first that accepts ends the
        search; an exception from an acceptor ends it too. */
    method Accept(registry: seq<Protocol>, packet: Packets.Packet) returns (r: Result<bool>)
      ensures r == AcceptsAny(registry, acceptors, packet)
    {
      ghost var answers := Answers(registry, acceptors, packet);
      var i := 0;
      while i < |acceptors|
        invariant 0 <= i <= |acceptors|
        invariant Decide(answers, 0) == Decide(answers, i)
      {
        var accepted :- acceptors[i].Accept(registry, packet);
        if accepted {
          return Ok(true);
        }
        i := i + 1;
      }
      return Ok(false);
    }
  }

  /** The answer of every acceptor, in order. */
  function Answers(registry: seq<Protocol>, acceptors: seq<PacketAcceptor>, packet: Packets.Packet): (r: seq<Result<bool>>)
    ensures |r| == |acceptors|
  {
    seq(|acceptors|, i requires 0 <= i < |acceptors| => acceptors[i].Accept(registry, packet))
  }

  /** The answer of a list of acceptors, asked in order. */
  function AcceptsAny(registry: seq<Protocol>, acceptors: seq<PacketAcceptor>, packet: Packets.Packet): Result<bool>
  {
    Decide(Answers(registry, acceptors, packet), 0)
  }

  /** The loop of `accept` from position `k` on: the first answer that is not a refusal
      is the result. */
  function Decide(answers: seq<Result<bool>>, k: nat): Result<bool>
    requires k <= |answers|
    decreases |answers| - k
  {
    if k == |answers| then Ok(false)
    else
      match answers[k]
      case Err(e) => Err(e)
      case Ok(b) => if b then Ok(true) else Decide(answers, k + 1)
  }

  /** Every answer before position `i` is a refusal. */
  predicate DeclinedBefore(answers: seq<Result<bool>>, i: nat)
    requires i <= |answers|
  {
    forall j :: 0 <= j < i ==> answers[j] == Ok(false)
  }

  /** accept holds exactly when some acceptor accepts and every one before it
      declines. */
  lemma DecideTrue(answers: seq<Result<bool>>)
    ensures Decide(answers, 0) == Ok(true) <==>
              exists i :: 0 <= i < |answers| && answers[i] == Ok(true) && DeclinedBefore(answers, i)
  {
    if Decide(answers, 0) == Ok(true) {
      var i := TrueFrom(answers, 0);
    }
    if exists i :: 0 <= i < |answers| && answers[i] == Ok(true) && DeclinedBefore(answers, i) {
      var i :| 0 <= i < |answers| && answers[i] == Ok(true) && DeclinedBefore(answers, i);
      FromTrue(answers, 0, i);
    }
  }

  /** An accepting answer names the acceptor that gave it. */
  lemma {:induction false} TrueFrom(answers: seq<Result<bool>>, k: nat) returns (i: nat)
    requires k <= |answers| && DeclinedBefore(answers, k) && Decide(answers, k) == Ok(true)
    ensures k <= i < |answers| && answers[i] == Ok(true) && DeclinedBefore(answers, i)
    decreases |answers| - k
  {
    if answers[k] == Ok(true) {
      i := k;
    } else {
      i := TrueFrom(answers, k + 1);
    }
  }

  /** The first accepting acceptor decides the answer. */
  lemma {:induction false} FromTrue(answers: seq<Result<bool>>, k: nat, i: nat)
    requires k <= i < |answers| && answers[i] == Ok(true) && DeclinedBefore(answers, i)
    ensures Decide(answers, k) == Ok(true)
    decreases i - k
  {
    if k < i {
      FromTrue(answers, k + 1, i);
    }
  }

  /** accept is false exactly when every acceptor declines; so a task with no
      acceptors accepts nothing. */
  lemma DecideFalse(answers: seq<Result<bool>>)
    ensures Decide(answers, 0) == Ok(false) <==> DeclinedBefore(answers, |answers|)
    ensures answers == [] ==> Decide(answers, 0) == Ok(false)
  {
    FalseFrom(answers, 0);
  }

  lemma {:induction false} FalseFrom(answers: seq<Result<bool>>, k: nat)
    requires k <= |answers| && DeclinedBefore(answers, k)
    ensures Decide(answers, k) == Ok(false) <==> DeclinedBefore(answers, |answers|)
    decreases |answers| - k
  {
    if k < |answers| && answers[k] == Ok(false) {
      FalseFrom(answers, k + 1);
    }
  }

  /** An exception comes from the first acceptor that does not answer. */
  lemma DecideErr(answers: seq<Result<bool>>)
    ensures Decide(answers, 0).Err? ==>
              exists i :: 0 <= i < |answers| && answers[i] == Err(Decide(answers, 0).error) && DeclinedBefore(answers, i)
  {
    if Decide(answers, 0).Err? {
      var i := ErrFrom(answers, 0);
    }
  }

  lemma {:induction false} ErrFrom(answers: seq<Result<bool>>, k: nat) returns (i: nat)
    requires k <= |answers| && DeclinedBefore(answers, k) && Decide(answers, k).Err?
    ensures k <= i < |answers| && answers[i] == Err(Decide(answers, k).error) && DeclinedBefore(answers, i)
    decreases |answers| - k
  {
    if answers[k].Err? {
      i := k;
    } else {
      i := ErrFrom(answers, k + 1);
    }
  }

  /** acceptPacket keeps the earlier acceptors first: the new one is asked only when
      all of them decline. */
  lemma AcceptsAnyAppend(registry: seq<Protocol>, acceptors: seq<PacketAcceptor>,
                         a: PacketAcceptor, packet: Packets.Packet)
    ensures AcceptsAny(registry, acceptors + [a], packet) ==
              if AcceptsAny(registry, acceptors, packet) == Ok(false) then a.Accept(registry, packet)
              else AcceptsAny(registry, acceptors, packet)
  {
    var before := Answers(registry, acceptors, packet);
    var after := Answers(registry, acceptors + [a], packet);
    assert after == before + [a.Accept(registry, packet)];
    DecideAppend(before, a.Accept(registry, packet), 0);
  }

  lemma {:induction false} DecideAppend(answers: seq<Result<bool>>, last: Result<bool>, k: nat)
    requires k <= |answers|
    ensures Decide(answers + [last], k) == if Decide(answers, k) == Ok(false) then last else Decide(answers, k)
    decreases |answers| - k
  {
    var longer := answers + [last];
    if k == |answers| {
      assert longer[k] == last;
    } else {
      assert longer[k] == answers[k];
      DecideAppend(answers, last, k + 1);
    }
  }

  // ---------------------------------------------------------------- the packet queue

  /** The `Queue<Packet>` (a LinkedList) shared by the executor and the tasks: packets
      are added at the tail and polled from the head. */
  class PacketQueue {
    var items: seq<Packets.Packet>

    constructor ()
      ensures items == []
    {
      items := [];
    }

    method Add(p: Packets.Packet)
      modifies this
      ensures items == old(items) + [p]
    {
      items := items + [p];
    }

    /** poll: the head, removed; null when the queue is empty. */
    method Poll() returns (p: Packets.Packet?)
      modifies this
      ensures old(items) == [] ==> p == null && items == []
      ensures old(items) != [] ==> p == old(items)[0] && items == old(items)[1..]
    {
      if items == [] {
        return null;
      }
      p := items[0];
      items := items[1..];
    }

    predicate IsEmpty()
      reads this
    {
      items == []
    }
  }

  // ---------------------------------------------------------------- TaskListWindow

  /** The names of the tasks, in list order. */
  function Names(tasks: seq<AbstractTask>): (r: seq<string>)
    ensures |r| == |tasks|
  {
    seq(|tasks|, i requires 0 <= i < |tasks| => tasks[i].taskName)
  }

  /** `removeIf(t -> t.getTaskName().equals(name))`: the tasks with another name, in
      their order. */
  function WithoutName(tasks: seq<AbstractTask>, name: string): seq<AbstractTask> {
    if tasks == [] then []
    else if tasks[0].taskName == name then WithoutName(tasks[1..], name)
    else [tasks[0]] + WithoutName(tasks[1..], name)
  }

  /** removeIf keeps exactly the tasks with another name. */
  lemma {:induction false} WithoutNameKeeps(tasks: seq<AbstractTask>, name: string)
    ensures forall i :: 0 <= i < |WithoutName(tasks, name)| ==>
              WithoutName(tasks, name)[i] in tasks && WithoutName(tasks, name)[i].taskName != name
    ensures forall i :: 0 <= i < |tasks| && tasks[i].taskName != name ==> tasks[i] in WithoutName(tasks, name)
    decreases |tasks|
  {
    if tasks != [] {
      var rest := WithoutName(tasks[1..], name);
      WithoutNameKeeps(tasks[1..], name);
      var r := WithoutName(tasks, name);
      assert r == rest || r == [tasks[0]] + rest;
      forall i | 0 <= i < |r|
        ensures r[i] in tasks && r[i].taskName != name
      {
        if r != rest && i > 0 {
          assert r[i] == rest[i - 1];
        }
      }
      forall i | 0 <= i < |tasks| && tasks[i].taskName != name
        ensures tasks[i] in r
      {
        if i > 0 {
          assert tasks[i] == tasks[1..][i - 1];
        }
      }
    }
  }

  /** removeIf keeps the relative order: filtering a list cut in two is filtering each
      part. */
  lemma {:induction false} WithoutNameSplits(a: seq<AbstractTask>, b: seq<AbstractTask>, name: string)
    ensures WithoutName(a + b, name) == WithoutName(a, name) + WithoutName(b, name)
    decreases |a|
  {
    if a == [] {
      assert a + b == b;
    } else {
      assert (a + b)[1..] == a[1..] + b;
      WithoutNameSplits(a[1..], b, name);
    }
  }

  /** After addTask(t) exactly one listed task has t's name, and it is the last. */
  lemma AddedOnce(tasks: seq<AbstractTask>, t: AbstractTask)
    ensures var r := WithoutName(tasks, t.taskName) + [t];
            forall i :: 0 <= i < |r| ==> (r[i].taskName == t.taskName <==> i == |r| - 1)
  {
    var kept := WithoutName(tasks, t.taskName);
    var r := kept + [t];
    WithoutNameKeeps(tasks, t.taskName);
    forall i | 0 <= i < |r|
      ensures r[i].taskName == t.taskName <==> i == |r| - 1
    {
      if i < |kept| {
        assert r[i] == kept[i];
      } else {
        assert r[i] == t;
      }
    }
  }

  class TaskListWindow {
    var tasks: seq<AbstractTask>
    var taskNames: array<string>

    /** The list box shows the name of every task, in list order. */
    ghost predicate Valid()
      reads this, taskNames
    {
      taskNames[..] == Names(tasks)
    }

    constructor ()
      ensures tasks == [] && Valid()
    {
      tasks := [];
      taskNames := new string[0];
    }

    /** addTask: the tasks with the new task's name are removed, the task goes last, and
        the names are rebuilt. */
    method AddTask(task: AbstractTask)
      modifies this
      ensures tasks == WithoutName(old(tasks), task.taskName) + [task]
      ensures fresh(taskNames) && Valid()
    {
      RemoveNamed(task.taskName);
      tasks := tasks + [task];
      UpdateNames();
    }

    /** removeIf on the name, one element at a time. */
    method RemoveNamed(name: string)
      modifies this
      ensures tasks == WithoutName(old(tasks), name) && taskNames == old(taskNames)
    {
      var all := tasks;
      var kept: seq<AbstractTask> := [];
      var i := 0;
      while i < |all|
        invariant 0 <= i <= |all|
        invariant kept == WithoutName(all[..i], name)
        invariant tasks == all && taskNames == old(taskNames)
      {
        assert all[..i + 1] == all[..i] + [all[i]];
        WithoutNameSplits(all[..i], [all[i]], name);
        assert WithoutName([all[i]], name) == if all[i].taskName == name then [] else [all[i]];
        if all[i].taskName != name {
          kept := kept + [all[i]];
        }
        i := i + 1;
      }
      assert all[..i] == all;
      tasks := kept;
    }

    /** hasTask: whether some listed task has the same name. */
    method HasTask(task: AbstractTask) returns (b: bool)
      ensures b <==> exists i :: 0 <= i < |tasks| && tasks[i].taskName == task.taskName
    {
      for i := 0 to |tasks|
        invariant forall j :: 0 <= j < i ==> tasks[j].taskName != task.taskName
      {
        if tasks[i].taskName == task.taskName {
          return true;
        }
      }
      return false;
    }

    /** updateNames: a new array as long as the list, holding the task names. */
    method UpdateNames()
      modifies this
      ensures tasks == old(tasks)
      ensures fresh(taskNames) && taskNames.Length == |tasks| && Valid()
    {
      var all := tasks;
      var names := new string[|all|];
      for i := 0 to |all|
        invariant names[..i] == Names(all)[..i]
        invariant tasks == all
      {
        names[i] := all[i].taskName;
      }
      assert names[..] == names[..|all|];
      taskNames := names;
    }

    /** The Remove Task button: the selected task goes only when the list is not empty
        and the selection is below its size; `List.remove` throws on a negative index. */
    method RemoveSelected(selected: Int32) returns (e: Option<Error>)
      modifies this
      ensures old(tasks) == [] || selected >= |old(tasks)| ==>
                e == None && tasks == old(tasks) && taskNames == old(taskNames)
      ensures old(tasks) != [] && selected < 0 ==>
                e == Some(IndexOutOfBounds) && tasks == old(tasks) && taskNames == old(taskNames)
      ensures 0 <= selected < |old(tasks)| ==>
                e == None && tasks == old(tasks)[..selected] + old(tasks)[selected + 1..] &&
                fresh(taskNames) && Valid()
    {
      if tasks != [] && selected < |tasks| {
        if selected < 0 {
          return Some(IndexOutOfBounds);
        }
        tasks := tasks[..selected] + tasks[selected + 1..];
        UpdateNames();
      }
      return None;
    }
  }
}
