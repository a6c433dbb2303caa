/**
  Handlers run concurrently. Each takes the assignment mutex, reads the FIP reservation, acts on
  what it read, and releases the mutex; only handlers write the reservation.
 */
module FipConcurrency {
  import opened Order

  /** A handler: what it does to a FIP that has a given target. None if it leaves it alone. */
  datatype Task = Task(decide: int -> Option<int>)

  datatype PC = Waiting | Locked | HasRead(snapshot: int) | Acted | Finished

  datatype Handler = Handler(task: Task, pc: PC)

  /** `log` lists the handlers in the order in which they acted. */
  datatype State = State(target: int, mutex: Option<nat>, handlers: map<nat, Handler>, log: seq<Task>)

  datatype Step = Start(id: nat, task: Task) | Lock(id: nat) | Read(id: nat) | Act(id: nat) | Unlock(id: nat)

  function After(task: Task, target: int): int {
    match task.decide(target)
    case Some(t) => t
    case None => target
  }

  /** The handlers one after the other, each on the target the previous one left. */
  function Serial(target: int, log: seq<Task>): int {
    if log == [] then target else After(log[|log| - 1], Serial(target, log[..|log| - 1]))
  }

  ghost predicate At(s: State, id: nat, pc: PC) { id in s.handlers && s.handlers[id].pc == pc }

  ghost function Goto(s: State, id: nat, pc: PC): State
    requires id in s.handlers
  {
    s.(handlers := s.handlers[id := s.handlers[id].(pc := pc)])
  }

  ghost predicate Next(s: State, t: State, step: Step) {
    match step
    case Start(id, task) =>
      id !in s.handlers && t == s.(handlers := s.handlers[id := Handler(task, Waiting)])
    case Lock(id) =>
      At(s, id, Waiting) && s.mutex == None && t == Goto(s, id, Locked).(mutex := Some(id))
    case Read(id) =>
      At(s, id, Locked) && t == Goto(s, id, HasRead(s.target))
    case Act(id) =>
      id in s.handlers && s.handlers[id].pc.HasRead?
      && var h := s.handlers[id];
         t == Goto(s, id, Acted).(target := match h.task.decide(h.pc.snapshot) { case Some(v) => v case None => s.target },
                                  log := s.log + [h.task])
    case Unlock(id) =>
      At(s, id, Acted) && t == Goto(s, id, Finished).(mutex := None)
  }

  ghost predicate InSection(pc: PC) { pc.Locked? || pc.HasRead? || pc.Acted? }

  /** Whoever is in the critical section holds the mutex; what it has read is still current. */
  ghost predicate Inv(init: int, s: State) {
    && (forall id :: id in s.handlers && InSection(s.handlers[id].pc) ==> s.mutex == Some(id))
    && (forall id :: id in s.handlers && s.handlers[id].pc.HasRead? ==> s.handlers[id].pc.snapshot == s.target)
    && s.target == Serial(init, s.log)
  }

  lemma NextKeepsInv(init: int, s: State, t: State, step: Step)
    requires Inv(init, s) && Next(s, t, step)
    ensures Inv(init, t)
  {
    if step.Act? {
      var h := s.handlers[step.id];
      assert h.pc.snapshot == s.target;
      assert t.log[..|t.log| - 1] == s.log;
      assert t.target == After(h.task, s.target);
    }
  }

  ghost predicate IsRun(states: seq<State>, steps: seq<Step>) {
    |states| == |steps| + 1 && forall i :: 0 <= i < |steps| ==> Next(states[i], states[i + 1], steps[i])
  }

  ghost predicate Initial(s: State) { s.mutex == None && s.handlers == map[] && s.log == [] }

  lemma {:induction false} RunKeepsInv(states: seq<State>, steps: seq<Step>, k: nat)
    requires IsRun(states, steps) && Initial(states[0]) && k <= |steps|
    ensures Inv(states[0].target, states[k])
  {
    hide Next;
    if k > 0 {
      RunKeepsInv(states, steps, k - 1);
      assert Next(states[k - 1], states[k - 1 + 1], steps[k - 1]);
      NextKeepsInv(states[0].target, states[k - 1], states[k], steps[k - 1]);
    }
  }

  /**
    In every interleaving, a handler that acts does so on the current reservation, alone in the critical
    section; and the target is what the handlers would leave if each ran alone, in the order they acted.
   */
  lemma Serializable(states: seq<State>, steps: seq<Step>, k: nat)
    requires IsRun(states, steps) && Initial(states[0]) && k <= |steps|
    ensures states[k].target == Serial(states[0].target, states[k].log)
    ensures k < |steps| && steps[k].Act? ==>
      var id := steps[k].id;
      && id in states[k].handlers && states[k].handlers[id].pc == HasRead(states[k].target)
      && forall other :: other in states[k].handlers && other != id ==> !InSection(states[k].handlers[other].pc)
  {
    RunKeepsInv(states, steps, k);
    if k < |steps| {
      assert Next(states[k], states[k + 1], steps[k]);
    }
  }
}
