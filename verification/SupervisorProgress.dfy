/** That supervisors do what they are asked: who ends up running the companion, and that stopping frees the lock. */
module SupervisorProgress {
  import opened Common
  import opened SupervisorSteps
  import opened SupervisorSafety

  /** The supervisor owns the lock and its controller is alive; one that was alive before is the same. */
  ghost predicate Runs(w: World, after: World, id: nat, newTask: nat) {
    && id in w.supervisors && id in after.supervisors
    && AliveController(after, id) && after.lock == Some(BySupervisor(id)) && after.supervisors[id].ownership
    && (AliveController(w, id) ==>
      after.supervisors[id].controller == w.supervisors[id].controller && after.tasks == w.tasks
      && after.supervisors[id].generation == w.supervisors[id].generation)
    && (!AliveController(w, id) ==>
      && after.supervisors[id].controller == Some(newTask)
      && after.supervisors[id].generation == w.supervisors[id].generation + 1
      && after.supervisors[id].connection == Reconnecting
      && after.tasks == w.tasks[newTask := Task(id, after.supervisors[id].generation, Running)])
  }

  predicate LockOpen(w: World, id: nat)
    requires id in w.supervisors
  {
    w.supervisors[id].ownership || w.lock.None?
  }

  /** Pairing while the application runs starts the companion, unless somebody else holds the lock. */
  lemma PairingStartsRuntime(w: World, id: nat, newTask: nat, newWaiting: nat)
    requires Inv(w) && id in w.supervisors && newTask !in w.tasks && newWaiting !in w.waiting
    ensures
      var after := Next(w, Changes(id, true, newTask, newWaiting));
      if w.supervisors[id].applicationRunning && LockOpen(w, id) then Runs(w, after, id, newTask)
      else after == w
  {
    if !(w.supervisors[id].applicationRunning && LockOpen(w, id)) {
      Unchanged(w, id, newTask);
    }
  }

  lemma Unchanged(w: World, id: nat, newTask: nat)
    requires Inv(w) && id in w.supervisors && newTask !in w.tasks
    ensures Settled(w, id, w.supervisors[id], newTask) == w
  {
    assert SupervisorOk(w, id);
    assert w.supervisors[id := w.supervisors[id]] == w.supervisors;
  }

  /** Starting the application with a pairing runs the companion, or records that the application did not start. */
  lemma StartRunsWhenPaired(w: World, id: nat, newTask: nat)
    requires Inv(w) && id in w.supervisors && newTask !in w.tasks
    ensures
      var after := Next(w, Starts(id, true, newTask));
      && id in after.supervisors && after.supervisors[id].applicationRunning == LockOpen(w, id)
      && (LockOpen(w, id) ==> Runs(w, after, id, newTask))
      && (!LockOpen(w, id) ==> after == w.(
        supervisors := w.supervisors[id := w.supervisors[id].(applicationRunning := false)]))
  {
    assert SupervisorOk(w, id);
  }

  /** Starting without a pairing starts nothing. */
  lemma StartWaitsWhenUnpaired(w: World, id: nat, newTask: nat)
    requires Inv(w) && id in w.supervisors && newTask !in w.tasks
    ensures Next(w, Starts(id, false, newTask)) == w.(
      supervisors := w.supervisors[id := w.supervisors[id].(applicationRunning := true, connection := Disconnected)])
  {
    assert SupervisorOk(w, id);
  }

  /** The supervisor has let go of its controller and of the lock, and a waiting caller has them. */
  ghost predicate LetGoOf(w: World, after: World, id: nat, waiting: nat) {
    && id in w.supervisors && id in after.supervisors && waiting in after.waiting
    && var s, t := w.supervisors[id], after.supervisors[id];
      && t.controller.None? && !t.ownership && t.connection == Disconnected && t.generation == s.generation + 1
      && after.waiting[waiting] == Waiting(s.controller, s.ownership)
      && after.lock == (if s.ownership then Some(ByWaiting(waiting)) else w.lock)
      && (AliveController(w, id) ==>
        s.controller.value in after.tasks && after.tasks[s.controller.value].phase == Cancelling)
  }

  /** Losing the pairing, stopping and shutting down all let go; only shutting down ends the application. */
  lemma StoppingLetsGo(w: World, id: nat, newTask: nat, waiting: nat)
    requires Inv(w) && id in w.supervisors && newTask !in w.tasks && waiting !in w.waiting
    ensures
      var stopped, shut := Next(w, Stops(id, waiting)), Next(w, ShutsDown(id, waiting));
      && LetGoOf(w, stopped, id, waiting) && LetGoOf(w, shut, id, waiting)
      && stopped.supervisors[id].applicationRunning == w.supervisors[id].applicationRunning
      && !shut.supervisors[id].applicationRunning
      && (w.supervisors[id].applicationRunning ==> Next(w, Changes(id, false, newTask, waiting)) == stopped)
      && (!w.supervisors[id].applicationRunning ==> Next(w, Changes(id, false, newTask, waiting)) == w)
  {
    if !w.supervisors[id].applicationRunning {
      Unchanged(w, id, newTask);
    }
  }

  /** Once the cancelled task has ended the waiting caller releases, and the lock is free for anyone. */
  lemma StoppingFreesLock(w: World, id: nat, waiting: nat, task: nat)
    requires Inv(w) && id in w.supervisors && waiting !in w.waiting
    requires AliveController(w, id) && w.supervisors[id].controller == Some(task)
    ensures
      var after := Next(Next(Next(w, Stops(id, waiting)), Ends(task, false)), Releases(waiting));
      after.lock.None? && !AliveTask(after, task) && waiting !in after.waiting
      && id in after.supervisors && after.supervisors[id].connection == Disconnected
  {
    assert SupervisorOk(w, id) && TaskOk(w, task);
  }

  /** A task that ends is done; its last write says disconnected, if it makes one and no later generation took over. */
  lemma EndingSays(w: World, task: nat, silently: bool)
    requires AliveTask(w, task) && w.tasks[task].owner in w.supervisors
    ensures
      var after, t := Next(w, Ends(task, silently)), w.tasks[task];
      var s := w.supervisors[t.owner];
      && (silently && t.phase.Running? ==> after == w)
      && (!(silently && t.phase.Running?) ==>
        && after.tasks == w.tasks[task := t.(phase := Done)]
        && after.waiting == w.waiting && after.lock == w.lock
        && (silently || t.generation != s.generation ==> after.supervisors == w.supervisors)
        && (!silently && t.generation == s.generation ==>
          after.supervisors == w.supervisors[t.owner := s.(connection := Disconnected)]))
  {
  }
}
