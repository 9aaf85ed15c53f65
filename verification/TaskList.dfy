/** Running a list of tasks as a transaction (utils/task/task.go, List.Start). */
module TaskList {

  datatype Outcome<S> = Outcome(state: S, ok: bool)

  /** A task as what it does to the state: a run that may fail half-way, and a rollback. */
  datatype Task<!S> = Task(run: S -> Outcome<S>, rollback: S -> S)

  /** `states` are the states before and after each of the first tasks, run one after the other
      from `s`. */
  predicate Ran<S(==)>(tasks: seq<Task<S>>, s: S, states: seq<S>) {
    && 1 <= |states| <= |tasks| + 1 && states[0] == s
    && forall i :: 0 <= i < |states| - 1 ==> states[i + 1] == tasks[i].run(states[i]).state
  }

  /** The first `n` tasks succeed, each in the state the ones before it left. */
  predicate AllOk<S>(tasks: seq<Task<S>>, states: seq<S>, n: nat)
    requires n <= |states| && n <= |tasks|
  {
    forall i :: 0 <= i < n ==> tasks[i].run(states[i]).ok
  }

  /** `states` are the states as the first tasks are rolled back, the last of them first: it ends
      in `states[0]`. */
  predicate RolledBack<S(==)>(tasks: seq<Task<S>>, states: seq<S>) {
    && 1 <= |states| <= |tasks| + 1
    && forall i :: 0 <= i < |states| - 1 ==> states[i] == tasks[i].rollback(states[i + 1])
  }

  /** Rollback undoes a run, whether it succeeded or failed. */
  ghost predicate Undoes<S(!new)>(t: Task<S>) {
    forall s: S :: t.rollback(t.run(s).state) == s
  }

  /** Start: runs the tasks in order; at the first failure rolls back the failed one and all
      before it. `states` are the states on the way there, `back` those on the way back. */
  method Start<S(!new, ==)>(tasks: seq<Task<S>>, s: S) returns (end: S, ok: bool, ghost states: seq<S>, ghost back: seq<S>)
    ensures Ran(tasks, s, states)
    ensures ok ==> |states| == |tasks| + 1 && AllOk(tasks, states, |tasks|) && end == states[|tasks|]
    ensures !ok ==>
      && |states| >= 2 && AllOk(tasks, states, |states| - 2) && !tasks[|states| - 2].run(states[|states| - 2]).ok
      && RolledBack(tasks, back) && |back| == |states| && back[|back| - 1] == states[|states| - 1] && end == back[0]
    ensures !ok && (forall i :: 0 <= i < |tasks| ==> Undoes(tasks[i])) ==> end == s
  {
    end, states, back := s, [s], [];
    var te := 0;
    while te < |tasks|
      invariant 0 <= te <= |tasks| && |states| == te + 1 && end == states[te]
      invariant Ran(tasks, s, states) && AllOk(tasks, states, te)
    {
      var outcome := tasks[te].run(end);
      end := outcome.state;
      states := states + [end];
      if !outcome.ok {
        break;
      }
      te := te + 1;
    }
    ok := te == |tasks|;
    if !ok {
      ghost var fe: nat := te;
      back := [end];
      while te >= 0
        invariant -1 <= te <= fe && |back| == fe - te + 1
        invariant end == back[0] && back[|back| - 1] == states[fe + 1]
        invariant forall i :: te < i <= fe ==> back[i - te - 1] == tasks[i].rollback(back[i - te])
      {
        end := tasks[te].rollback(end);
        back := [end] + back;
        te := te - 1;
      }
      if forall i :: 0 <= i < |tasks| ==> Undoes(tasks[i]) {
        Restored(tasks, s, states, back, 0);
      }
    }
  }

  /** If every rollback undoes its run, rolling back goes through the same states again. */
  lemma {:induction false} Restored<S(!new)>(tasks: seq<Task<S>>, s: S, states: seq<S>, back: seq<S>, i: nat)
    requires Ran(tasks, s, states) && RolledBack(tasks, back) && |back| == |states| && i < |states|
    requires back[|back| - 1] == states[|states| - 1]
    requires forall i :: 0 <= i < |tasks| ==> Undoes(tasks[i])
    ensures back[i] == states[i]
    decreases |states| - i
  {
    if i < |states| - 1 {
      Restored(tasks, s, states, back, i + 1);
      assert Undoes(tasks[i]);
    }
  }
}
