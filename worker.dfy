/**
 * The storage worker of tnt-server/src/lib.rs (the fiber started in `start`): it polls the
 * command channel, runs the repository operation each command names and, when that operation
 * (and, for single-row commands, the listing after it) succeeds, sends the list of todos on
 * the one response channel that every request handler shares. A failed command sends
 * nothing. The loop is modelled sequentially: one `Dispatch` per command, and `Serve` for a
 * run of the loop over the commands queued so far.
 */
module Worker {
  import opened Base
  import opened Engine
  import opened TodoSpec
  import F = FrontApp
  import TodoRepo
  import ServerFns

  /** What handling one command puts on the response channel. */
  datatype Reply =
    | Sent(todos: seq<Todo>)
    | NoReply
      /** The repository unwrapped `None`: the worker dies. */
    | Panic

  datatype Step = Step(store: Store, reply: Reply)

  /**
   * A command naming a row by key panics when the engine carries out its first request but
   * no row holds that key: delete and update then return `None`, which the repository unwraps.
   */
  predicate Panics(s: Store, cmd: F.Cmd, f: Fault)
  {
    !Rejects(f, 0) &&
    match cmd
    case DeleteTodo(id) => !HasId(s.rows, id)
    case ChangeTitle(id, _) => !HasId(s.rows, id)
    case ChangeCompleted(id, _) => !HasId(s.rows, id)
    case _ => false
  }

  /**
   * The reply to a single-row command: when the change succeeded, the list taken by a
   * listing after it, which is request 1 of the command.
   */
  function ListedAfter<T>(o: Outcome<T>, f: Fault): Step
  {
    if o.result.Err? then Step(o.store, NoReply)
    else
      var listed := ListTodos(o.store, After(f, 1)).result;
      Step(o.store, if listed.Ok? then Sent(listed.value) else NoReply)
  }

  /** The reply to a command whose own operation returns the list to send. */
  function Returned(o: Outcome<seq<Todo>>): Step
  {
    Step(o.store, if o.result.Ok? then Sent(o.result.value) else NoReply)
  }

  /**
   * One turn of the worker's loop for the command `cmd`, whose engine requests fail as `f`
   * says: exactly the repository operation `cmd` names, and at most one list sent.
   */
  function Dispatched(s: Store, cmd: F.Cmd, f: Fault): (r: Step)
    ensures r.reply.Panic? <==> Panics(s, cmd, f)
    ensures r.reply.Panic? ==> r.store == s
    ensures Rejects(f, 0) ==> r == Step(s, NoReply)
    ensures cmd.GetTodos? ==> r.store == s
    ensures r.reply.Sent? ==> r.reply.todos == r.store.rows
    ensures f == NoFault && !Panics(s, cmd, f) ==>
      (r.reply.NoReply? <==> cmd.AddTodo? && (cmd.title == "" || s.nextId > MaxU32))
    ensures Valid(s) ==> Valid(r.store)
  {
    if Panics(s, cmd, f) then Step(s, Panic)
    else
      match cmd
      case GetTodos => Returned(ListTodos(s, f))
      case AddTodo(title) => ListedAfter(CreateTodo(s, title, f), f)
      case DeleteTodo(id) => ListedAfter(TodoSpec.DeleteTodo(s, id, f), f)
      case ChangeTitle(id, title) => ListedAfter(TodoSpec.ChangeTitle(s, id, title, f), f)
      case ChangeAllCompleted(c) => Returned(TodoSpec.ChangeAllCompleted(s, c, f))
      case ChangeCompleted(id, c) => ListedAfter(TodoSpec.ChangeCompleted(s, id, c, f), f)
      case DeleteCompleted => Returned(TodoSpec.DeleteCompleted(s, f))
  }

  /**
   * One turn of the loop on the todo space. The key of a single-row command is looked up first
   * so that the repository's unwrap of `None` shows as `Panic` instead of a call it forbids.
   */
  method Dispatch(space: TodoRepo.TodoSpace, cmd: F.Cmd, f: Fault) returns (reply: Reply)
    requires space.Valid()
    modifies space
    ensures Step(space.Value(), reply) == Dispatched(old(space.Value()), cmd, f)
    ensures space.Valid()
  {
    if Panics(space.Value(), cmd, f) {
      return Panic;
    }
    reply := NoReply;
    match cmd {
      case GetTodos =>
        var listed := space.ListTodos(f);
        if listed.Ok? {
          reply := Sent(listed.value);
        }
      case AddTodo(title) =>
        var created := space.CreateTodo(title, f);
        if created.Ok? {
          reply := ListAfter(space, f);
        }
      case DeleteTodo(id) =>
        var deleted := space.DeleteTodo(id, f);
        if deleted.Ok? {
          reply := ListAfter(space, f);
        }
      case ChangeTitle(id, title) =>
        var changed := space.ChangeTitle(id, title, f);
        if changed.Ok? {
          reply := ListAfter(space, f);
        }
      case ChangeAllCompleted(c) =>
        var todos := space.ChangeAllCompleted(c, f);
        if todos.Ok? {
          reply := Sent(todos.value);
        }
      case ChangeCompleted(id, c) =>
        var changed := space.ChangeCompleted(id, c, f);
        if changed.Ok? {
          reply := ListAfter(space, f);
        }
      case DeleteCompleted =>
        var todos := space.DeleteCompleted(f);
        if todos.Ok? {
          reply := Sent(todos.value);
        }
    }
  }

  /** The listing a single-row command runs after its change, as request 1 of the command. */
  method ListAfter(space: TodoRepo.TodoSpace, f: Fault) returns (reply: Reply)
    requires space.Valid()
    ensures reply.NoReply? <==> Rejects(f, 1)
    ensures reply.Sent? ==> reply.todos == space.rows
    ensures !reply.Panic?
  {
    var listed := space.ListTodos(After(f, 1));
    reply := if listed.Ok? then Sent(listed.value) else NoReply;
  }

  /** What a non-blocking receive on the command channel finds. */
  datatype Polled = Received(cmd: F.Cmd) | Empty | Disconnected

  /**
   * try_recv: the oldest queued command, if any; an empty channel reports Disconnected only
   * once every sender has been dropped.
   */
  method TryRecv(ch: F.Channels) returns (p: Polled)
    modifies ch
    ensures old(ch.commands) != [] ==>
      p == Received(old(ch.commands)[0]) && ch.commands == old(ch.commands)[1..]
    ensures old(ch.commands) == [] ==> p == (if ch.open then Empty else Disconnected)
    ensures old(ch.commands) == [] ==> ch.commands == []
    ensures ch.responses == old(ch.responses) && ch.open == old(ch.open)
  {
    if ch.commands == [] {
      return if ch.open then Empty else Disconnected;
    }
    p := Received(ch.commands[0]);
    ch.commands := ch.commands[1..];
  }

  /**
   * How a run of the loop over the commands queued so far ends: `Idle` when the queue is
   * empty but senders remain (the loop sleeps and polls again), `Stopped` when every sender
   * is gone (the loop breaks), `Crashed` when a command panicked.
   */
  datatype Halt = Idle | Stopped | Crashed

  /** A run of the loop: the store after it, the lists sent in order, the commands taken. */
  datatype Run = Run(store: Store, sent: seq<seq<Todo>>, taken: nat, halt: Halt)

  /** A run that follows `sent` lists already sent for `n` commands already taken. */
  function Resume(sent: seq<seq<Todo>>, n: nat, r: Run): Run
  {
    Run(r.store, sent + r.sent, n + r.taken, r.halt)
  }

  /**
   * The loop over the queued commands `cmds`, oldest first, the i-th failing as `faults[i]`
   * says, while the channel's senders are `open` or not.
   */
  function Drained(s: Store, cmds: seq<F.Cmd>, faults: seq<Fault>, open: bool): (r: Run)
    requires |faults| == |cmds|
    ensures |r.sent| <= r.taken <= |cmds|
    ensures r.halt != Crashed ==> r.taken == |cmds|
    ensures r.halt == Crashed ==> 0 < r.taken
    ensures r.halt == Idle ==> open
    ensures r.halt == Stopped ==> !open
    ensures Valid(s) ==> Valid(r.store)
    decreases |cmds|
  {
    if cmds == [] then Run(s, [], 0, if open then Idle else Stopped)
    else
      var step := Dispatched(s, cmds[0], faults[0]);
      if step.reply.Panic? then Run(s, [], 1, Crashed)
      else
        var sent := if step.reply.Sent? then [step.reply.todos] else [];
        Resume(sent, 1, Drained(step.store, cmds[1..], faults[1..], open))
  }

  /** Resuming twice is resuming once after both. */
  lemma ResumeTwice(sent: seq<seq<Todo>>, n: nat, more: seq<seq<Todo>>, m: nat, r: Run)
    ensures Resume(sent, n, Resume(more, m, r)) == Resume(sent + more, n + m, r)
  {

  }

  /** The loop over the commands from the i-th on, unfolded by one command. */
  lemma DrainedStep(s: Store, cmds: seq<F.Cmd>, faults: seq<Fault>, open: bool, i: nat)
    requires |faults| == |cmds| && i < |cmds|
    ensures var step := Dispatched(s, cmds[i], faults[i]);
      Drained(s, cmds[i..], faults[i..], open) ==
        if step.reply.Panic? then Run(s, [], 1, Crashed)
        else Resume(if step.reply.Sent? then [step.reply.todos] else [], 1,
          Drained(step.store, cmds[i + 1..], faults[i + 1..], open))
  {

  }

  /** The lists the replies put on the response channel, in order. */
  function Answers(replies: seq<Reply>): seq<seq<Todo>>
  {
    if replies == [] then []
    else
      var last := replies[|replies| - 1];
      Answers(replies[..|replies| - 1]) + (if last.Sent? then [last.todos] else [])
  }

  /** The lists of the first n replies are those of the first n - 1 and then reply n - 1's. */
  lemma AnswersPrefix(replies: seq<Reply>, n: nat)
    requires 0 < n <= |replies|
    ensures Answers(replies[..n]) ==
      Answers(replies[..n - 1]) + (if replies[n - 1].Sent? then [replies[n - 1].todos] else [])
  {
    assert replies[..n][..n - 1] == replies[..n - 1];
  }

  /**
   * `stores` and `replies` record a run of the loop that has taken |replies| of `cmds`
   * without a panic: store k + 1 and reply k are what command k does in store k.
   */
  ghost predicate Traced(cmds: seq<F.Cmd>, faults: seq<Fault>, stores: seq<Store>, replies: seq<Reply>)
  {
    |faults| == |cmds| && |replies| <= |cmds| && |stores| == |replies| + 1 &&
    forall k :: 0 <= k < |replies| ==>
      !replies[k].Panic? && Step(stores[k + 1], replies[k]) == Dispatched(stores[k], cmds[k], faults[k])
  }

  /** A recorded run grows by the next command's step. */
  lemma TracedExtend(cmds: seq<F.Cmd>, faults: seq<Fault>, stores: seq<Store>, replies: seq<Reply>,
                     after: Store, reply: Reply)
    requires Traced(cmds, faults, stores, replies) && |replies| < |cmds| && !reply.Panic?
    requires Step(after, reply) == Dispatched(stores[|replies|], cmds[|replies|], faults[|replies|])
    ensures Traced(cmds, faults, stores + [after], replies + [reply])
    ensures Answers(replies + [reply]) == Answers(replies) + (if reply.Sent? then [reply.todos] else [])
  {
    var stores', replies' := stores + [after], replies + [reply];
    forall k | 0 <= k < |replies'|
      ensures !replies'[k].Panic? && Step(stores'[k + 1], replies'[k]) == Dispatched(stores'[k], cmds[k], faults[k])
    {
      if k < |replies| {
        assert replies'[k] == replies[k] && stores'[k] == stores[k] && stores'[k + 1] == stores[k + 1];
      }
    }
    assert replies'[..|replies|] == replies;
  }

  /** The loop from the k-th command of a recorded run on, unfolded by that command's step. */
  lemma TracedStep(cmds: seq<F.Cmd>, faults: seq<Fault>, open: bool,
                   stores: seq<Store>, replies: seq<Reply>, k: nat)
    requires Traced(cmds, faults, stores, replies) && k < |replies|
    ensures Drained(stores[k], cmds[k..], faults[k..], open) ==
      Resume(if replies[k].Sent? then [replies[k].todos] else [], 1,
        Drained(stores[k + 1], cmds[k + 1..], faults[k + 1..], open))
  {

  }

  /**
   * The loop over all of `cmds` is the recorded run over the first n commands followed by the
   * loop over the rest, from the store the recorded run reached.
   */
  lemma {:induction false} TracedDrained(cmds: seq<F.Cmd>, faults: seq<Fault>, open: bool,
                                         stores: seq<Store>, replies: seq<Reply>, n: nat)
    requires Traced(cmds, faults, stores, replies) && n <= |replies|
    ensures Drained(stores[0], cmds, faults, open) ==
      Resume(Answers(replies[..n]), n, Drained(stores[n], cmds[n..], faults[n..], open))
  {
    if n == 0 {
      assert cmds[0..] == cmds && faults[0..] == faults && replies[..0] == [];
    } else {
      TracedDrained(cmds, faults, open, stores, replies, n - 1);
      TracedStep(cmds, faults, open, stores, replies, n - 1);
      var reply := replies[n - 1];
      var answered := if reply.Sent? then [reply.todos] else [];
      ResumeTwice(Answers(replies[..n - 1]), n - 1, answered, 1,
        Drained(stores[n], cmds[n..], faults[n..], open));
      AnswersPrefix(replies, n);
    }
  }

  /** The loop once a recorded run has taken every queued command. */
  lemma Finish(cmds: seq<F.Cmd>, faults: seq<Fault>, open: bool, stores: seq<Store>, replies: seq<Reply>)
    requires Traced(cmds, faults, stores, replies) && |replies| == |cmds|
    ensures Drained(stores[0], cmds, faults, open) ==
      Run(stores[|cmds|], Answers(replies), |cmds|, if open then Idle else Stopped)
  {
    var n := |cmds|;
    TracedDrained(cmds, faults, open, stores, replies, n);
    assert cmds[n..] == [] && faults[n..] == [] && replies[..n] == replies;
    assert Answers(replies) + [] == Answers(replies);
  }

  /** The loop when the command after a recorded run panics. */
  lemma Crash(cmds: seq<F.Cmd>, faults: seq<Fault>, open: bool, stores: seq<Store>, replies: seq<Reply>)
    requires Traced(cmds, faults, stores, replies) && |replies| < |cmds|
    requires Dispatched(stores[|replies|], cmds[|replies|], faults[|replies|]).reply.Panic?
    ensures Drained(stores[0], cmds, faults, open) ==
      Run(stores[|replies|], Answers(replies), |replies| + 1, Crashed)
  {
    var n := |replies|;
    TracedDrained(cmds, faults, open, stores, replies, n);
    DrainedStep(stores[n], cmds, faults, open, n);
    assert replies[..n] == replies;
    assert Answers(replies) + [] == Answers(replies);
  }

  /**
   * The worker's loop, run until the command channel is empty or disconnected or a command
   * panics; `faults[i]` is how the engine treats the i-th command taken. Running it again
   * once more commands are queued continues the loop (see DrainedInBatches).
   */
  method Serve(space: TodoRepo.TodoSpace, ch: F.Channels, faults: seq<Fault>) returns (halt: Halt)
    requires space.Valid() && |faults| == |ch.commands|
    modifies space, ch
    ensures var run := Drained(old(space.Value()), old(ch.commands), faults, old(ch.open));
      space.Value() == run.store && halt == run.halt &&
      ch.responses == old(ch.responses) + run.sent &&
      ch.commands == old(ch.commands)[run.taken..]
    ensures ch.open == old(ch.open)
    ensures space.Valid()
  {
    ghost var cmds := ch.commands;
    ghost var stores: seq<Store> := [space.Value()];
    ghost var replies: seq<Reply> := [];
    var i := 0;
    while true
      invariant 0 <= i <= |cmds| && ch.commands == cmds[i..]
      invariant space.Valid() && ch.open == old(ch.open)
      invariant Traced(cmds, faults, stores, replies) && |replies| == i
      invariant stores[0] == old(space.Value()) && stores[i] == space.Value()
      invariant ch.responses == old(ch.responses) + Answers(replies)
      decreases |ch.commands|
    {
      var polled := TryRecv(ch);
      match polled {
        case Empty =>
          Finish(cmds, faults, ch.open, stores, replies);
          return Idle;
        case Disconnected =>
          Finish(cmds, faults, ch.open, stores, replies);
          return Stopped;
        case Received(cmd) =>
          assert cmd == cmds[i];
          var reply := Dispatch(space, cmd, faults[i]);
          if reply.Panic? {
            Crash(cmds, faults, ch.open, stores, replies);
            return Crashed;
          }
          TracedExtend(cmds, faults, stores, replies, space.Value(), reply);
          if reply.Sent? {
            ch.responses := ch.responses + [reply.todos];
          }
          stores := stores + [space.Value()];
          replies := replies + [reply];
          i := i + 1;
      }
    }
  }

  /**
   * Polling again later continues the loop: a run over the commands `a` that ends idle,
   * followed by a run over the commands `b` queued after it, is one run over `a + b`; a run
   * that crashed in `a` never reaches `b`.
   */
  lemma {:induction false} DrainedInBatches(s: Store, a: seq<F.Cmd>, fa: seq<Fault>,
                                            b: seq<F.Cmd>, fb: seq<Fault>, open: bool)
    requires |fa| == |a| && |fb| == |b|
    ensures var first := Drained(s, a, fa, true);
      (first.halt == Idle ==>
        Drained(s, a + b, fa + fb, open) == Resume(first.sent, |a|, Drained(first.store, b, fb, open))) &&
      (first.halt == Crashed ==> Drained(s, a + b, fa + fb, open) == first)
    decreases |a|
  {
    if a == [] {
      assert a + b == b && fa + fb == fb;
      assert [] + Drained(s, b, fb, open).sent == Drained(s, b, fb, open).sent;
    } else {
      assert (a + b)[0] == a[0] && (a + b)[1..] == a[1..] + b;
      assert (fa + fb)[0] == fa[0] && (fa + fb)[1..] == fa[1..] + fb;
      var step := Dispatched(s, a[0], fa[0]);
      if !step.reply.Panic? {
        DrainedInBatches(step.store, a[1..], fa[1..], b, fb, open);
        var answered := if step.reply.Sent? then [step.reply.todos] else [];
        var rest := Drained(step.store, a[1..], fa[1..], true);
        if rest.halt == Idle {
          ResumeTwice(answered, 1, rest.sent, |a| - 1, Drained(rest.store, b, fb, open));
        }
      }
    }
  }

  /**
   * A single-row change whose follow-up listing fails stays committed, yet nothing is sent:
   * the handler that asked for it waits for a list that never comes.
   */
  lemma AddedWithoutReply(s: Store, title: string)
    requires Valid(s) && title != "" && s.nextId <= MaxU32
    ensures var r := Dispatched(s, F.Cmd.AddTodo(title), FailAt(1));
      r.reply == NoReply && r.store == CreateTodo(s, title, NoFault).store &&
      |r.store.rows| == |s.rows| + 1
  {
  }

  /** The run of the scenario below: two commands taken, one list sent. */
  lemma EmptyTitleThenAdd()
    ensures var milk := F.Todo(1, "Buy milk", false);
      Drained(Store([], 1), [F.Cmd.AddTodo(""), F.Cmd.AddTodo("Buy milk")], [NoFault, NoFault], true) ==
        Run(Store([milk], 2), [[milk]], 2, Idle)
  {
    var milk := F.Todo(1, "Buy milk", false);
    var cmds := [F.Cmd.AddTodo(""), F.Cmd.AddTodo("Buy milk")];
    var faults := [NoFault, NoFault];
    assert Dispatched(Store([], 1), cmds[0], NoFault) == Step(Store([], 1), NoReply);
    assert Dispatched(Store([], 1), cmds[1], NoFault) == Step(Store([milk], 2), Sent([milk]));
    assert cmds[1..][1..] == [] && faults[1..][1..] == [];
    assert Drained(Store([], 1), cmds[1..], faults[1..], true) == Run(Store([milk], 2), [[milk]], 1, Idle);
  }

  /**
   * Two handlers share the response channel. The first asks to add a todo with an empty
   * title, the second to add "Buy milk", and then the worker runs. The first command fails
   * and sends nothing, so the first handler receives the list produced for the second
   * command, and the second handler is left waiting.
   */
  method ShiftedReplies() returns (first: Option<seq<Todo>>, second: Option<seq<Todo>>)
    ensures first == Some([F.Todo(1, "Buy milk", false)])
    ensures second == None
  {
    var space := new TodoRepo.TodoSpace();
    var ch := new F.Channels();
    var ctx := F.Context(true, true);
    var submitted := ServerFns.Submit(ch, ctx, F.Cmd.AddTodo(""));
    submitted := ServerFns.Submit(ch, ctx, F.Cmd.AddTodo("Buy milk"));
    var halt := Serve(space, ch, [NoFault, NoFault]);
    EmptyTitleThenAdd();
    first := ServerFns.Receive(ch);
    second := ServerFns.Receive(ch);
  }
}
