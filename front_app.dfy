/**
 * The types the UI and the server share (front-app/src/lib.rs): the todo record, the closed set
 * of commands, and the application state through which request handlers reach the storage
 * worker: a command channel and a shared response channel.
 */
module FrontApp {
  import opened Base

  /** A todo as stored and as sent to the UI; equality is structural. */
  datatype Todo = Todo(id: U32, title: string, completed: bool)

  /** One variant per repository operation, carrying only that operation's arguments. */
  datatype Cmd =
    | GetTodos
    | AddTodo(title: string)
    | DeleteTodo(id: U32)
    | ChangeTitle(id: U32, title: string)
    | ChangeCompleted(id: U32, completed: bool)
    | ChangeAllCompleted(completed: bool)
    | DeleteCompleted

  datatype ServerFnError = ServerError(message: string)

  /**
   * What a server function finds in its request context: whether a command sender and
   * whether the response receiver were provided.
   */
  datatype Context = Context(cmdTx: bool, todoRx: bool)

  /**
   * The two channels of the application state. `commands` is the multi-producer command
   * channel, oldest first; `responses` is the one response channel shared by all request
   * handlers, oldest first; `open` is false once every command sender has been dropped.
   */
  class Channels {
    var commands: seq<Cmd>
    var responses: seq<seq<Todo>>
    var open: bool

    constructor ()
      ensures commands == [] && responses == [] && open
    {
      commands := [];
      responses := [];
      open := true;
    }
  }
}

/**
 * The server functions of front-app/src/lib.rs. Each one sends exactly one command built from
 * its arguments, then takes the next list from the shared response channel, whichever command
 * that list was produced for.
 */
module ServerFns {
  import opened Base
  import F = FrontApp

  /** What a server function hands back; `Waiting` means it is still blocked on the receive. */
  datatype Call = Returned(result: Result<seq<F.Todo>, F.ServerFnError>) | Waiting

  /** The effect every server function has on the channels, for the command `cmd`. */
  twostate predicate Requested(ch: F.Channels, ctx: F.Context, cmd: F.Cmd, r: Call)
    reads ch
  {
    (!ctx.cmdTx ==> r == Returned(Err(F.ServerError("Sender cmd missing."))) && unchanged(ch)) &&
    (ctx.cmdTx ==> ch.commands == old(ch.commands) + [cmd] && ch.open == old(ch.open)) &&
    (ctx.cmdTx && !ctx.todoRx ==>
      r == Returned(Err(F.ServerError("Receiver missing."))) && ch.responses == old(ch.responses)) &&
    (ctx.cmdTx && ctx.todoRx && old(ch.responses) == [] ==> r == Waiting && ch.responses == []) &&
    (ctx.cmdTx && ctx.todoRx && old(ch.responses) != [] ==>
      r == Returned(Ok(old(ch.responses)[0])) && ch.responses == old(ch.responses)[1..])
  }

  /**
   * The first half of a server function: look up the sender, send, then look up the receiver.
   * A missing receiver is noticed only after the command has gone out.
   */
  method Submit(ch: F.Channels, ctx: F.Context, cmd: F.Cmd) returns (r: Result<(), F.ServerFnError>)
    modifies ch
    ensures !ctx.cmdTx ==> r == Err(F.ServerError("Sender cmd missing.")) && unchanged(ch)
    ensures ctx.cmdTx ==> ch.commands == old(ch.commands) + [cmd]
    ensures ctx.cmdTx ==> r == if ctx.todoRx then Ok(()) else Err(F.ServerError("Receiver missing."))
    ensures ch.responses == old(ch.responses) && ch.open == old(ch.open)
  {
    if !ctx.cmdTx {
      return Err(F.ServerError("Sender cmd missing."));
    }
    ch.commands := ch.commands + [cmd];
    if !ctx.todoRx {
      return Err(F.ServerError("Receiver missing."));
    }
    r := Ok(());
  }

  /**
   * The second half: take the oldest list on the shared response channel. `None` stands for
   * the blocking receive finding nothing queued yet.
   */
  method Receive(ch: F.Channels) returns (r: Option<seq<F.Todo>>)
    modifies ch
    ensures old(ch.responses) == [] ==> r == None && unchanged(ch)
    ensures old(ch.responses) != [] ==>
      r == Some(old(ch.responses)[0]) && ch.responses == old(ch.responses)[1..]
    ensures ch.commands == old(ch.commands) && ch.open == old(ch.open)
  {
    if ch.responses == [] {
      return None;
    }
    r := Some(ch.responses[0]);
    ch.responses := ch.responses[1..];
  }

  /** Send `cmd`, then receive: the body every server function shares. */
  method Request(ch: F.Channels, ctx: F.Context, cmd: F.Cmd) returns (r: Call)
    modifies ch
    ensures Requested(ch, ctx, cmd, r)
  {
    var sent := Submit(ch, ctx, cmd);
    if sent.Err? {
      return Returned(Err(sent.error));
    }
    var todos := Receive(ch);
    r := if todos.Some? then Returned(Ok(todos.value)) else Waiting;
  }

  method GetTodos(ch: F.Channels, ctx: F.Context) returns (r: Call)
    modifies ch
    ensures Requested(ch, ctx, F.Cmd.GetTodos, r)
  {
    r := Request(ch, ctx, F.Cmd.GetTodos);
  }

  method AddTodo(ch: F.Channels, ctx: F.Context, title: string) returns (r: Call)
    modifies ch
    ensures Requested(ch, ctx, F.Cmd.AddTodo(title), r)
  {
    r := Request(ch, ctx, F.Cmd.AddTodo(title));
  }

  method DeleteTodo(ch: F.Channels, ctx: F.Context, id: U32) returns (r: Call)
    modifies ch
    ensures Requested(ch, ctx, F.Cmd.DeleteTodo(id), r)
  {
    r := Request(ch, ctx, F.Cmd.DeleteTodo(id));
  }

  method ChangeTitle(ch: F.Channels, ctx: F.Context, id: U32, title: string) returns (r: Call)
    modifies ch
    ensures Requested(ch, ctx, F.Cmd.ChangeTitle(id, title), r)
  {
    r := Request(ch, ctx, F.Cmd.ChangeTitle(id, title));
  }

  method ChangeCompleted(ch: F.Channels, ctx: F.Context, id: U32, completed: bool) returns (r: Call)
    modifies ch
    ensures Requested(ch, ctx, F.Cmd.ChangeCompleted(id, completed), r)
  {
    r := Request(ch, ctx, F.Cmd.ChangeCompleted(id, completed));
  }

  method ChangeAllCompleted(ch: F.Channels, ctx: F.Context, completed: bool) returns (r: Call)
    modifies ch
    ensures Requested(ch, ctx, F.Cmd.ChangeAllCompleted(completed), r)
  {
    r := Request(ch, ctx, F.Cmd.ChangeAllCompleted(completed));
  }

  method DeleteCompleted(ch: F.Channels, ctx: F.Context) returns (r: Call)
    modifies ch
    ensures Requested(ch, ctx, F.Cmd.DeleteCompleted, r)
  {
    r := Request(ch, ctx, F.Cmd.DeleteCompleted);
  }
}
