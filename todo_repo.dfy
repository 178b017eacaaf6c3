/**
 * The todo repository of tnt-server/src/repo/todo.rs over the todo space, whose rows the
 * repository changes in place. Each method is proved against the matching function of
 * TodoSpec. A transaction is modelled as work on a copy of the rows that is written back
 * (committed) at the end and discarded when an engine request fails.
 */
module TodoRepo {
  import opened Base
  import opened Engine
  import opened TodoSpec
  import FrontApp

  /**
   * change_all_completed's working copy once its loop has updated the first `i` rows of the
   * snapshot `todos`: it holds the same keys in the same order as the snapshot.
   */
  lemma CompletedPrefix(todos: seq<Todo>, i: nat, c: bool)
    requires Ascending(todos) && i <= |todos|
    ensures var tx := AllCompleted(todos[..i], c) + todos[i..];
      |tx| == |todos| && (forall k :: 0 <= k < |tx| ==> tx[k].id == todos[k].id) && Ascending(tx)
  {

  }

  /** Updating row i of the working copy by key advances it by one row. */
  lemma CompleteRows(todos: seq<Todo>, i: nat, c: bool)
    requires Ascending(todos) && i < |todos|
    ensures SetCompleted(AllCompleted(todos[..i], c) + todos[i..], todos[i].id, c) ==
      AllCompleted(todos[..i + 1], c) + todos[i + 1..]
  {

  }

  /** One step of change_all_completed's loop over the snapshot `todos`. */
  lemma CompleteStep(todos: seq<Todo>, i: nat, c: bool)
    requires Ascending(todos) && i < |todos|
    ensures var next := SetCompleted(AllCompleted(todos[..i], c) + todos[i..], todos[i].id, c);
      next == AllCompleted(todos[..i + 1], c) + todos[i + 1..] &&
      HasId(next, todos[i].id) &&
      AllCompleted(todos[..i], c) + [Find(next, todos[i].id)] == AllCompleted(todos[..i + 1], c)
  {
    var next := SetCompleted(AllCompleted(todos[..i], c) + todos[i..], todos[i].id, c);
    CompleteRows(todos, i, c);
    CompletedPrefix(todos, i + 1, c);
    FindAt(next, i);
    assert AllCompleted(todos[..i], c) + [next[i]] == AllCompleted(todos[..i + 1], c);
  }

  /** Deleting a key no row holds leaves the scan as it was. */
  lemma KeyAbsent(rows: seq<Todo>, id: U32)
    requires forall k :: 0 <= k < |rows| ==> rows[k].id != id
    ensures Without(rows, id) == rows
  {
    FilterKeepsAll(rows, OtherThan(id));
  }

  /** How the completed and the not-completed rows of a prefix grow by one row. */
  lemma PrefixStep(todos: seq<Todo>, i: nat)
    requires i < |todos|
    ensures Active(todos[..i + 1]) ==
      Active(todos[..i]) + (if todos[i].completed then [] else [todos[i]])
    ensures |Finished(todos[..i + 1])| ==
      |Finished(todos[..i])| + (if todos[i].completed then 1 else 0)
    ensures |Finished(todos[..i + 1])| <= |Finished(todos)|
  {
    assert todos[..i + 1] == todos[..i] + [todos[i]];
    assert todos == todos[..i + 1] + todos[i + 1..];
    FilterAppend(todos[..i], [todos[i]], IsActive);
    FilterAppend(todos[..i], [todos[i]], IsFinished);
    FilterAppend(todos[..i + 1], todos[i + 1..], IsFinished);
  }

  /** Every row kept from the first `i` rows of an ascending scan has a key below row i's. */
  lemma KeptBelow(todos: seq<Todo>, i: nat, keep: Todo -> bool)
    requires Ascending(todos) && i < |todos|
    ensures forall k :: 0 <= k < |Filter(todos[..i], keep)| ==>
      Filter(todos[..i], keep)[k].id != todos[i].id
  {
    var kept := Filter(todos[..i], keep);
    FilterMembers(todos[..i], keep);
    forall k | 0 <= k < |kept|
      ensures kept[k].id != todos[i].id
    {
      assert kept[k] in todos[..i];
      var m :| 0 <= m < i && todos[..i][m] == kept[k];
      assert todos[m] == kept[k];
    }
  }

  /** Deleting key `x.id` from a scan where only `x` holds it removes just `x`. */
  lemma WithoutMiddle(done: seq<Todo>, x: Todo, rest: seq<Todo>)
    requires forall k :: 0 <= k < |done| ==> done[k].id != x.id
    requires forall k :: 0 <= k < |rest| ==> rest[k].id != x.id
    ensures Without(done + ([x] + rest), x.id) == done + rest
  {
    KeyAbsent(done, x.id);
    KeyAbsent(rest, x.id);
    FilterAppend(done, [x] + rest, OtherThan(x.id));
    assert ([x] + rest)[1..] == rest;
  }

  /**
   * delete_completed's working copy once its loop has visited the first `i` rows of the
   * snapshot `todos`, deleting each completed one by key.
   */
  function Deleted(todos: seq<Todo>, i: nat): seq<Todo>
    requires i <= |todos|
  {
    if i == 0 then todos
    else if todos[i - 1].completed then Without(Deleted(todos, i - 1), todos[i - 1].id)
    else Deleted(todos, i - 1)
  }

  /** How many deletes delete_completed's loop has sent once it has visited `i` rows. */
  function Sent(todos: seq<Todo>, i: nat): nat
    requires i <= |todos|
  {
    if i == 0 then 0
    else Sent(todos, i - 1) + (if todos[i - 1].completed then 1 else 0)
  }

  /**
   * Deleting the completed rows one key at a time leaves the rows not completed among those
   * visited, followed by the rows not yet visited; one delete is sent per completed row.
   */
  lemma {:induction false} DeletedSplit(todos: seq<Todo>, i: nat)
    requires Ascending(todos) && i <= |todos|
    ensures Deleted(todos, i) == Active(todos[..i]) + todos[i..]
    ensures Sent(todos, i) == |Finished(todos[..i])| <= |Finished(todos)|
  {
    if i == 0 {
      assert todos[..0] == [];
    } else {
      DeletedSplit(todos, i - 1);
      PrefixStep(todos, i - 1);
      if todos[i - 1].completed {
        DeleteStep(todos, i - 1);
      } else {
        KeepStep(todos, i - 1);
      }
    }
  }

  /** One step of delete_completed's loop over the snapshot `todos`, for a row kept. */
  lemma KeepStep(todos: seq<Todo>, i: nat)
    requires i < |todos| && !todos[i].completed
    ensures Active(todos[..i]) + todos[i..] == Active(todos[..i + 1]) + todos[i + 1..]
  {
    PrefixStep(todos, i);
    assert todos[i..] == [todos[i]] + todos[i + 1..];
  }

  /** One step of delete_completed's loop over the snapshot `todos`, for a completed row. */
  lemma DeleteStep(todos: seq<Todo>, i: nat)
    requires Ascending(todos) && i < |todos| && todos[i].completed
    ensures Without(Active(todos[..i]) + todos[i..], todos[i].id) == Active(todos[..i + 1]) + todos[i + 1..]
  {
    var done := Active(todos[..i]);
    var rest := todos[i + 1..];
    KeptBelow(todos, i, IsActive);
    forall k | 0 <= k < |rest|
      ensures rest[k].id != todos[i].id
    {
      assert rest[k] == todos[i + 1 + k];
    }
    assert todos[i..] == [todos[i]] + rest;
    WithoutMiddle(done, todos[i], rest);
    PrefixStep(todos, i);
    assert done + [] == done;
  }

  class TodoSpace {
    /** The rows of the todo space in primary-key order. */
    var rows: seq<Todo>
    /** The next value of the space's auto-increment sequence. */
    var nextId: nat

    function Value(): Store
      reads this
    {
      Store(rows, nextId)
    }

    ghost predicate Valid()
      reads this
    {
      TodoSpec.Valid(Value())
    }

    /** An empty space whose sequence starts at 1. */
    constructor ()
      ensures Valid() && rows == [] && nextId == 1
    {
      rows := [];
      nextId := 1;
    }

    method CreateTodo(title: string, f: Fault) returns (r: Result<Todo, RepoErr>)
      requires Valid()
      modifies this
      ensures Outcome(Value(), r) == TodoSpec.CreateTodo(old(Value()), title, f)
      ensures Valid()
    {
      if title == "" {
        return Err(EmptyTodoTitle);
      }
      if Rejects(f, 0) || nextId > MaxU32 {
        return Err(EngineError);
      }
      var todo := FrontApp.Todo(nextId, title, false);
      rows := rows + [todo];
      nextId := nextId + 1;
      r := Ok(todo);
    }

    method DeleteTodo(id: U32, f: Fault) returns (r: Result<Todo, RepoErr>)
      requires Valid()
      requires Rejects(f, 0) || HasId(rows, id)
      modifies this
      ensures Outcome(Value(), r) == TodoSpec.DeleteTodo(old(Value()), id, f)
      ensures Valid()
    {
      if Rejects(f, 0) {
        return Err(EngineError);
      }
      var deleted := Find(rows, id);
      rows := Without(rows, id);
      r := Ok(deleted);
    }

    method ListTodos(f: Fault) returns (r: Result<seq<Todo>, RepoErr>)
      requires Valid()
      ensures r.Ok? <==> !Rejects(f, 0)
      ensures r.Ok? ==> r.value == rows
      ensures r == TodoSpec.ListTodos(Value(), f).result
    {
      if Rejects(f, 0) {
        return Err(EngineError);
      }
      r := Ok(rows);
    }

    method ChangeCompleted(id: U32, c: bool, f: Fault) returns (r: Result<Todo, RepoErr>)
      requires Valid()
      requires Rejects(f, 0) || HasId(rows, id)
      modifies this
      ensures Outcome(Value(), r) == TodoSpec.ChangeCompleted(old(Value()), id, c, f)
      ensures Valid()
    {
      if Rejects(f, 0) {
        return Err(EngineError);
      }
      ghost var k := IndexOf(rows, id);
      rows := SetCompleted(rows, id, c);
      assert rows[k].id == id;
      r := Ok(Find(rows, id));
    }

    method ChangeTitle(id: U32, title: string, f: Fault) returns (r: Result<Todo, RepoErr>)
      requires Valid()
      requires Rejects(f, 0) || HasId(rows, id)
      modifies this
      ensures Outcome(Value(), r) == TodoSpec.ChangeTitle(old(Value()), id, title, f)
      ensures Valid()
    {
      if Rejects(f, 0) {
        return Err(EngineError);
      }
      ghost var k := IndexOf(rows, id);
      rows := SetTitle(rows, id, title);
      assert rows[k].id == id;
      r := Ok(Find(rows, id));
    }

    /**
     * The update runs as a transaction: the closure works on a copy of the rows, which is
     * committed when it returns Ok and discarded when it returns Err.
     */
    method ChangeAllCompleted(c: bool, f: Fault) returns (r: Result<seq<Todo>, RepoErr>)
      requires Valid()
      modifies this
      ensures Outcome(Value(), r) == TodoSpec.ChangeAllCompleted(old(Value()), c, f)
      ensures Valid()
    {
      var tx;
      r, tx := CompleteAllIn(rows, c, f);
      if r.Ok? {
        rows := tx;
      }
    }

    /** Runs as a transaction, committed on Ok and discarded on Err, as ChangeAllCompleted. */
    method DeleteCompleted(f: Fault) returns (r: Result<seq<Todo>, RepoErr>)
      requires Valid()
      modifies this
      ensures Outcome(Value(), r) == TodoSpec.DeleteCompleted(old(Value()), f)
      ensures Valid()
    {
      var tx;
      r, tx := DeleteCompletedIn(rows, f);
      if r.Ok? {
        rows := tx;
      }
    }
  }

  /**
   * The closure change_all_completed runs inside its transaction, on the working copy `tx` of
   * the scanned rows: scan (request 0), then update each scanned row by key (request i + 1),
   * collecting the rows the updates return.
   */
  method CompleteAllIn(rows: seq<Todo>, c: bool, f: Fault) returns (r: Result<seq<Todo>, RepoErr>, tx: seq<Todo>)
    requires Ascending(rows)
    ensures r.Err? <==> f.FailAt? && f.request <= |rows|
    ensures r.Err? ==> r.error == EngineError
    ensures r.Ok? ==> r.value == tx == AllCompleted(rows, c)
  {
    tx := rows;
    if Rejects(f, 0) {
      return Err(EngineError), tx;
    }
    var todos := rows;
    var res: seq<Todo> := [];
    var i := 0;
    while i < |todos|
      invariant 0 <= i <= |todos|
      invariant res == AllCompleted(todos[..i], c)
      invariant tx == res + todos[i..]
      invariant f.FailAt? ==> f.request > i
    {
      if Rejects(f, i + 1) {
        return Err(EngineError), tx;
      }
      CompleteStep(todos, i, c);
      tx := SetCompleted(tx, todos[i].id, c);
      var updated := Find(tx, todos[i].id);
      res := res + [updated];
      i := i + 1;
    }
    assert todos[..i] == todos && tx == res;
    r := Ok(res);
  }

  /**
   * The closure delete_completed runs inside its transaction, on the working copy `tx` of the
   * scanned rows: scan (request 0), delete each completed row by key (request j + 1 for the
   * j-th), and return the scanned rows that were not completed.
   */
  method DeleteCompletedIn(rows: seq<Todo>, f: Fault) returns (r: Result<seq<Todo>, RepoErr>, tx: seq<Todo>)
    requires Ascending(rows)
    ensures r.Err? <==> f.FailAt? && f.request <= |Finished(rows)|
    ensures r.Err? ==> r.error == EngineError
    ensures r.Ok? ==> r.value == tx == Active(rows)
  {
    tx := rows;
    if Rejects(f, 0) {
      return Err(EngineError), tx;
    }
    var request := 1;
    var i := 0;
    while i < |rows|
      invariant 0 <= i <= |rows|
      invariant tx == Deleted(rows, i)
      invariant request == 1 + Sent(rows, i)
      invariant f.FailAt? ==> f.request >= request
    {
      if rows[i].completed {
        if Rejects(f, request) {
          DeletedSplit(rows, i + 1);
          r := Err(EngineError);
          break;
        }
        tx := Without(tx, rows[i].id);
        request := request + 1;
      }
      i := i + 1;
    }
    if i == |rows| {
      DeletedSplit(rows, i);
      assert rows[..i] == rows && rows[i..] == [];
      assert tx == Active(rows);
      r := Ok(tx);
    }
  }
}
