/**
 * The todo space as a value, and what each repository operation of tnt-server/src/repo/todo.rs
 * does to it. Rows are kept in primary-key (ascending id) order, which is the order in which a
 * full scan of the space returns them; `nextId` is the engine's auto-increment counter.
 */
module TodoSpec {
  import opened Base
  import opened Engine
  import FrontApp

  type Todo = FrontApp.Todo

  datatype Store = Store(rows: seq<Todo>, nextId: nat)

  /** The effect of one repository call on the store and what the call returns. */
  datatype Outcome<+T> = Outcome(store: Store, result: Result<T, RepoErr>)

  predicate Ascending(rows: seq<Todo>)
  {
    forall i, j :: 0 <= i < j < |rows| ==> rows[i].id < rows[j].id
  }

  /** Ids are unique and in scan order, every id was handed out by the counter, and fits u32. */
  predicate Valid(s: Store)
  {
    Ascending(s.rows) &&
    1 <= s.nextId <= MaxU32 + 1 &&
    forall i :: 0 <= i < |s.rows| ==> s.rows[i].id < s.nextId
  }

  predicate HasId(rows: seq<Todo>, id: U32)
  {
    exists i :: 0 <= i < |rows| && rows[i].id == id
  }

  /** Position of the first row with key `id`. */
  function IndexOf(rows: seq<Todo>, id: U32): (k: nat)
    requires HasId(rows, id)
    ensures k < |rows| && rows[k].id == id
    ensures forall j :: 0 <= j < k ==> rows[j].id != id
  {
    if rows[0].id == id then 0
    else
      assert HasId(rows[1..], id) by {
        var i :| 0 <= i < |rows| && rows[i].id == id;
        assert rows[1..][i - 1].id == id;
      }
      1 + IndexOf(rows[1..], id)
  }

  /** The row the engine returns for key `id`. */
  function Find(rows: seq<Todo>, id: U32): (t: Todo)
    requires HasId(rows, id)
    ensures t in rows && t.id == id
  {
    rows[IndexOf(rows, id)]
  }

  /** In a space with unique keys the row with key `id` is the one at any position holding it. */
  lemma FindAt(rows: seq<Todo>, k: nat)
    requires Ascending(rows) && k < |rows|
    ensures HasId(rows, rows[k].id) && Find(rows, rows[k].id) == rows[k]
  {

  }

  /** The rows of a scan that satisfy `keep`, in scan order. */
  function Filter(rows: seq<Todo>, keep: Todo -> bool): (r: seq<Todo>)
    ensures |r| <= |rows|
  {
    if rows == [] then []
    else (if keep(rows[0]) then [rows[0]] else []) + Filter(rows[1..], keep)
  }

  /** A row is kept exactly when it is in the scan and satisfies the condition. */
  lemma {:induction false} FilterMembers(rows: seq<Todo>, keep: Todo -> bool)
    ensures forall t :: t in Filter(rows, keep) <==> t in rows && keep(t)
  {
    if rows != [] {
      FilterMembers(rows[1..], keep);
      assert forall t :: t in rows <==> t == rows[0] || t in rows[1..];
    }
  }

  function OtherThan(id: U32): Todo -> bool
  {
    (t: Todo) => t.id != id
  }

  const IsActive: Todo -> bool := (t: Todo) => !t.completed

  const IsFinished: Todo -> bool := (t: Todo) => t.completed

  /** The scan without the row keyed `id`. */
  function Without(rows: seq<Todo>, id: U32): seq<Todo>
  {
    Filter(rows, OtherThan(id))
  }

  /** Rows not marked completed. */
  function Active(rows: seq<Todo>): seq<Todo>
  {
    Filter(rows, IsActive)
  }

  /** Rows marked completed. */
  function Finished(rows: seq<Todo>): seq<Todo>
  {
    Filter(rows, IsFinished)
  }

  /** Field 2 (`completed`) of the row with key `id` set to `c`. */
  function SetCompleted(rows: seq<Todo>, id: U32, c: bool): seq<Todo>
  {
    seq(|rows|, i requires 0 <= i < |rows| =>
      if rows[i].id == id then rows[i].(completed := c) else rows[i])
  }

  /** Field 1 (`title`) of the row with key `id` set to `title`. */
  function SetTitle(rows: seq<Todo>, id: U32, title: string): seq<Todo>
  {
    seq(|rows|, i requires 0 <= i < |rows| =>
      if rows[i].id == id then rows[i].(title := title) else rows[i])
  }

  /** Every row with field 2 set to `c`. */
  function AllCompleted(rows: seq<Todo>, c: bool): seq<Todo>
  {
    seq(|rows|, i requires 0 <= i < |rows| => rows[i].(completed := c))
  }

  // ---------------------------------------------------------------------------------------
  // Lemmas about filtering a scan
  // ---------------------------------------------------------------------------------------

  lemma {:induction false} FilterAscending(rows: seq<Todo>, keep: Todo -> bool)
    requires Ascending(rows)
    ensures Ascending(Filter(rows, keep))
  {
    if rows != [] {
      FilterAscending(rows[1..], keep);
      FilterMembers(rows[1..], keep);
      var tail := Filter(rows[1..], keep);
      forall t | t in tail
        ensures rows[0].id < t.id
      {
        var m :| 0 <= m < |rows[1..]| && rows[1..][m] == t;
        assert rows[m + 1] == t;
      }
      var r := Filter(rows, keep);
      if keep(rows[0]) {
        assert r == [rows[0]] + tail;
        forall i, j | 0 <= i < j < |r|
          ensures r[i].id < r[j].id
        {
          if i == 0 {
            assert r[j] == tail[j - 1] && r[j] in tail;
          } else {
            assert r[i] == tail[i - 1] && r[j] == tail[j - 1];
          }
        }
      } else {
        assert r == tail;
      }
    }
  }

  lemma {:induction false} FilterAppend(a: seq<Todo>, b: seq<Todo>, keep: Todo -> bool)
    ensures Filter(a + b, keep) == Filter(a, keep) + Filter(b, keep)
  {
    if a == [] {
      assert a + b == b;
    } else {
      var head := if keep(a[0]) then [a[0]] else [];
      assert (a + b)[0] == a[0] && (a + b)[1..] == a[1..] + b;
      FilterAppend(a[1..], b, keep);
      assert Filter(a + b, keep) == head + Filter(a[1..] + b, keep);
      assert Filter(a, keep) == head + Filter(a[1..], keep);
    }
  }

  lemma {:induction false} FilterKeepsAll(rows: seq<Todo>, keep: Todo -> bool)
    requires forall i :: 0 <= i < |rows| ==> keep(rows[i])
    ensures Filter(rows, keep) == rows
  {
    if rows != [] {
      FilterKeepsAll(rows[1..], keep);
    }
  }

  /** Splitting a scan by a condition and by its negation loses and duplicates nothing. */
  lemma {:induction false} FilterSplit(rows: seq<Todo>, keep: Todo -> bool, drop: Todo -> bool)
    requires forall t :: drop(t) == !keep(t)
    ensures |Filter(rows, keep)| + |Filter(rows, drop)| == |rows|
  {
    if rows != [] {
      FilterSplit(rows[1..], keep, drop);
    }
  }

  lemma ActiveFinishedSplit(rows: seq<Todo>)
    ensures |Active(rows)| + |Finished(rows)| == |rows|
  {
    FilterSplit(rows, IsActive, IsFinished);
  }

  // ---------------------------------------------------------------------------------------
  // The repository operations
  // ---------------------------------------------------------------------------------------

  /**
   * create_todo: an empty title is refused before the engine is touched; otherwise one insert
   * with an engine-assigned id and `completed == false`. Titles need not be unique, and a
   * title of blanks is not empty. An id beyond the u32 range is taken as an engine error.
   */
  function CreateTodo(s: Store, title: string, f: Fault): (r: Outcome<Todo>)
    ensures r.result == Err(EmptyTodoTitle) <==> title == ""
    ensures r.result.Ok? <==> title != "" && !Rejects(f, 0) && s.nextId <= MaxU32
    ensures r.result.Err? ==> r.store == s
    ensures r.result.Ok? ==>
      var t := r.result.value;
      t.title == title && !t.completed && t.id == s.nextId &&
      r.store.rows == s.rows + [t] && r.store.nextId == s.nextId + 1
    ensures Valid(s) && r.result.Ok? ==> !HasId(s.rows, r.result.value.id)
    ensures Valid(s) ==> Valid(r.store)
  {
    if title == "" then Outcome(s, Err(EmptyTodoTitle))
    else if Rejects(f, 0) || s.nextId > MaxU32 then Outcome(s, Err(EngineError))
    else
      var t := FrontApp.Todo(s.nextId, title, false);
      Outcome(Store(s.rows + [t], s.nextId + 1), Ok(t))
  }

  /**
   * delete_todo: one delete by key, returning the row as it was. An absent key makes the
   * source unwrap `None` and panic, so presence is required unless the engine fails first.
   */
  function DeleteTodo(s: Store, id: U32, f: Fault): (r: Outcome<Todo>)
    requires Rejects(f, 0) || HasId(s.rows, id)
    ensures r.result.Err? <==> Rejects(f, 0)
    ensures r.result.Err? ==> r.store == s && r.result.error == EngineError
    ensures r.result.Ok? ==>
      r.result.value in s.rows && r.result.value.id == id &&
      !HasId(r.store.rows, id) && r.store.nextId == s.nextId &&
      forall t :: t in r.store.rows <==> t in s.rows && t.id != id
    ensures Valid(s) ==> Valid(r.store)
  {
    if Rejects(f, 0) then Outcome(s, Err(EngineError))
    else
      assert Valid(s) ==> Ascending(Without(s.rows, id)) by {
        if Valid(s) { FilterAscending(s.rows, OtherThan(id)); }
      }
      var w := Without(s.rows, id);
      FilterMembers(s.rows, OtherThan(id));
      assert !HasId(w, id) by {
        forall i | 0 <= i < |w| ensures w[i].id != id { assert w[i] in w; }
      }
      Outcome(Store(Without(s.rows, id), s.nextId), Ok(Find(s.rows, id)))
  }

  /** list_todos: one full scan in key order; nothing changes. */
  function ListTodos(s: Store, f: Fault): (r: Outcome<seq<Todo>>)
    ensures r.store == s
    ensures r.result.Ok? <==> !Rejects(f, 0)
    ensures r.result.Ok? ==> r.result.value == s.rows
    ensures r.result.Err? ==> r.result.error == EngineError
  {
    if Rejects(f, 0) then Outcome(s, Err(EngineError)) else Outcome(s, Ok(s.rows))
  }

  /** change_completed: field 2 of the row with key `id` becomes `c`; the updated row is returned. */
  function ChangeCompleted(s: Store, id: U32, c: bool, f: Fault): (r: Outcome<Todo>)
    requires Rejects(f, 0) || HasId(s.rows, id)
    ensures r.result.Err? <==> Rejects(f, 0)
    ensures r.result.Err? ==> r.store == s && r.result.error == EngineError
    ensures r.result.Ok? ==>
      var old_row := Find(s.rows, id);
      r.result.value == FrontApp.Todo(id, old_row.title, c) &&
      r.result.value in r.store.rows &&
      r.store.nextId == s.nextId && |r.store.rows| == |s.rows| &&
      forall i :: 0 <= i < |s.rows| ==>
        r.store.rows[i].id == s.rows[i].id && r.store.rows[i].title == s.rows[i].title &&
        r.store.rows[i].completed == (if s.rows[i].id == id then c else s.rows[i].completed)
    ensures Valid(s) ==> Valid(r.store)
  {
    if Rejects(f, 0) then Outcome(s, Err(EngineError))
    else
      var rows := SetCompleted(s.rows, id, c);
      assert HasId(rows, id) by { assert rows[IndexOf(s.rows, id)].id == id; }
      assert IndexOf(rows, id) == IndexOf(s.rows, id) by {
        var a, b := IndexOf(rows, id), IndexOf(s.rows, id);
        assert rows[b].id == id && s.rows[a].id == id;
        assert !(a < b) && !(b < a);
      }
      Outcome(Store(rows, s.nextId), Ok(Find(rows, id)))
  }

  /**
   * change_title: field 1 of the row with key `id` becomes `title`; unlike create_todo an
   * empty title is accepted.
   */
  function ChangeTitle(s: Store, id: U32, title: string, f: Fault): (r: Outcome<Todo>)
    requires Rejects(f, 0) || HasId(s.rows, id)
    ensures r.result.Err? <==> Rejects(f, 0)
    ensures r.result.Err? ==> r.store == s && r.result.error == EngineError
    ensures r.result.Ok? ==>
      var old_row := Find(s.rows, id);
      r.result.value == FrontApp.Todo(id, title, old_row.completed) &&
      r.result.value in r.store.rows &&
      r.store.nextId == s.nextId && |r.store.rows| == |s.rows| &&
      forall i :: 0 <= i < |s.rows| ==>
        r.store.rows[i].id == s.rows[i].id && r.store.rows[i].completed == s.rows[i].completed &&
        r.store.rows[i].title == (if s.rows[i].id == id then title else s.rows[i].title)
    ensures Valid(s) ==> Valid(r.store)
  {
    if Rejects(f, 0) then Outcome(s, Err(EngineError))
    else
      var rows := SetTitle(s.rows, id, title);
      assert HasId(rows, id) by { assert rows[IndexOf(s.rows, id)].id == id; }
      assert IndexOf(rows, id) == IndexOf(s.rows, id) by {
        var a, b := IndexOf(rows, id), IndexOf(s.rows, id);
        assert rows[b].id == id && s.rows[a].id == id;
        assert !(a < b) && !(b < a);
      }
      Outcome(Store(rows, s.nextId), Ok(Find(rows, id)))
  }

  /**
   * change_all_completed, one transaction: a scan (request 0), then one update per scanned row
   * (request i + 1 for row i). Any rejected request rolls everything back.
   */
  function ChangeAllCompleted(s: Store, c: bool, f: Fault): (r: Outcome<seq<Todo>>)
    ensures r.result.Err? <==> f.FailAt? && f.request <= |s.rows|
    ensures r.result.Err? ==> r.store == s && r.result.error == EngineError
    ensures r.result.Ok? ==>
      r.store == Store(r.result.value, s.nextId) && |r.result.value| == |s.rows| &&
      forall i :: 0 <= i < |s.rows| ==>
        r.result.value[i] == FrontApp.Todo(s.rows[i].id, s.rows[i].title, c)
    ensures Valid(s) ==> Valid(r.store)
  {
    if f.FailAt? && f.request <= |s.rows| then Outcome(s, Err(EngineError))
    else
      var rows := AllCompleted(s.rows, c);
      Outcome(Store(rows, s.nextId), Ok(rows))
  }

  /**
   * delete_completed, one transaction: a scan (request 0), then one delete per completed row
   * (request j + 1 for the j-th completed row). Returns the rows left, in scan order; any
   * rejected request rolls everything back.
   */
  function DeleteCompleted(s: Store, f: Fault): (r: Outcome<seq<Todo>>)
    ensures r.result.Err? <==> f.FailAt? && f.request <= |Finished(s.rows)|
    ensures r.result.Err? ==> r.store == s && r.result.error == EngineError
    ensures r.result.Ok? ==>
      r.store == Store(r.result.value, s.nextId) &&
      |r.result.value| == |s.rows| - |Finished(s.rows)| &&
      forall t :: t in r.result.value <==> t in s.rows && !t.completed
    ensures Valid(s) ==> Valid(r.store)
  {
    if f.FailAt? && f.request <= |Finished(s.rows)| then Outcome(s, Err(EngineError))
    else
      ActiveFinishedSplit(s.rows);
      FilterMembers(s.rows, IsActive);
      assert Valid(s) ==> Ascending(Active(s.rows)) by {
        if Valid(s) { FilterAscending(s.rows, IsActive); }
      }
      var rows := Active(s.rows);
      Outcome(Store(rows, s.nextId), Ok(rows))
  }

  // ---------------------------------------------------------------------------------------
  // Properties relating several calls
  // ---------------------------------------------------------------------------------------

  /** Successive create_todo calls with no engine failure; the todos they return, in order. */
  function CreateEach(s: Store, titles: seq<string>): (Store, seq<Todo>)
    decreases |titles|
  {
    if titles == [] then (s, [])
    else
      var o := CreateTodo(s, titles[0], NoFault);
      var (last, rest) := CreateEach(o.store, titles[1..]);
      (last, (if o.result.Ok? then [o.result.value] else []) + rest)
  }

  /**
   * Creating todos with non-empty titles and then listing yields the earlier rows followed by
   * exactly the created todos, in creation order, with consecutive fresh ids, each not completed.
   */
  lemma {:induction false} CreateEachThenList(s: Store, titles: seq<string>)
    requires Valid(s)
    requires forall i :: 0 <= i < |titles| ==> titles[i] != ""
    requires s.nextId + |titles| <= MaxU32 + 1
    ensures var (last, created) := CreateEach(s, titles);
      ListTodos(last, NoFault).result == Ok(s.rows + created) &&
      Valid(last) && |created| == |titles| &&
      forall i :: 0 <= i < |titles| ==>
        created[i] == FrontApp.Todo(s.nextId + i, titles[i], false)
    decreases |titles|
  {
    if titles != [] {
      var o := CreateTodo(s, titles[0], NoFault);
      assert o.result.Ok?;
      CreateEachThenList(o.store, titles[1..]);
      var (last, rest) := CreateEach(o.store, titles[1..]);
      assert CreateEach(s, titles) == (last, [o.result.value] + rest);
      assert o.store.rows + rest == s.rows + ([o.result.value] + rest);
      forall i | 1 <= i < |titles|
        ensures titles[1..][i - 1] == titles[i]
      {
      }
    } else {
      assert s.rows + [] == s.rows;
    }
  }

  /** In particular, in an empty space the listing is exactly what was created. */
  lemma CreateInEmptyThenList(titles: seq<string>)
    requires forall i :: 0 <= i < |titles| ==> titles[i] != ""
    requires 1 + |titles| <= MaxU32 + 1
    ensures var (last, created) := CreateEach(Store([], 1), titles);
      ListTodos(last, NoFault).result == Ok(created)
  {
    CreateEachThenList(Store([], 1), titles);
    var (last, created) := CreateEach(Store([], 1), titles);
    assert [] + created == created;
  }

  /** change_all_completed is idempotent: a second call with the same flag changes nothing. */
  lemma ChangeAllTwice(s: Store, c: bool)
    ensures var once := ChangeAllCompleted(s, c, NoFault);
      ChangeAllCompleted(once.store, c, NoFault) == once
  {
    var once := ChangeAllCompleted(s, c, NoFault);
    assert AllCompleted(once.store.rows, c) == once.store.rows;
  }

  /**
   * delete_completed is idempotent: once the completed rows are gone, a second call deletes
   * nothing and returns the same rows.
   */
  lemma DeleteCompletedTwice(s: Store)
    ensures var once := DeleteCompleted(s, NoFault);
      DeleteCompleted(once.store, NoFault) == once
  {
    var rows := Active(s.rows);
    FilterMembers(s.rows, IsActive);
    forall i | 0 <= i < |rows|
      ensures IsActive(rows[i])
    {
      assert rows[i] in rows;
    }
    FilterKeepsAll(rows, IsActive);
  }
}
