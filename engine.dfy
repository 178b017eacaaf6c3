/**
 * What the repository layer sees of the storage engine's failures, and the repository's own
 * error taxonomy. The error enum is declared in repo/mod.rs, which is not part of this model:
 * only the variants the repository code produces are kept, and every error the engine reports
 * is folded into one opaque variant.
 */
module Engine {

  datatype RepoErr =
    | EmptyTodoTitle
    | EmptyUserName
    | FieldNotExsist(field: string)
    | EngineError

  /**
   * The engine's behaviour during one repository call, supplied from outside because the
   * engine is not part of the model. Every select, insert, update and delete the call sends
   * to the engine is numbered from 0 in the order it is sent; `FailAt(k)` says the engine
   * rejects request number k (and the call stops there), `NoFault` that it accepts them all.
   */
  datatype Fault = NoFault | FailAt(request: nat)

  predicate Rejects(f: Fault, k: nat)
  {
    f.FailAt? && f.request == k
  }

  /** The same engine behaviour seen by a follow-up call made after `n` requests. */
  function After(f: Fault, n: nat): (g: Fault)
    ensures forall k: nat :: Rejects(g, k) <==> Rejects(f, k + n)
  {
    match f
    case NoFault => NoFault
    case FailAt(k) => if k >= n then FailAt(k - n) else NoFault
  }
}
