/** What every part of the model shares. */
module Common {
  /** Symbols are ordered as their ids are. */
  type Symbol = nat

  type Bytes = seq<nat>

  datatype Option<+T> = None | Some(value: T)

  /** The names the evaluator knows: the empty one, under which the evaluation cache files its
      root, `__overrides`, `__functor`, `type` and `outPath`. */
  const EPSILON: Symbol := 0
  const OVERRIDES: Symbol := 1
  const FUNCTOR: Symbol := 2
  const TYPE: Symbol := 3
  const OUT_PATH: Symbol := 4
}
