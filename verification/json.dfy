/** JSON values as `JSON.parse` produces them. */
module Json {
  import opened Wrappers
  import opened AssocList

  /** A parsed JSON value. An object is an association list in property
      creation order; numbers are never inspected by the merge, so they are
      kept as mathematical reals. */
  datatype Value =
    | Null
    | Bool(b: bool)
    | Num(n: real)
    | Str(s: string)
    | Arr(items: seq<Value>)
    | Obj(members: Props)

  /** The own properties of an object, in creation order. */
  type Props = Entries<string, Value>

  /** A value `JSON.parse` can return: every object, at every depth, has
      unique property names. */
  predicate WellFormed(v: Value)
    decreases v
  {
    match v
    case Arr(items) => forall x | x in items :: WellFormed(x)
    case Obj(m) => UniqueKeys(m) && forall e | e in m :: WellFormed(e.1)
    case _ => true
  }

  /** Every property value in `p` is well formed. */
  predicate AllWellFormed(p: Props) {
    forall e | e in p :: WellFormed(e.1)
  }
}
