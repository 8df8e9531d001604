/** The vocabulary of the charm framework as the two Slurm charms use it:
    relation data scopes, deferral, unit status and optional values. */
module Ops {

  /** One scope of relation data: the key-value map of an application or of a unit. */
  type Bag = map<string, string>

  /** What an event handler did with its event: asked for re-delivery, or finished. */
  datatype Outcome = Deferred | Done

  datatype Option<+T> = None | Some(value: T)

  datatype Result<+T, +E> = Success(value: T) | Failure(error: E)

  /** A unit's workload status as shown to the operator. */
  datatype Status =
    | Unknown
    | Active(message: string)
    | Blocked(message: string)
    | Waiting(message: string)

  /** Python truthiness of `bag.get(key)`: the key is present and its value is not empty. */
  predicate Truthy(bag: Bag, key: string)
  {
    key in bag && bag[key] != ""
  }
}
