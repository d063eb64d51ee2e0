/** The invariant that ties the containers of the app's shared state
    together (src/context/AppContext.tsx:65-69): which objects they own and
    which orders each stage may hold. The predicates are over footprints
    and contents only, so they hold or fail independently of the heap. */
module Stages {
  import opened Domain

  /** The footprints of the kitchen list, the served list and the waiter
      ring share no object, and none of them holds the state object `app`,
      the queue or the history stack. */
  ghost predicate Separate(kitchen: set<object>, served: set<object>, ring: set<object>,
                           app: object, queue: object, changes: object)
  {
    && kitchen !! served && kitchen !! ring && served !! ring
    && app !in kitchen && app !in served && app !in ring
    && queue !in kitchen && queue !in served && queue !in ring
    && changes !in kitchen && changes !in served && changes !in ring
  }

  /** Each stage holds only orders of its own status: pending in the queue,
      in progress in the kitchen list, served in the served list. */
  ghost predicate Staged(pending: seq<Order>, kitchen: seq<Order>, served: seq<Order>)
  {
    && (forall o :: o in pending ==> o.status == Pending)
    && (forall o :: o in kitchen ==> o.status == InProgress)
    && (forall o :: o in served ==> o.status == Served)
  }
}
