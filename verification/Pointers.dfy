/** Memory is modelled as pools of records: a pointer is an index into a pool. */
module Pointers {

  type Ptr = int

  /** The null pointer. */
  const NIL: Ptr := -1
}
