/**
 * An abstract heap for the boxes handed across the boundary. A raw pointer is
 * null or the id of a box; each id goes Unallocated -> Live -> Freed. Freed ids
 * are remembered so that the model never reissues them.
 */
module Handles {
  import opened Ints
  import opened CStrings
  import opened Records

  /** A raw pointer as the caller holds it. */
  datatype Ptr = Null | Addr(id: nat)

  /** What a box at some id holds. */
  datatype Record =
    | AddressBox(address: Address)
    | PersonBox(person: Person)
    | StringBox(text: seq<char>)

  datatype Heap = Heap(live: map<nat, Record>, freed: set<nat>, next: nat)

  /** A freshly boxed value and the pointer to it. */
  datatype Alloc = Alloc(heap: Heap, ptr: Ptr)

  datatype HandleState = Unallocated | Live | Freed

  function StateOf(hp: Heap, id: nat): HandleState {
    if id in hp.live then Live else if id in hp.freed then Freed else Unallocated
  }

  /** Position of a state along the only path a handle may take. */
  function Rank(s: HandleState): nat {
    match s
    case Unallocated => 0
    case Live => 1
    case Freed => 2
  }

  /** One call moves a handle at most one step along Unallocated -> Live -> Freed. */
  predicate Advances(s: HandleState, s': HandleState) {
    s == s' || (s == Unallocated && s' == Live) || (s == Live && s' == Freed)
  }

  predicate AddressWellFormed(a: Address) {
    NoNul(a.city) && NoNul(a.postalCode)
  }

  /**
   * What every box built through the boundary satisfies: its text came from C
   * strings, and a score vector's length came from a `usize`.
   */
  predicate WellFormed(r: Record) {
    match r
    case AddressBox(a) => AddressWellFormed(a)
    case PersonBox(p) => AddressWellFormed(p.address) && |p.scores| < USIZE_LIMIT
    case StringBox(t) => NoNul(t)
  }

  predicate Valid(hp: Heap) {
    && hp.live.Keys !! hp.freed
    && (forall id :: id in hp.live ==> id < hp.next && WellFormed(hp.live[id]))
    && (forall id :: id in hp.freed ==> id < hp.next)
  }

  /** No handle other than `except` changes state or contents. */
  ghost predicate OthersUnchanged(hp: Heap, hp': Heap, except: nat) {
    forall id :: id != except ==>
      && StateOf(hp', id) == StateOf(hp, id)
      && (id in hp.live ==> id in hp'.live && hp'.live[id] == hp.live[id])
  }

  /** The heap before any call: nothing allocated. */
  function EmptyHeap(): (hp: Heap)
    ensures Valid(hp)
    ensures forall id :: StateOf(hp, id) == Unallocated
  {
    Heap(map[], {}, 0)
  }

  /** `Box::into_raw(Box::new(rec))`: a non-null pointer to a box no handle has used before. */
  function Allocate(hp: Heap, rec: Record): (r: Alloc)
    requires Valid(hp) && WellFormed(rec)
    ensures Valid(r.heap)
    ensures r.ptr.Addr?
    ensures StateOf(hp, r.ptr.id) == Unallocated && StateOf(r.heap, r.ptr.id) == Live
    ensures r.heap.live[r.ptr.id] == rec
    ensures OthersUnchanged(hp, r.heap, r.ptr.id)
  {
    Alloc(Heap(hp.live[hp.next := rec], hp.freed, hp.next + 1), Addr(hp.next))
  }

  /** `drop(Box::from_raw(ptr))`: the box and everything it owns are released. */
  function Release(hp: Heap, id: nat): (r: Heap)
    requires Valid(hp) && id in hp.live
    ensures Valid(r)
    ensures StateOf(r, id) == Freed
    ensures OthersUnchanged(hp, r, id)
  {
    Heap(hp.live - {id}, hp.freed + {id}, hp.next)
  }
}
