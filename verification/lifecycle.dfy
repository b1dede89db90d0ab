/**
 * The handle lifecycle over whole call sequences. A call is enabled only when
 * its FFI function's precondition holds: the pointers it dereferences are live
 * (null where the source allows it), its colour byte decodes, and a total-score
 * read does not overflow. A sequence with a disabled call is a caller contract
 * violation and yields no heap. Over any permitted sequence each handle only moves forward along
 * Unallocated -> Live -> Freed, so no handle is freed twice or revived.
 */
module Lifecycle {
  import opened Options
  import opened Ints
  import opened CStrings
  import opened Records
  import opened Handles
  import opened Ffi

  /** One call across the boundary, with its arguments. */
  datatype Call =
    | CreateAddress(city: CStr, postalCode: CStr)
    | FreeAddress(ptr: Ptr)
    | CreatePerson(favoriteColor: U8, scoresPtr: RawSlice, scoresLen: Usize, address: AddrRef)
    | FreePerson(ptr: Ptr)
    | ReadPerson(person: Ptr)          // the colour, count, score-at and address getters
    | ReadTotalScore(person: Ptr)      // `person_get_total_score`
    | GetCity(address: AddrRef)
    | GetPostalCode(address: AddrRef)
    | Process(input: CStr)

  /** The caller's side of each call's contract. */
  predicate Enabled(hp: Heap, call: Call) {
    match call
    case CreateAddress(_, _) => true
    case FreeAddress(ptr) => ptr.Null? || IsLiveAddress(hp, ptr)
    case CreatePerson(favoriteColor, scoresPtr, scoresLen, address) =>
      FromOrdinal(favoriteColor).Some? && Readable(scoresPtr, scoresLen) && RefLive(hp, address)
    case FreePerson(ptr) => ptr.Null? || IsLivePerson(hp, ptr)
    case ReadPerson(person) => IsLivePerson(hp, person)
    case ReadTotalScore(person) => IsLivePerson(hp, person) && NoOverflow(PersonAt(hp, person).scores)
    case GetCity(address) => RefLive(hp, address)
    case GetPostalCode(address) => RefLive(hp, address)
    case Process(_) => true
  }

  /** The handle a call frees, if it frees one. */
  function FreedBy(call: Call): Option<nat> {
    match call
    case FreeAddress(Addr(id)) => Some(id)
    case FreePerson(Addr(id)) => Some(id)
    case _ => None
  }

  /** The heap after one enabled call; every handle advances at most one step. */
  function Apply(hp: Heap, call: Call): (r: Heap)
    requires Valid(hp) && Enabled(hp, call)
    ensures Valid(r)
    ensures forall id :: Advances(StateOf(hp, id), StateOf(r, id))
    ensures FreedBy(call).Some? ==> (StateOf(hp, FreedBy(call).value) == Live && StateOf(r, FreedBy(call).value) == Freed)
  {
    match call
    case CreateAddress(city, postalCode) => AddressCreate(hp, city, postalCode).heap
    case FreeAddress(ptr) => AddressFree(hp, ptr)
    case CreatePerson(favoriteColor, scoresPtr, scoresLen, address) =>
      PersonCreateWithAddress(hp, favoriteColor, scoresPtr, scoresLen, address).heap
    case FreePerson(ptr) => PersonFree(hp, ptr)
    case ReadPerson(_) => hp
    case ReadTotalScore(_) => hp
    case GetCity(address) => AddressGetCity(hp, address).heap
    case GetPostalCode(address) => AddressGetPostalCode(hp, address).heap
    case Process(input) => ProcessString(hp, input).heap
  }

  /** Runs the calls in order; `None` when some call's contract is violated. */
  function Run(hp: Heap, calls: seq<Call>): (r: Option<Heap>)
    requires Valid(hp)
    ensures r.Some? ==> Valid(r.value)
    ensures r.Some? ==> forall id :: Rank(StateOf(hp, id)) <= Rank(StateOf(r.value, id))
    decreases |calls|
  {
    if calls == [] then Some(hp)
    else if !Enabled(hp, calls[0]) then None
    else Run(Apply(hp, calls[0]), calls[1..])
  }

  /** A handle that is freed stays freed, and no later permitted call frees it again. */
  lemma {:induction false} FreedStaysFreed(hp: Heap, calls: seq<Call>, id: nat, j: nat)
    requires Valid(hp) && StateOf(hp, id) == Freed && Run(hp, calls).Some?
    requires j < |calls|
    ensures FreedBy(calls[j]) != Some(id)
    decreases j
  {
    var h1 := Apply(hp, calls[0]);
    assert Run(h1, calls[1..]).Some?;
    if j > 0 {
      assert StateOf(h1, id) == Freed;
      FreedStaysFreed(h1, calls[1..], id, j - 1);
      assert calls[j] == calls[1..][j - 1];
    }
  }

  /** Over any permitted call sequence, the calls at positions `i < j` do not free the same handle. */
  lemma {:induction false} NoDoubleFree(hp: Heap, calls: seq<Call>, i: nat, j: nat)
    requires Valid(hp) && Run(hp, calls).Some?
    requires i < j < |calls| && FreedBy(calls[i]).Some?
    ensures FreedBy(calls[j]) != FreedBy(calls[i])
    decreases i
  {
    var h1 := Apply(hp, calls[0]);
    assert Run(h1, calls[1..]).Some?;
    assert calls[j] == calls[1..][j - 1];
    if i == 0 {
      FreedStaysFreed(h1, calls[1..], FreedBy(calls[0]).value, j - 1);
    } else {
      assert calls[i] == calls[1..][i - 1];
      NoDoubleFree(h1, calls[1..], i - 1, j - 1);
    }
  }
}
