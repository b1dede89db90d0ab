/**
 * The functions exported across the boundary. Pointers the caller passes in
 * are handles into the abstract heap; a `&Address` argument is a borrow of
 * either a boxed address or the address embedded in a live person.
 */
module Ffi {
  import opened Options
  import opened Ints
  import opened CStrings
  import opened Records
  import opened Handles

  /** A `&Address` as the caller can obtain one. */
  datatype AddrRef =
    | Boxed(id: nat)    // from `address_create`
    | InPerson(id: nat) // from `person_get_address`: the address embedded in a person

  /** A `*const i32` into the caller's memory: null, or the readable elements it points at. */
  datatype RawSlice = NullPtr | Buffer(mem: seq<Int32>)

  const PROCESSED_PREFIX: CStr := "Processed: "

  predicate IsLiveAddress(hp: Heap, p: Ptr) {
    p.Addr? && p.id in hp.live && hp.live[p.id].AddressBox?
  }

  predicate IsLivePerson(hp: Heap, p: Ptr) {
    p.Addr? && p.id in hp.live && hp.live[p.id].PersonBox?
  }

  predicate RefLive(hp: Heap, a: AddrRef) {
    match a
    case Boxed(id) => id in hp.live && hp.live[id].AddressBox?
    case InPerson(id) => id in hp.live && hp.live[id].PersonBox?
  }

  function Deref(hp: Heap, a: AddrRef): Address
    requires RefLive(hp, a)
  {
    match a
    case Boxed(id) => hp.live[id].address
    case InPerson(id) => hp.live[id].person.address
  }

  function PersonAt(hp: Heap, p: Ptr): Person
    requires IsLivePerson(hp, p)
  {
    hp.live[p.id].person
  }

  /** `slice::from_raw_parts(ptr, len)` is sound only when `len` elements are readable. */
  predicate Readable(ptr: RawSlice, len: Usize) {
    ptr.Buffer? && len > 0 ==> len <= |ptr.mem|
  }

  /**
   * The score vector built from a `(ptr, len)` pair: empty for a null pointer
   * or a zero length, otherwise the first `len` elements in order.
   */
  function ScoresFromRaw(ptr: RawSlice, len: Usize): (r: seq<Int32>)
    requires Readable(ptr, len)
    ensures |r| == (if ptr.NullPtr? then 0 else len)
    ensures forall i :: 0 <= i < |r| ==> r[i] == ptr.mem[i]
  {
    if ptr.NullPtr? || len == 0 then [] else ptr.mem[..len]
  }

  /** `address_create`: boxes a new address holding copies of both texts. */
  function AddressCreate(hp: Heap, city: CStr, postalCode: CStr): (r: Alloc)
    requires Valid(hp)
    ensures Valid(r.heap)
    ensures IsLiveAddress(r.heap, r.ptr) && StateOf(hp, r.ptr.id) == Unallocated
    ensures r.heap.live[r.ptr.id].address.GetCity() == city
    ensures r.heap.live[r.ptr.id].address.GetPostalCode() == postalCode
    ensures OthersUnchanged(hp, r.heap, r.ptr.id)
  {
    Allocate(hp, AddressBox(NewAddress(city, postalCode)))
  }

  /** `address_free`: null is a no-op; a live address is freed and nothing else changes. */
  function AddressFree(hp: Heap, ptr: Ptr): (r: Heap)
    requires Valid(hp)
    requires ptr.Null? || IsLiveAddress(hp, ptr)
    ensures Valid(r)
    ensures ptr.Null? ==> r == hp
    ensures ptr.Addr? ==> StateOf(r, ptr.id) == Freed && OthersUnchanged(hp, r, ptr.id)
  {
    if ptr.Null? then hp else Release(hp, ptr.id)
  }

  /**
   * `person_create_with_address`: boxes a person whose scores are copied from
   * the caller's buffer and whose address is a clone of the one borrowed. The
   * colour arrives as a `u8`; a byte that names no colour is an invalid enum
   * value, which the caller must not pass.
   */
  function PersonCreateWithAddress(hp: Heap, favoriteColor: U8, scoresPtr: RawSlice,
                                   scoresLen: Usize, address: AddrRef): (r: Alloc)
    requires Valid(hp)
    requires FromOrdinal(favoriteColor).Some?
    requires Readable(scoresPtr, scoresLen)
    requires RefLive(hp, address)
    ensures Valid(r.heap)
    ensures IsLivePerson(r.heap, r.ptr) && StateOf(hp, r.ptr.id) == Unallocated
    ensures Ordinal(PersonAt(r.heap, r.ptr).favoriteColor) == favoriteColor
    ensures PersonAt(r.heap, r.ptr).scores == ScoresFromRaw(scoresPtr, scoresLen)
    ensures PersonAt(r.heap, r.ptr).address == Deref(hp, address)
    ensures OthersUnchanged(hp, r.heap, r.ptr.id)
  {
    var scores := ScoresFromRaw(scoresPtr, scoresLen);
    var color := FromOrdinal(favoriteColor).Extract();
    Allocate(hp, PersonBox(NewPerson(color, scores, Deref(hp, address))))
  }

  /** `person_free`: null is a no-op; a live person is freed with everything it owns. */
  function PersonFree(hp: Heap, ptr: Ptr): (r: Heap)
    requires Valid(hp)
    requires ptr.Null? || IsLivePerson(hp, ptr)
    ensures Valid(r)
    ensures ptr.Null? ==> r == hp
    ensures ptr.Addr? ==> StateOf(r, ptr.id) == Freed && OthersUnchanged(hp, r, ptr.id)
  {
    if ptr.Null? then hp else Release(hp, ptr.id)
  }

  /** `person_get_favorite_color`: the colour crosses the boundary as its `u8` discriminant. */
  function PersonGetFavoriteColor(hp: Heap, person: Ptr): (r: U8)
    requires IsLivePerson(hp, person)
    ensures FromOrdinal(r) == Some(PersonAt(hp, person).GetFavoriteColor())
  {
    Ordinal(PersonAt(hp, person).GetFavoriteColor())
  }

  function PersonGetTotalScore(hp: Heap, person: Ptr): (r: Int32)
    requires IsLivePerson(hp, person)
    requires NoOverflow(PersonAt(hp, person).scores)
    ensures r == Sum(PersonAt(hp, person).scores)
  {
    PersonAt(hp, person).GetTotalScore()
  }

  /** `person_get_score_count`: exactly the indices below the count have a score. */
  function PersonGetScoreCount(hp: Heap, person: Ptr): (r: Usize)
    requires Valid(hp) && IsLivePerson(hp, person)
    ensures forall i: Usize :: i < r <==> PersonAt(hp, person).GetScoreAt(i).Some?
  {
    PersonAt(hp, person).GetScoreCount()
  }

  /** `person_get_score_at`: the stored score in range, the sentinel `-1` past the end. */
  function PersonGetScoreAt(hp: Heap, person: Ptr, index: Usize): (r: Int32)
    requires IsLivePerson(hp, person)
    ensures index < |PersonAt(hp, person).scores| ==> r == PersonAt(hp, person).scores[index]
    ensures index >= |PersonAt(hp, person).scores| ==> r == -1
  {
    PersonAt(hp, person).GetScoreAt(index).GetOr(-1)
  }

  /** `person_get_address`: a borrow of the address inside the person, not a new box. */
  function PersonGetAddress(hp: Heap, person: Ptr): (r: AddrRef)
    requires IsLivePerson(hp, person)
    ensures RefLive(hp, r)
    ensures Deref(hp, r) == PersonAt(hp, person).address
  {
    InPerson(person.id)
  }

  /** The `CString::new(..).unwrap()` of the getters: never panics on text stored through the boundary. */
  function ToCString(s: seq<char>): (r: CStr)
    requires NoNul(s)
    ensures r == s
  {
    CStringNew(s).Extract()
  }

  /** `address_get_city`: a freshly boxed copy of the city, owned by the caller. */
  function AddressGetCity(hp: Heap, address: AddrRef): (r: Alloc)
    requires Valid(hp) && RefLive(hp, address)
    ensures Valid(r.heap)
    ensures r.ptr.Addr? && StateOf(hp, r.ptr.id) == Unallocated && r.ptr.id in r.heap.live
    ensures r.heap.live[r.ptr.id] == StringBox(Deref(hp, address).GetCity())
    ensures RefLive(r.heap, address) && Deref(r.heap, address) == Deref(hp, address)
    ensures OthersUnchanged(hp, r.heap, r.ptr.id)
  {
    Allocate(hp, StringBox(ToCString(Deref(hp, address).GetCity())))
  }

  /** `address_get_postal_code`: a freshly boxed copy of the postal code, owned by the caller. */
  function AddressGetPostalCode(hp: Heap, address: AddrRef): (r: Alloc)
    requires Valid(hp) && RefLive(hp, address)
    ensures Valid(r.heap)
    ensures r.ptr.Addr? && StateOf(hp, r.ptr.id) == Unallocated && r.ptr.id in r.heap.live
    ensures r.heap.live[r.ptr.id] == StringBox(Deref(hp, address).GetPostalCode())
    ensures RefLive(r.heap, address) && Deref(r.heap, address) == Deref(hp, address)
    ensures OthersUnchanged(hp, r.heap, r.ptr.id)
  {
    Allocate(hp, StringBox(ToCString(Deref(hp, address).GetPostalCode())))
  }

  /** `process_string`: a freshly boxed "Processed: " followed by the input. */
  function ProcessString(hp: Heap, input: CStr): (r: Alloc)
    requires Valid(hp)
    ensures Valid(r.heap)
    ensures r.ptr.Addr? && StateOf(hp, r.ptr.id) == Unallocated && r.ptr.id in r.heap.live
    ensures r.heap.live[r.ptr.id].StringBox?
    ensures var text := r.heap.live[r.ptr.id].text;
      |text| == |PROCESSED_PREFIX| + |input|
      && text[..|PROCESSED_PREFIX|] == PROCESSED_PREFIX
      && text[|PROCESSED_PREFIX|..] == input
    ensures OthersUnchanged(hp, r.heap, r.ptr.id)
  {
    Allocate(hp, StringBox(ToCString(PROCESSED_PREFIX + input)))
  }
}
