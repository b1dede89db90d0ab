/**
 * Properties of sequences of boundary calls: what the caller reads back after
 * constructing a value, and that a person does not depend on the address
 * handle it was built from.
 */
module FfiProperties {
  import opened Ints
  import opened Records
  import opened Handles
  import opened Ffi

  /**
   * Reading the texts of a freshly created address returns what was passed in,
   * each as a new box distinct from the address and from each other.
   */
  lemma AddressStringRoundTrip(hp: Heap, city: CStrings.CStr, postalCode: CStrings.CStr)
    requires Valid(hp)
    ensures var a := AddressCreate(hp, city, postalCode);
            var c := AddressGetCity(a.heap, Boxed(a.ptr.id));
            var p := AddressGetPostalCode(c.heap, Boxed(a.ptr.id));
            && p.heap.live[c.ptr.id] == StringBox(city)
            && p.heap.live[p.ptr.id] == StringBox(postalCode)
            && a.ptr != c.ptr && a.ptr != p.ptr && c.ptr != p.ptr
            && p.heap.live[a.ptr.id] == AddressBox(Address(city, postalCode))
  {
  }

  /**
   * Reading a freshly created person returns the colour given, as many scores
   * as the buffer supplied (none for a null pointer or zero length) in order,
   * the sentinel past the end, and the address that was borrowed.
   */
  lemma PersonReadBack(hp: Heap, favoriteColor: U8, scoresPtr: RawSlice, scoresLen: Usize,
                       address: AddrRef)
    requires Valid(hp) && FromOrdinal(favoriteColor).Some?
    requires Readable(scoresPtr, scoresLen) && RefLive(hp, address)
    ensures var r := PersonCreateWithAddress(hp, favoriteColor, scoresPtr, scoresLen, address);
            var count := if scoresPtr.NullPtr? || scoresLen == 0 then 0 else scoresLen;
            && PersonGetFavoriteColor(r.heap, r.ptr) == favoriteColor
            && PersonGetScoreCount(r.heap, r.ptr) == count
            && (forall i: Usize :: i < count ==> PersonGetScoreAt(r.heap, r.ptr, i) == scoresPtr.mem[i])
            && (forall i: Usize :: i >= count ==> PersonGetScoreAt(r.heap, r.ptr, i) == -1)
            && Deref(r.heap, PersonGetAddress(r.heap, r.ptr)) == Deref(hp, address)
  {
  }

  /**
   * A person clones the address it is built from: freeing the caller's
   * address handle afterwards leaves the person live with the same address,
   * its city still readable, and every other handle as it was.
   */
  lemma PersonOutlivesAddress(hp: Heap, favoriteColor: U8, scoresPtr: RawSlice, scoresLen: Usize,
                              address: Ptr)
    requires Valid(hp) && FromOrdinal(favoriteColor).Some?
    requires Readable(scoresPtr, scoresLen) && IsLiveAddress(hp, address)
    ensures var r := PersonCreateWithAddress(hp, favoriteColor, scoresPtr, scoresLen, Boxed(address.id));
            var h := AddressFree(r.heap, address);
            && StateOf(h, address.id) == Freed
            && IsLivePerson(h, r.ptr)
            && Deref(h, PersonGetAddress(h, r.ptr)) == hp.live[address.id].address
            && AddressGetCity(h, PersonGetAddress(h, r.ptr)).heap.live[AddressGetCity(h, PersonGetAddress(h, r.ptr)).ptr.id]
               == StringBox(hp.live[address.id].address.city)
            && (forall id :: id in hp.live && id != address.id ==> id in h.live && h.live[id] == hp.live[id])
  {
  }
}
