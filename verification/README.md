# safer-ffi example: record layer and handle lifecycle in Dafny

This project models the record layer of a Rust library. The library exposes its records to a C-ABI caller through `safer_ffi`. It has three parts:

- **Value types.** `Color` is a `#[repr(u8)]` enum with the fixed ordinals Red=0, Green=1, Blue=2. `Address` holds two owned strings. `Person` holds a colour, a `Vec<i32>` of scores and an `Address` embedded by value.
- **Accessors.** The Rust methods on these values and the exported getters: colour, score count, total score, the bounds-checked score read with its `-1` sentinel, the embedded address, and the city and postal-code getters. Each string getter hands the caller a freshly boxed copy. `process_string` is modelled too.
- **Handle lifecycle.** `address_create` and `person_create_with_address` box a value and return a raw pointer. `address_free` and `person_free` drop the box, and a null pointer is a no-op.

How the model represents these:

- **Raw pointers.** A raw pointer is `Ptr = Null | Addr(id)`, an id into an abstract heap (`Handles.Heap`). The heap holds a map of live boxes, the set of freed ids and the next unused id. Every id moves along `Unallocated -> Live -> Freed`.
- **`&Address` borrows.** A borrow is `AddrRef`. It points either at a boxed address or at the address embedded in a live person, because `person_get_address` returns a borrow into the person.
- **The caller's score buffer.** The `(scores_ptr, scores_len)` pair is a `RawSlice`, either null or the caller memory it points at, together with a `usize` length.
- **Strings.** C strings are `seq<char>` that contain no NUL (`CStrings.CStr`).
- **Pure calls.** Every exported function is a pure function of the heap; those that allocate or free return the new heap. Heap invariants and "nothing else changes" frame conditions are stated in each contract.

Modules: `Options`, `Ints` (the `u8`, `i32` and `usize` types and `i32` wrap-around), `CStrings`, `Records` (the value types and their `impl` methods), `Handles` (the abstract heap), `Ffi` (the `#[ffi_export]` functions), `FfiProperties` (round-trips and clone independence), `Lifecycle` (whole call sequences).

The exported getters take `&Person` or `&Address`, which `safer_ffi` passes as non-null references, so the model requires a live handle for every getter; only the two free functions accept null. The colour crosses the boundary as its `u8` discriminant: `person_create_with_address` receives one and `person_get_favorite_color` returns one.

## Model

| member | source | states |
|---|---|---|
| Records.Ordinal | src/lib.rs:8-12 | Each colour's published `u8` ordinal is fixed: 0 exactly for Red, 1 exactly for Green, 2 exactly for Blue. |
| Records.FromOrdinal | src/lib.rs:5-12 | A discriminant names a colour exactly when it is 0, 1 or 2, and the colour it names has that ordinal. |
| Records.OrdinalRoundTrip | src/lib.rs:8-12 | Encoding a colour as its ordinal and decoding it gives back the same colour. |
| Records.NewAddress | src/lib.rs:24-37 | `Address::new` stores both texts, so `get_city` and `get_postal_code` return exactly what was passed in. |
| Records.CheckedFold | src/lib.rs:67-69 | The overflow-checked left fold of `iter().sum()` returns the start value plus the exact sum, whenever no running total leaves the `i32` range (the debug-build panic condition). |
| Records.WrappingFold | src/lib.rs:67-69 | The release-build wrapping fold returns the exact sum reduced to a two's-complement `i32`, even when intermediate totals overflow. |
| Records.Person.GetTotalScore | src/lib.rs:67-69 | The total score equals the sum of the stored scores, provided no running total of the summation leaves the `i32` range (the debug-build panic condition). |
| Records.Person.GetTotalScoreWrapping | src/lib.rs:67-69 | In a release build, the total is the exact sum wrapped to 32 bits, and equals the exact sum whenever that fits. |
| Records.TotalScoreModesAgree | src/lib.rs:67-69 | When the debug build does not panic, the release build returns the same total. |
| Records.Person.GetScoreAt | src/lib.rs:77-83 | `get_score_at(i)` is `Some(scores[i])` exactly when `i` is below the score count, and `None` otherwise. |
| Records.NewPerson | src/lib.rs:53-88 | After `Person::new`, the getters return the given colour and address, the given number of scores, each index's score in order, and `None` past the end. |
| CStrings.CStringNew | src/lib.rs:174-175 | `CString::new` succeeds exactly when the text has no NUL character, and then keeps the same characters. |
| Handles.EmptyHeap | src/lib.rs:94-139 | Before any call the heap satisfies its invariant and no handle has been allocated. |
| Handles.Allocate | src/lib.rs:96-97 | `Box::into_raw` returns a non-null handle that was never allocated before, now live with the given contents, and every other handle is unchanged. |
| Handles.Release | src/lib.rs:104-106 | `Box::from_raw` followed by a drop moves a live handle to freed and leaves every other handle unchanged. |
| Ffi.ScoresFromRaw | src/lib.rs:118-125 | The copied score vector is empty for a null pointer or a zero length; otherwise it has exactly `scores_len` elements, equal to the caller's buffer element by element and in order. |
| Ffi.AddressCreate | src/lib.rs:95-98 | `address_create` returns a previously unallocated live address whose city and postal code are the given texts; no other handle changes. |
| Ffi.AddressFree | src/lib.rs:102-108 | `address_free(null)` leaves the heap untouched; on a live address it frees that handle and changes no other handle. |
| Ffi.PersonCreateWithAddress | src/lib.rs:112-129 | `person_create_with_address` returns a new live person. Its colour is the one the given `u8` discriminant names, its scores are the copied buffer, and its address equals the borrowed address (a clone). No other handle changes. |
| Ffi.PersonFree | src/lib.rs:133-139 | `person_free(null)` leaves the heap untouched; on a live person it frees that handle and changes no other handle. |
| Ffi.PersonGetFavoriteColor | src/lib.rs:143-145 | `person_get_favorite_color` returns a `u8` discriminant that decodes to the person's stored colour. |
| Ffi.PersonGetScoreCount | src/lib.rs:155-157 | `person_get_score_count` returns the count below which, and only below which, the bounds-checked read yields a score. |
| Ffi.PersonGetTotalScore | src/lib.rs:149-151 | `person_get_total_score` returns the sum of the person's stored scores when no running total of the summation leaves the `i32` range (the debug-build panic condition). |
| Ffi.PersonGetScoreAt | src/lib.rs:161-163 | `person_get_score_at` returns the stored score for an in-range index and `-1` for any index at or past the count, for every `usize` index. |
| Ffi.PersonGetAddress | src/lib.rs:167-169 | `person_get_address` returns a live borrow whose referent is the address embedded in the person. |
| Ffi.ToCString | src/lib.rs:174 | The `CString::new(..).unwrap()` in the getters never panics on text stored through the boundary, and it keeps that text. |
| Ffi.AddressGetCity | src/lib.rs:173-176 | `address_get_city` returns a newly allocated string box holding the city and leaves the borrowed address and every other handle unchanged. |
| Ffi.AddressGetPostalCode | src/lib.rs:180-183 | `address_get_postal_code` returns a newly allocated string box holding the postal code and leaves the borrowed address and every other handle unchanged. |
| Ffi.ProcessString | src/lib.rs:187-192 | `process_string` returns a newly allocated string box that is `"Processed: "` followed by exactly the input; no other handle changes. |
| FfiProperties.AddressStringRoundTrip | src/lib.rs:173-183 | After `address_create(c, p)`, the city getter yields `c` and the postal-code getter yields `p`. Each result is its own new box, distinct from the address and from the other, and the stored address is unchanged. |
| FfiProperties.PersonReadBack | src/lib.rs:112-163 | After `person_create_with_address`, the colour getter returns the same `u8` discriminant that was passed in. The count is `scores_len`, or 0 for a null pointer or zero length. Scores come back in input order, `-1` past the end, and the address is the one borrowed. |
| FfiProperties.PersonOutlivesAddress | src/lib.rs:102-127 | Freeing the address handle a person was built from leaves the person live with the same address and its city readable. Every other live handle is unchanged. |
| Lifecycle.Apply | src/lib.rs:94-192 | Any exported call whose contract the caller meets keeps the heap invariant. It moves each handle at most one step along Unallocated -> Live -> Freed, and a free call takes a live handle to freed. |
| Lifecycle.Run | src/lib.rs:94-192 | Over any sequence of permitted calls, the heap invariant holds and no handle's state moves backwards: a freed handle is never live again. |
| Lifecycle.FreedStaysFreed | src/lib.rs:102-139 | Once a handle is freed, no call at any later position of a permitted sequence frees it again. |
| Lifecycle.NoDoubleFree | src/lib.rs:102-139 | In any permitted call sequence, two free calls at different positions never free the same handle. |

## Left out

- The repository's Go sample: it targets a different `App`/`Todo` API (`app_new`, `add_todo`, `get_todo_count`, `get_todo_at`, `app_free`), which src/lib.rs does not export, so there is no Rust side in src/lib.rs to model. It calls none of the `Person`/`Address` functions.
- The Go tests (`main_test.go`): `formatBytes` is floating-point formatting, and the leak test measures the Go runtime's allocation statistics.
- The header-generation block (src/lib.rs:195-219) and the `repr(C)` layout attributes: they produce no behaviour to model.
- Real memory: `Box::into_raw`, `Box::from_raw` and `slice::from_raw_parts` become heap-map operations. Use after free, double free and passing a box of the wrong type are undefined behaviour in the source, so they are preconditions (liveness and box kind) rather than modelled outcomes.
- Invalid colour discriminants: a `u8` outside 0..2 passed as `favorite_color` is not a valid `Color` and is undefined behaviour in the source, so, as with use after free, `Ffi.PersonCreateWithAddress` takes a byte that `Records.FromOrdinal` decodes as a precondition rather than modelling an outcome.
- Address reuse: the model never reissues a freed id, while a real allocator may reuse a freed address.
- Text encoding: strings are sequences of characters. The UTF-8 validation in `char_p::Ref::to_str` is not modelled.
- `Address::new` on arbitrary `&str`: it may store a NUL, which would make the getters' `unwrap` panic. That text never reaches `Address::new` through the exported functions, because `address_create` receives C strings. The model assumes NUL-free stored text as part of the heap invariant, which `Ffi.ToCString` relies on.
- Releasing the string boxes that the getters and `process_string` return: no exported function in the library frees them, so they stay live in the model.
- Records.Person.GetTotalScore: requires that no running total overflows `i32`, which is the debug build's panic condition. The release build's wrap-around is covered separately by `Records.Person.GetTotalScoreWrapping`.
- Ffi.PersonGetTotalScore: carries the same no-overflow precondition as `Records.Person.GetTotalScore`.
- Concurrency: the library takes no locks and is used single-threaded, so calls are modelled as sequential.
