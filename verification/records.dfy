/**
 * The value types exchanged across the boundary and their Rust methods:
 * `Color`, `Address` and `Person` (which embeds its `Address` by value).
 */
module Records {
  import opened Options
  import opened Ints

  /** `#[repr(u8)]` colour; its ordinals are published and never renumbered. */
  datatype Color = Red | Green | Blue

  /** The `u8` discriminant a caller sees for each colour. */
  function Ordinal(c: Color): (r: U8)
    ensures r == 0 <==> c == Red
    ensures r == 1 <==> c == Green
    ensures r == 2 <==> c == Blue
  {
    match c
    case Red => 0
    case Green => 1
    case Blue => 2
  }

  /** Reads a `u8` discriminant back: only the three published ordinals name a colour. */
  function FromOrdinal(n: U8): (r: Option<Color>)
    ensures r.Some? <==> 0 <= n < 3
    ensures r.Some? ==> Ordinal(r.value) == n
  {
    if n == 0 then Some(Red)
    else if n == 1 then Some(Green)
    else if n == 2 then Some(Blue)
    else None
  }

  /** Encoding a colour as its ordinal and decoding it again loses nothing. */
  lemma OrdinalRoundTrip(c: Color)
    ensures FromOrdinal(Ordinal(c)) == Some(c)
  {
  }

  /** An address: two owned strings. */
  datatype Address = Address(city: seq<char>, postalCode: seq<char>) {

    function GetCity(): seq<char> {
      city
    }

    function GetPostalCode(): seq<char> {
      postalCode
    }
  }

  /** `Address::new` copies both texts into the record. */
  function NewAddress(city: seq<char>, postalCode: seq<char>): (a: Address)
    ensures a.GetCity() == city
    ensures a.GetPostalCode() == postalCode
  {
    Address(city, postalCode)
  }

  /** The exact (unbounded) sum of a sequence, folded from the front. */
  function Sum(s: seq<int>): int {
    if s == [] then 0 else s[0] + Sum(s[1..])
  }

  /**
   * Every running total of a left-to-right `i32` fold starting at `acc` fits in
   * an `i32`: a debug build's `+` panics exactly when this fails.
   */
  predicate FoldFits(s: seq<int>, acc: int) {
    forall i :: 0 <= i <= |s| ==> InI32(acc + Sum(s[..i]))
  }

  /** `iter().sum()` on `i32` does not overflow. */
  predicate NoOverflow(s: seq<int>) {
    FoldFits(s, 0)
  }

  /** Peeling the first element off a prefix sum. */
  lemma {:induction false} PrefixSumStep(s: seq<int>)
    requires |s| > 0
    ensures forall i :: 0 <= i < |s| ==> Sum(s[..i + 1]) == s[0] + Sum(s[1..][..i])
  {
    forall i | 0 <= i < |s|
      ensures Sum(s[..i + 1]) == s[0] + Sum(s[1..][..i])
    {
      assert s[..i + 1][1..] == s[1..][..i];
    }
  }

  /** `fold(acc, |a, b| a + b)` with overflow-checked `i32` addition. */
  function CheckedFold(s: seq<Int32>, acc: Int32): (r: Int32)
    requires FoldFits(s, acc)
    ensures r == acc + Sum(s)
    decreases |s|
  {
    if s == [] then acc
    else
      PrefixSumStep(s);
      assert Sum(s[..1]) == s[0] + Sum(s[1..][..0]);
      assert s[1..][..0] == [];
      assert InI32(acc + Sum(s[..1]));
      CheckedFold(s[1..], acc + s[0])
  }

  /** `fold(acc, |a, b| a + b)` with wrapping `i32` addition, as in a release build. */
  function WrappingFold(s: seq<Int32>, acc: Int32): (r: Int32)
    ensures r == WrapI32(acc + Sum(s))
    decreases |s|
  {
    if s == [] then acc
    else
      WrapAdd(acc + s[0], Sum(s[1..]));
      WrappingFold(s[1..], WrapI32(acc + s[0]))
  }

  /** A person: a colour, a vector of `i32` scores and an embedded address. */
  datatype Person = Person(favoriteColor: Color, scores: seq<Int32>, address: Address) {

    function GetFavoriteColor(): Color {
      favoriteColor
    }

    /** `iter().sum()`; the precondition rules out the overflow panic of a debug build. */
    function GetTotalScore(): (r: Int32)
      requires NoOverflow(scores)
      ensures r == Sum(scores)
    {
      CheckedFold(scores, 0)
    }

    /** The sum a release build returns: the exact total wrapped to 32 bits. */
    function GetTotalScoreWrapping(): (r: Int32)
      ensures r == WrapI32(Sum(scores))
      ensures InI32(Sum(scores)) ==> r == Sum(scores)
    {
      WrappingFold(scores, 0)
    }

    function GetScoreCount(): nat {
      |scores|
    }

    /** Bounds-checked read: a value exactly for the indices below the count. */
    function GetScoreAt(index: nat): (r: Option<Int32>)
      ensures r.Some? <==> index < GetScoreCount()
      ensures r.Some? ==> r.value == scores[index]
    {
      if index < |scores| then Some(scores[index]) else None
    }

    function GetAddress(): Address {
      address
    }
  }

  /** `Person::new`: every accessor reads back what was given. */
  function NewPerson(favoriteColor: Color, scores: seq<Int32>, address: Address): (p: Person)
    ensures p.GetFavoriteColor() == favoriteColor
    ensures p.GetScoreCount() == |scores|
    ensures forall i: nat :: i < |scores| ==> p.GetScoreAt(i) == Some(scores[i])
    ensures forall i: nat :: i >= |scores| ==> p.GetScoreAt(i) == None
    ensures p.GetAddress() == address
  {
    Person(favoriteColor, scores, address)
  }

  /** When the debug-mode sum succeeds, the release-mode sum agrees with it. */
  lemma TotalScoreModesAgree(p: Person)
    requires NoOverflow(p.scores)
    ensures p.GetTotalScoreWrapping() == p.GetTotalScore()
  {
  }
}
