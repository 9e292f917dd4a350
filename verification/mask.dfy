/** The bitmask multi-selection helper of the editor tools (`Mask`, Editor/Scripts/Mask.cs).
    The C# struct wraps a 32-bit `int`; here a mask is a `bv32` and every mutating method
    becomes a function from the old value to the new one. */
module Mask {
  import Seqs

  /** The single bit C#'s `1 << index` sets in a 32-bit int. C# uses only the low five bits
      of the shift count, so `index` addresses bit `index % 32` (Dafny's `%` is Euclidean,
      which agrees with `index & 31` for negative indices too). */
  function Bit(index: int): bv32 {
    BitAt(Position(index))
  }

  /** The bit position `index` addresses: its value modulo 32, assembled from its five
      binary digits. */
  function Position(index: int): bv5 {
    var k := index % 32;
    Digit(k, 1) | Digit(k / 2, 2) | Digit(k / 2 / 2, 4) | Digit(k / 2 / 2 / 2, 8) | Digit(k / 2 / 2 / 2 / 2, 16)
  }

  /** `Position` is the index reduced modulo 32, the shift count C# actually uses. */
  lemma PositionIsMod(index: int)
    ensures Position(index) as int == index % 32
  {
    var k := index % 32;
    DigitsValue(k % 2 == 1, k / 2 % 2 == 1, k / 2 / 2 % 2 == 1, k / 2 / 2 / 2 % 2 == 1, k / 2 / 2 / 2 / 2 % 2 == 1);
  }

  /** Five distinct binary digits combine by `|` into the number they spell. */
  lemma DigitsValue(b0: bool, b1: bool, b2: bool, b3: bool, b4: bool)
    ensures ((if b0 then 1 else 0) | (if b1 then 2 else 0) | (if b2 then 4 else 0) | (if b3 then 8 else 0) | (if b4 then 16 else 0) as bv5) as int
            == (if b0 then 1 else 0) + (if b1 then 2 else 0) + (if b2 then 4 else 0) + (if b3 then 8 else 0) + (if b4 then 16 else 0)
  { }

  /** `w` when `k` is odd, else no bit. */
  function Digit(k: int, w: bv5): bv5 {
    if k % 2 == 1 then w else 0
  }

  function BitAt(p: bv5): bv32 {
    (1 as bv32) << p
  }

  /** Bit `p` of `m` is set. */
  predicate IsSet(m: bv32, p: bv5) {
    (m >> p) & 1 == 1
  }

  /** `Has(index)`: the bit addressed by `index` is set. */
  predicate Has(m: bv32, index: int) {
    IsSet(m, Position(index))
  }

  /** `Has` is the source's test `(value & (1 << index)) != 0`. */
  lemma HasIsMaskTest(m: bv32, index: int)
    ensures Has(m, index) <==> m & Bit(index) != 0
  {
    IsSetIsMaskTest(m, Position(index));
  }

  lemma IsSetIsMaskTest(m: bv32, p: bv5)
    ensures IsSet(m, p) <==> m & BitAt(p) != 0
  {
  }

  lemma SameDigits(a: int, b: int)
    requires 0 <= a < 32 && 0 <= b < 32
    requires Digit(a, 1) | Digit(a / 2, 2) | Digit(a / 2 / 2, 4) | Digit(a / 2 / 2 / 2, 8) | Digit(a / 2 / 2 / 2 / 2, 16)
          == Digit(b, 1) | Digit(b / 2, 2) | Digit(b / 2 / 2, 4) | Digit(b / 2 / 2 / 2, 8) | Digit(b / 2 / 2 / 2 / 2, 16)
    ensures a % 2 == b % 2 && a / 2 % 2 == b / 2 % 2 && a / 2 / 2 % 2 == b / 2 / 2 % 2
    ensures a / 2 / 2 / 2 % 2 == b / 2 / 2 / 2 % 2 && a / 2 / 2 / 2 / 2 == b / 2 / 2 / 2 / 2
  {
  }

  lemma HalvesDetermine(a: int, b: int)
    requires a % 2 == b % 2 && a / 2 == b / 2
    ensures a == b
  {
  }

  /** Two indices address the same bit exactly when they agree modulo 32. */
  lemma PositionsAgree(i: int, j: int)
    ensures Position(i) == Position(j) <==> i % 32 == j % 32
  {
    if Position(i) == Position(j) {
      var a, b := i % 32, j % 32;
      SameDigits(a, b);
      HalvesDetermine(a / 2 / 2 / 2, b / 2 / 2 / 2);
      HalvesDetermine(a / 2 / 2, b / 2 / 2);
      HalvesDetermine(a / 2, b / 2);
      HalvesDetermine(a, b);
    }
  }

  /** The bit-level facts, one per lemma to keep each bit-vector query small. */
  lemma SingleIsSet(p: bv5, q: bv5)
    ensures IsSet(BitAt(p), q) <==> p == q
  {
  }

  lemma OrIsSet(a: bv32, b: bv32, p: bv5)
    ensures IsSet(a | b, p) <==> IsSet(a, p) || IsSet(b, p)
  {
  }

  lemma AndNotIsSet(m: bv32, p: bv5, q: bv5)
    ensures IsSet(m & !BitAt(p), q) <==> IsSet(m, q) && p != q
  {
  }

  lemma XorIsSet(m: bv32, p: bv5, q: bv5)
    ensures IsSet(m ^ BitAt(p), q) <==> (IsSet(m, q) != (p == q))
  {
  }

  lemma AllIsSet(p: bv5)
    ensures IsSet(!0, p)
  {
  }

  lemma NoneIsSet(p: bv5)
    ensures !IsSet(0, p)
  {
  }

  lemma XorTwice(m: bv32, b: bv32)
    ensures (m ^ b) ^ b == m
  {
  }

  /** The same facts for integer indices, first in terms of positions and then modulo 32. */
  lemma HasBitAt(i: int, j: int)
    ensures Has(Bit(i), j) <==> Position(i) == Position(j)
  {
    SingleIsSet(Position(i), Position(j));
  }

  /** `Bit(i)` selects exactly the indices that agree with `i` modulo 32. */
  lemma HasBit(i: int, j: int)
    ensures Has(Bit(i), j) <==> i % 32 == j % 32
  {
    HasBitAt(i, j);
    PositionsAgree(i, j);
  }

  lemma HasOr(a: bv32, b: bv32, j: int)
    ensures Has(a | b, j) <==> Has(a, j) || Has(b, j)
  {
    OrIsSet(a, b, Position(j));
  }

  lemma HasAdd(m: bv32, i: int, j: int)
    ensures Has(m | Bit(i), j) <==> Has(m, j) || j % 32 == i % 32
  {
    HasOr(m, Bit(i), j);
    HasBit(i, j);
  }

  lemma HasAndNotAt(m: bv32, i: int, j: int)
    ensures Has(m & !Bit(i), j) <==> Has(m, j) && Position(i) != Position(j)
  {
    AndNotIsSet(m, Position(i), Position(j));
  }

  lemma HasAndNot(m: bv32, i: int, j: int)
    ensures Has(m & !Bit(i), j) <==> Has(m, j) && j % 32 != i % 32
  {
    HasAndNotAt(m, i, j);
    PositionsAgree(i, j);
  }

  lemma HasXorAt(m: bv32, i: int, j: int)
    ensures Has(m ^ Bit(i), j) <==> (Has(m, j) != (Position(i) == Position(j)))
  {
    XorIsSet(m, Position(i), Position(j));
  }

  lemma HasXor(m: bv32, i: int, j: int)
    ensures Has(m ^ Bit(i), j) <==> (Has(m, j) != (j % 32 == i % 32))
  {
    HasXorAt(m, i, j);
    PositionsAgree(i, j);
  }

  /** `Select(index)`: the mask becomes the single addressed bit. */
  function Select(index: int): (r: bv32)
    ensures forall j :: Has(r, j) <==> j % 32 == index % 32
  {
    forall j ensures Has(Bit(index), j) <==> j % 32 == index % 32 {
      HasBit(index, j);
    }
    Bit(index)
  }

  /** `Add(index)`: sets the addressed bit and leaves every other bit alone. */
  function Add(m: bv32, index: int): (r: bv32)
    ensures forall j :: Has(r, j) <==> Has(m, j) || j % 32 == index % 32
  {
    forall j ensures Has(m | Bit(index), j) <==> Has(m, j) || j % 32 == index % 32 {
      HasAdd(m, index, j);
    }
    m | Bit(index)
  }

  /** `Remove(index)`: clears the addressed bit and leaves every other bit alone. */
  function Remove(m: bv32, index: int): (r: bv32)
    ensures forall j :: Has(r, j) <==> Has(m, j) && j % 32 != index % 32
  {
    forall j ensures Has(m & !Bit(index), j) <==> Has(m, j) && j % 32 != index % 32 {
      HasAndNot(m, index, j);
    }
    m & !Bit(index)
  }

  /** `Toggle(index)`: flips the addressed bit and leaves every other bit alone. */
  function Toggle(m: bv32, index: int): (r: bv32)
    ensures forall j :: Has(r, j) <==> (Has(m, j) != (j % 32 == index % 32))
  {
    forall j ensures Has(m ^ Bit(index), j) <==> (Has(m, j) != (j % 32 == index % 32)) {
      HasXor(m, index, j);
    }
    m ^ Bit(index)
  }

  /** Toggling the same index twice restores the mask. */
  lemma ToggleTwice(m: bv32, index: int)
    ensures Toggle(Toggle(m, index), index) == m
  {
    XorTwice(m, Bit(index));
  }

  /** `Mask.all` and `SelectAll()`: the value `~0`, in which every index is selected. */
  function SelectAll(): (r: bv32)
    ensures forall j :: Has(r, j)
  {
    var all: bv32 := !0;
    forall j ensures Has(all, j) {
      AllIsSet(Position(j));
    }
    all
  }

  /** `Mask.none` and `SelectNone()`: the value `0`, in which no index is selected. */
  function SelectNone(): (r: bv32)
    ensures forall j :: !Has(r, j)
  {
    forall j ensures !Has(0, j) {
      NoneIsSet(Position(j));
    }
    0
  }

  /** The mask as a predicate on indices. */
  function Selector(m: bv32): int -> bool {
    i => Has(m, i)
  }

  /** The indices in `[0, length)` whose bit is set, in increasing order; a negative
      `length` runs the source's loop zero times. */
  function SelectedIndices(m: bv32, length: int): (r: seq<int>)
    ensures forall k :: 0 <= k < |r| ==> 0 <= r[k] < length
    ensures forall k, k' :: 0 <= k < k' < |r| ==> r[k] < r[k']
    ensures forall i :: 0 <= i < length ==> (i in r <==> Has(m, i))
  {
    Seqs.Positions(length, Selector(m))
  }

  /** `GetSelectedIndices(length, indices)`: clears the caller's list, then appends every
      selected index below `length`. */
  method GetSelectedIndicesInto(m: bv32, length: int, indices: seq<int>) returns (r: seq<int>)
    ensures r == SelectedIndices(m, length)
  {
    r := [];
    var i := 0;
    if length < 0 {
      assert Seqs.Positions(length, Selector(m)) == [];
      return;
    }
    while i < length
      invariant 0 <= i <= length
      invariant r == Seqs.Positions(i, Selector(m))
    {
      var selected := Has(m, i);
      SelectedStep(m, i);
      if selected {
        r := r + [i];
      }
      i := i + 1;
    }
  }

  lemma SelectedStep(m: bv32, i: nat)
    ensures Seqs.Positions(i + 1, Selector(m)) == Seqs.Positions(i, Selector(m)) + if Has(m, i) then [i] else []
  {
    assert Selector(m)(i) == Has(m, i);
  }

  /** `GetSelectedIndices(length)`: the list-returning overload, which fills a new list. */
  method GetSelectedIndices(m: bv32, length: int) returns (r: seq<int>)
    ensures r == SelectedIndices(m, length)
  {
    r := GetSelectedIndicesInto(m, length, []);
  }

  /** The elements of `source` at selected positions, in source order: element `k` of the
      result is `source[SelectedIndices(m, |source|)[k]]`. */
  function SelectedElements<T>(source: seq<T>, m: bv32): (r: seq<T>)
    ensures |r| == |SelectedIndices(m, |source|)|
    ensures forall k :: 0 <= k < |r| ==> r[k] == source[SelectedIndices(m, |source|)[k]]
  {
    Seqs.Pick(source, Selector(m))
  }

  /** `GetSelectedItems(source, result)`: clears `result`, then appends `source[i]` for
      every selected `i`. */
  method GetSelectedItemsInto<T>(m: bv32, source: seq<T>, result: seq<T>) returns (r: seq<T>)
    ensures r == SelectedElements(source, m)
  {
    r := [];
    var i := 0;
    while i < |source|
      invariant 0 <= i <= |source|
      invariant r == Seqs.Pick(source[..i], Selector(m))
    {
      Seqs.PickStep(source, Selector(m), i);
      if Has(m, i) {
        r := r + [source[i]];
      }
      i := i + 1;
    }
    assert source[..|source|] == source;
  }

  /** `GetSelectedItems(source)`: the list-returning overload. */
  method GetSelectedItems<T>(m: bv32, source: seq<T>) returns (r: seq<T>)
    ensures r == SelectedElements(source, m)
  {
    r := GetSelectedItemsInto(m, source, []);
  }

  /** The static `GetSelectedElements(source, maskValue)`, which tests
      `(maskValue & (1 << i)) != 0` directly. */
  method GetSelectedElements<T>(source: seq<T>, maskValue: bv32) returns (r: seq<T>)
    ensures r == SelectedElements(source, maskValue)
  {
    r := [];
    var i := 0;
    while i < |source|
      invariant 0 <= i <= |source|
      invariant r == Seqs.Pick(source[..i], Selector(maskValue))
    {
      MaskTestStep(source, maskValue, i);
      r := r + if maskValue & Bit(i) != 0 then [source[i]] else [];
      i := i + 1;
    }
    assert source[..|source|] == source;
  }

  /** One step of the element loops, which test `maskValue & (1 << i)` directly. */
  lemma MaskTestStep<T>(source: seq<T>, m: bv32, i: nat)
    requires i < |source|
    ensures Seqs.Pick(source[..i + 1], Selector(m)) == Seqs.Pick(source[..i], Selector(m)) + if m & Bit(i) != 0 then [source[i]] else []
  {
    Seqs.PickStep(source, Selector(m), i);
    HasIsMaskTest(m, i);
  }

  /** The overload `GetSelectedElements(source, selected, maskValue)`: clears `selected`
      and fills it with the same elements as the list-returning overload. */
  method GetSelectedElementsInto<T>(source: seq<T>, selected: seq<T>, maskValue: bv32) returns (r: seq<T>)
    ensures r == SelectedElements(source, maskValue)
  {
    r := [];
    var i := 0;
    while i < |source|
      invariant 0 <= i <= |source|
      invariant r == Seqs.Pick(source[..i], Selector(maskValue))
    {
      MaskTestStep(source, maskValue, i);
      r := r + if maskValue & Bit(i) != 0 then [source[i]] else [];
      i := i + 1;
    }
    assert source[..|source|] == source;
  }

  /** `GetMaskValue(selectedIndices)`: sets one bit per list position, so the result
      selects exactly the indices whose low five bits are below the list's length; the
      index values themselves are never read. */
  method GetMaskValueOfIndices(selectedIndices: seq<int>) returns (r: bv32)
    ensures forall j :: Has(r, j) <==> j % 32 < |selectedIndices|
  {
    r := 0;
    var i := 0;
    while i < |selectedIndices|
      invariant 0 <= i <= |selectedIndices|
      invariant forall j :: Has(r, j) <==> j % 32 < i
    {
      forall j ensures Has(r | Bit(i), j) <==> j % 32 < i + 1 {
        HasAdd(r, i, j);
        BelowNext(i, j);
      }
      r := r | Bit(i);
      i := i + 1;
    }
  }

  lemma BelowNext(i: nat, j: int)
    ensures j % 32 < i + 1 <==> j % 32 < i || j % 32 == i % 32
  {
  }

  /** Some position of `source` that addresses bit `j` holds an element of `selected`. */
  ghost predicate Marks<T>(source: seq<T>, selected: seq<T>, j: int) {
    exists i :: 0 <= i < |source| && i % 32 == j % 32 && source[i] in selected
  }

  /** Growing `source` by one element marks that element's bit when it is selected. */
  lemma MarksSnoc<T>(source: seq<T>, selected: seq<T>, j: int)
    requires |source| > 0
    ensures var n := |source| - 1;
      Marks(source, selected, j) <==> Marks(source[..n], selected, j) || (n % 32 == j % 32 && source[n] in selected)
  {
    var n := |source| - 1;
    if Marks(source[..n], selected, j) {
      var i :| 0 <= i < n && i % 32 == j % 32 && source[..n][i] in selected;
      assert source[i] == source[..n][i];
    }
    if Marks(source, selected, j) {
      var i :| 0 <= i < |source| && i % 32 == j % 32 && source[i] in selected;
      if i < n {
        assert source[..n][i] == source[i];
      }
    }
  }

  /** The mask `GetMaskValue(source, selected)` computes: bit `j` is set exactly when some
      position of `source` addressing that bit holds an element of `selected`. */
  function MaskValueOf<T(==)>(source: seq<T>, selected: seq<T>): (r: bv32)
    ensures forall j :: Has(r, j) <==> Marks(source, selected, j)
  {
    if |source| == 0 then 0
    else
      var n := |source| - 1;
      var prev := MaskValueOf(source[..n], selected);
      var r := if source[n] in selected then prev | Bit(n) else prev;
      forall j ensures Has(r, j) <==> Marks(source, selected, j) {
        HasAdd(prev, n, j);
        MarksSnoc(source, selected, j);
      }
      r
  }

  lemma MaskValueOfStep<T>(source: seq<T>, selected: seq<T>, i: nat)
    requires i < |source|
    ensures MaskValueOf(source[..i + 1], selected)
         == if source[i] in selected then MaskValueOf(source[..i], selected) | Bit(i)
            else MaskValueOf(source[..i], selected)
  {
    assert source[..i + 1][..i] == source[..i];
  }

  /** `GetMaskValue(source, selected)`: one pass over `source`, setting bit `i` whenever
      `selected` contains `source[i]`. */
  method GetMaskValue<T(==)>(source: seq<T>, selected: seq<T>) returns (r: bv32)
    ensures r == MaskValueOf(source, selected)
  {
    r := 0;
    var i := 0;
    while i < |source|
      invariant 0 <= i <= |source|
      invariant r == MaskValueOf(source[..i], selected)
    {
      MaskValueOfStep(source, selected, i);
      if source[i] in selected {
        r := r | Bit(i);
      }
      i := i + 1;
    }
    assert source[..|source|] == source;
  }

  /** The membership test `GetMaskValue` applies to each element. */
  function InSelection<T(==)>(selected: seq<T>): T -> bool {
    x => x in selected
  }

  /** Round trip: for a list of at most 32 elements, reading back the mask built from a
      selection yields the source elements contained in the selection, in source order. */
  lemma MaskRoundTrip<T(!new)>(source: seq<T>, selected: seq<T>)
    requires |source| <= 32
    ensures SelectedElements(source, MaskValueOf(source, selected)) == Seqs.Filter(source, InSelection(selected))
  {
    var m := MaskValueOf(source, selected);
    forall i | 0 <= i < |source| ensures Selector(m)(i) <==> InSelection(selected)(source[i]) {
      MaskBitOfPosition(source, selected, i);
    }
    Seqs.PickIsFilter(source, Selector(m), InSelection(selected));
  }

  /** Below 32 elements no two positions share a bit, so bit `i` of the mask records
      exactly whether `source[i]` is selected. */
  lemma MaskBitOfPosition<T>(source: seq<T>, selected: seq<T>, i: nat)
    requires i < |source| <= 32
    ensures Has(MaskValueOf(source, selected), i) <==> source[i] in selected
  {
    MarksOnlyItself(source, selected, i);
  }

  lemma MarksOnlyItself<T>(source: seq<T>, selected: seq<T>, i: nat)
    requires i < |source| <= 32
    ensures Marks(source, selected, i) <==> source[i] in selected
  {
    if Marks(source, selected, i) {
      var i' :| 0 <= i' < |source| && i' % 32 == i % 32 && source[i'] in selected;
      assert i' == i;
    }
    if source[i] in selected {
      assert 0 <= i < |source| && i % 32 == i % 32 && source[i] in selected;
    }
  }
}
