/** The order of blob keys: four-byte keys whose third byte is zero are numbers and
    come first; all others follow as byte strings. */
module SortKeys {
  import opened Bytes
  import opened Ordering

  predicate IsNumber(x: Bytes) {
    |x| == 4 && x[2] == 0
  }

  /** `sortkey` */
  function SortKey(x: Bytes): Bytes {
    if IsNumber(x) then Reverse(x) else x
  }

  /** `sortfunc` */
  function SortFunc(x: Bytes, y: Bytes): int {
    if IsNumber(x) then
      if IsNumber(y) then Cmp(FromLE(x), FromLE(y)) else -1
    else
      if IsNumber(y) then 1 else Compare(x, y)
  }

  lemma LittleEndianOrder(x: Bytes, y: Bytes)
    requires |x| == |y|
    ensures Cmp(FromLE(x), FromLE(y)) == Compare(Reverse(x), Reverse(y))
  {
    LittleIsReversedBig(x);
    LittleIsReversedBig(y);
    CompareIsNumeric(256, Reverse(x), Reverse(y));
  }

  /** Within each class, comparing the keys as byte strings is `sortfunc`: the order
      of the reversed bytes is the little-endian numeric order. */
  lemma KeyOrderAgrees(x: Bytes, y: Bytes)
    requires IsNumber(x) <==> IsNumber(y)
    ensures SortFunc(x, y) == Compare(SortKey(x), SortKey(y))
  {
    if IsNumber(x) {
      LittleEndianOrder(x, y);
    }
  }

  lemma SameReversed(x: Bytes, y: Bytes)
    requires Reverse(x) == Reverse(y)
    ensures x == y
  {
    assert |x| == |y|;
    forall i | 0 <= i < |x| ensures x[i] == y[i] {
      assert Reverse(x)[|x| - 1 - i] == x[i] && Reverse(y)[|x| - 1 - i] == y[i];
    }
  }

  lemma SortFuncZeroIff(x: Bytes, y: Bytes)
    ensures SortFunc(x, y) == 0 <==> x == y
  {
    if IsNumber(x) == IsNumber(y) {
      KeyOrderAgrees(x, y);
      CompareZero(SortKey(x), SortKey(y));
      if IsNumber(x) && Reverse(x) == Reverse(y) {
        SameReversed(x, y);
      }
    }
  }

  lemma SortFuncFlips(x: Bytes, y: Bytes)
    ensures SortFunc(x, y) == -SortFunc(y, x)
  {
    CompareFlips(x, y);
  }

  /** `sortfunc` is a total order: with the two lemmas above, transitive too. */
  lemma SortFuncTransitive(x: Bytes, y: Bytes, z: Bytes)
    requires SortFunc(x, y) <= 0 && SortFunc(y, z) <= 0
    ensures SortFunc(x, z) <= 0
    ensures SortFunc(x, y) < 0 || SortFunc(y, z) < 0 ==> SortFunc(x, z) < 0
  {
    hide FromLE;
    if !IsNumber(x) && !IsNumber(y) && !IsNumber(z) {
      CompareTransitive(x, y, z);
    }
  }

  /** Sorting by `sortkey` is not sorting by `sortfunc` when the classes meet: two
      different keys share a sort key exactly when one is a number and the other,
      no number, is its reversal. */
  lemma SharedKeyIff(x: Bytes, y: Bytes)
    ensures SortKey(x) == SortKey(y) && x != y <==>
      (IsNumber(x) && !IsNumber(y) && y == Reverse(x)) || (IsNumber(y) && !IsNumber(x) && x == Reverse(y))
  {
    if IsNumber(x) && IsNumber(y) && SortKey(x) == SortKey(y) {
      SameReversed(x, y);
    }
  }

  /** The comparison a sort by `sortfunc` makes. */
  predicate KeyBefore(x: Bytes, y: Bytes) {
    SortFunc(x, y) < 0
  }

  lemma KeyBeforeIsOrder()
    ensures StrictOrder(KeyBefore)
  {
    forall x: Bytes, y: Bytes ensures SortFunc(x, y) == -SortFunc(y, x) {
      SortFuncFlips(x, y);
    }
    forall x: Bytes, y: Bytes, z: Bytes | !KeyBefore(y, x) && !KeyBefore(z, y) ensures !KeyBefore(z, x) {
      SortFuncTransitive(x, y, z);
    }
  }

  /** Sorted by `sortfunc`, the four-byte keys with a zero in third place come first,
      in the order of their little-endian numbers, and the others after them in the
      order of byte strings. */
  lemma SortedKeys(keys: seq<Bytes>, i: nat, j: nat)
    requires i < j < |Sort(KeyBefore, keys)|
    ensures var x, y := Sort(KeyBefore, keys)[i], Sort(KeyBefore, keys)[j];
      var first, second := |x| == 4 && x[2] == 0, |y| == 4 && y[2] == 0;
      && (second ==> first)
      && (first && second ==> FromLE(x) <= FromLE(y))
      && (!first && !second ==> Compare(x, y) <= 0)
  {
    KeyBeforeIsOrder();
    SortSorted(KeyBefore, keys);
    var x, y := Sort(KeyBefore, keys)[i], Sort(KeyBefore, keys)[j];
    hide Sort, FromLE;
    assert !KeyBefore(y, x);
    CompareFlips(x, y);
  }
}
