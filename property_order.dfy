/** The order in which `for (const k in obj)` and `Object.entries(obj)` list the
    keys of a plain JavaScript object, as the ECMAScript specification's
    OrdinaryOwnPropertyKeys fixes it: first every key that is an array index,
    in ascending numeric order, then every other string key in the order in
    which it was first added. The validator's trackers are filled with values
    such as `"3"` and `"10"` (sort orders), so this order is visible in its
    output. */
module PropertyOrder {
  import opened Strings

  /** A canonical numeral below 2^32 - 1 names an array index. */
  predicate IsArrayIndex(s: string)
  {
    IsCanonicalNumeral(s) && DigitsValue(s) < 0xFFFF_FFFF
  }

  function IndexValue(s: string): nat
    requires IsArrayIndex(s)
  {
    DigitsValue(s)
  }

  predicate AllIndices(ks: seq<string>)
  {
    forall i :: 0 <= i < |ks| ==> IsArrayIndex(ks[i])
  }

  predicate SortedByIndex(ks: seq<string>)
    requires AllIndices(ks)
  {
    forall i, j :: 0 <= i < j < |ks| ==> IndexValue(ks[i]) <= IndexValue(ks[j])
  }

  /** The keys that are array indices, in insertion order. */
  function IndexKeys(keys: seq<string>): (r: seq<string>)
    ensures AllIndices(r)
  {
    if keys == [] then []
    else (if IsArrayIndex(keys[0]) then [keys[0]] else []) + IndexKeys(keys[1..])
  }

  /** The keys that are not array indices, in insertion order. */
  function OtherKeys(keys: seq<string>): (r: seq<string>)
    ensures forall i :: 0 <= i < |r| ==> !IsArrayIndex(r[i])
  {
    if keys == [] then []
    else (if IsArrayIndex(keys[0]) then [] else [keys[0]]) + OtherKeys(keys[1..])
  }

  lemma {:induction false} SplitIsPermutation(keys: seq<string>)
    ensures multiset(IndexKeys(keys)) + multiset(OtherKeys(keys)) == multiset(keys)
  {
    if keys != [] {
      SplitIsPermutation(keys[1..]);
      assert keys == [keys[0]] + keys[1..];
      assert multiset(keys) == multiset{keys[0]} + multiset(keys[1..]);
      if IsArrayIndex(keys[0]) {
        assert IndexKeys(keys) == [keys[0]] + IndexKeys(keys[1..]);
        assert OtherKeys(keys) == OtherKeys(keys[1..]);
      } else {
        assert IndexKeys(keys) == IndexKeys(keys[1..]);
        assert OtherKeys(keys) == [keys[0]] + OtherKeys(keys[1..]);
      }
    }
  }

  /** Insert an array index into a list sorted by index value. */
  function InsertByIndex(k: string, sorted: seq<string>): (r: seq<string>)
    requires IsArrayIndex(k) && AllIndices(sorted) && SortedByIndex(sorted)
    ensures AllIndices(r) && SortedByIndex(r)
    ensures multiset(r) == multiset(sorted) + multiset{k}
  {
    if sorted == [] || IndexValue(k) <= IndexValue(sorted[0]) then
      ConsSorted(k, sorted);
      [k] + sorted
    else
      var rest := InsertByIndex(k, sorted[1..]);
      assert sorted == [sorted[0]] + sorted[1..];
      InsertedBound(k, sorted, rest);
      ConsSorted(sorted[0], rest);
      [sorted[0]] + rest
  }

  /** Prepending a key no larger than every other keeps the list sorted. */
  lemma ConsSorted(x: string, rest: seq<string>)
    requires IsArrayIndex(x) && AllIndices(rest) && SortedByIndex(rest)
    requires forall i :: 0 <= i < |rest| ==> IndexValue(x) <= IndexValue(rest[i])
    ensures AllIndices([x] + rest) && SortedByIndex([x] + rest)
  {
    var r := [x] + rest;
    forall i | 0 <= i < |r| ensures IsArrayIndex(r[i]) {
      if i > 0 { assert r[i] == rest[i - 1]; }
    }
    forall i, j | 0 <= i < j < |r| ensures IndexValue(r[i]) <= IndexValue(r[j]) {
      assert r[j] == rest[j - 1];
      if i > 0 { assert r[i] == rest[i - 1]; }
    }
  }

  /** After inserting `k` behind the head, the head is still the least. */
  lemma InsertedBound(k: string, sorted: seq<string>, rest: seq<string>)
    requires IsArrayIndex(k) && AllIndices(sorted) && SortedByIndex(sorted) && sorted != []
    requires IndexValue(sorted[0]) < IndexValue(k)
    requires AllIndices(rest) && multiset(rest) == multiset(sorted[1..]) + multiset{k}
    ensures forall i :: 0 <= i < |rest| ==> IndexValue(sorted[0]) <= IndexValue(rest[i])
  {
    forall i | 0 <= i < |rest|
      ensures IndexValue(sorted[0]) <= IndexValue(rest[i])
    {
      assert rest[i] in multiset(rest);
      if rest[i] != k {
        assert rest[i] in multiset(sorted[1..]);
        var j :| 0 <= j < |sorted[1..]| && sorted[1..][j] == rest[i];
        assert sorted[j + 1] == rest[i];
      }
    }
  }

  /** Insertion sort of array indices by numeric value. */
  function SortByIndex(ks: seq<string>): (r: seq<string>)
    requires AllIndices(ks)
    ensures AllIndices(r) && SortedByIndex(r)
    ensures multiset(r) == multiset(ks)
  {
    if ks == [] then []
    else
      assert ks == [ks[0]] + ks[1..];
      InsertByIndex(ks[0], SortByIndex(ks[1..]))
  }

  /** The enumeration order of an object whose keys were added in the order
      `keys`: a permutation of them that lists the array indices first, in
      ascending numeric order, and then the other keys in insertion order. */
  function ForInOrder(keys: seq<string>): (r: seq<string>)
    ensures multiset(r) == multiset(keys)
  {
    SplitIsPermutation(keys);
    SortByIndex(IndexKeys(keys)) + OtherKeys(keys)
  }

  /** The enumeration starts with the array indices, sorted by value, and
      continues with the other keys in insertion order. */
  lemma ForInOrderShape(keys: seq<string>)
    ensures var r := ForInOrder(keys); var n := |IndexKeys(keys)|;
      && n <= |r| && AllIndices(r[..n]) && SortedByIndex(r[..n])
      && r[n..] == OtherKeys(keys)
  {
    var s := SortByIndex(IndexKeys(keys));
    assert |s| == |IndexKeys(keys)| by {
      assert |multiset(s)| == |multiset(IndexKeys(keys))|;
    }
    assert (s + OtherKeys(keys))[..|s|] == s;
  }

  /** When no key is an array index, enumeration is insertion order. */
  lemma {:induction false} NoIndexKeysKeepOrder(keys: seq<string>)
    requires forall i :: 0 <= i < |keys| ==> !IsArrayIndex(keys[i])
    ensures ForInOrder(keys) == keys
  {
    NoIndexKeysFilters(keys);
  }

  lemma {:induction false} NoIndexKeysFilters(keys: seq<string>)
    requires forall i :: 0 <= i < |keys| ==> !IsArrayIndex(keys[i])
    ensures IndexKeys(keys) == [] && OtherKeys(keys) == keys
  {
    if keys != [] {
      NoIndexKeysFilters(keys[1..]);
      assert keys == [keys[0]] + keys[1..];
    }
  }

  /** A key holding a non-digit (such as the `.` of every `.book.yml` path)
      is never an array index. */
  lemma NonDigitIsNoIndex(s: string, i: nat)
    requires i < |s| && !IsDigit(s[i])
    ensures !IsArrayIndex(s)
  {
  }

  /** Keys are enumerated without repetition when they were added without repetition. */
  lemma ForInOrderDistinct(keys: seq<string>)
    requires forall i, j :: 0 <= i < j < |keys| ==> keys[i] != keys[j]
    ensures var r := ForInOrder(keys); forall i, j :: 0 <= i < j < |r| ==> r[i] != r[j]
  {
    var r := ForInOrder(keys);
    DistinctIffMultiplicityOne(keys);
    DistinctIffMultiplicityOne(r);
  }

  lemma {:induction false} DistinctIffMultiplicityOne(s: seq<string>)
    ensures (forall i, j :: 0 <= i < j < |s| ==> s[i] != s[j]) <==> (forall x :: x in multiset(s) ==> multiset(s)[x] == 1)
  {
    if s != [] {
      DistinctIffMultiplicityOne(s[1..]);
      assert s == [s[0]] + s[1..];
      if forall i, j :: 0 <= i < j < |s| ==> s[i] != s[j] {
        assert s[0] !in s[1..];
      }
      if forall x :: x in multiset(s) ==> multiset(s)[x] == 1 {
        forall i, j | 0 <= i < j < |s| ensures s[i] != s[j] {
          if i == 0 {
            assert s[j] in s[1..];
            assert multiset(s)[s[0]] == 1 + multiset(s[1..])[s[0]];
          } else {
            assert multiset(s[1..])[s[1..][i - 1]] == 1 by {
              assert multiset(s)[s[i]] == multiset([s[0]])[s[i]] + multiset(s[1..])[s[i]];
            }
            forall x | x in multiset(s[1..]) ensures multiset(s[1..])[x] == 1 {
              assert multiset(s)[x] == multiset([s[0]])[x] + multiset(s[1..])[x];
            }
          }
        }
      }
    }
  }
}
