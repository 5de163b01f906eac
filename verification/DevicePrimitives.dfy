/** The library primitives the Theta pipeline calls, by their documented contracts: a
    stable radix sort on a range of key bits, removal of adjacent equals, merging of two
    sorted ranges, stable selection and binary search. */
module DevicePrimitives {
  import opened HashSets

  ghost predicate Ascending(s: seq<nat>) {
    forall i, j :: 0 <= i < j < |s| ==> s[i] <= s[j]
  }

  function Pow2(n: nat): (p: nat)
    ensures p > 0
  {
    if n == 0 then 1 else 2 * Pow2(n - 1)
  }

  lemma {:induction false} Pow2Splits(a: nat, b: nat)
    ensures Pow2(a + b) == Pow2(a) * Pow2(b)
  {
    if a > 0 {
      Pow2Splits(a - 1, b);
    }
  }

  lemma {:induction false} Pow2Monotone(a: nat, b: nat)
    requires a <= b
    ensures Pow2(a) <= Pow2(b)
    decreases b - a
  {
    if a < b {
      Pow2Monotone(a + 1, b);
    }
  }

  lemma Pow2PlusFive(n: nat)
    ensures Pow2(n + 5) == 32 * Pow2(n)
  {
    assert Pow2(n + 2) == 4 * Pow2(n);
    assert Pow2(n + 4) == 4 * Pow2(n + 2);
  }

  lemma PowersOfTwo()
    ensures Pow2(21) == 0x20_0000 && Pow2(26) == 0x400_0000 && Pow2(31) == 0x8000_0000
  {
    Pow2PlusFive(1);
    Pow2PlusFive(6);
    Pow2PlusFive(11);
    Pow2PlusFive(16);
    Pow2PlusFive(21);
    Pow2PlusFive(26);
  }

  /** The number of bits needed to write n. */
  function BitWidth(n: nat): (bits: nat)
    ensures n < Pow2(bits)
    ensures n > 0 ==> bits > 0 && Pow2(bits - 1) <= n
  {
    if n == 0 then 0 else 1 + BitWidth(n / 2)
  }

  // ----- sorting on the low bits -----

  ghost predicate AscendingBy(s: seq<nat>, key: nat -> nat) {
    forall i, j :: 0 <= i < j < |s| ==> key(s[i]) <= key(s[j])
  }

  function InsertBy(h: nat, s: seq<nat>, key: nat -> nat): (r: seq<nat>)
    requires AscendingBy(s, key)
    ensures |r| == |s| + 1
    ensures forall x :: x in r <==> x == h || x in s
    ensures AscendingBy(r, key)
  {
    if s == [] then [h]
    else if key(h) <= key(s[0]) then [h] + s
    else
      var tail := InsertBy(h, s[1..], key);
      assert s == [s[0]] + s[1..];
      assert forall i :: 0 <= i < |tail| ==> tail[i] == h || tail[i] in s[1..];
      [s[0]] + tail
  }

  function SortBy(s: seq<nat>, key: nat -> nat): (r: seq<nat>)
    ensures |r| == |s|
    ensures forall x :: x in r <==> x in s
    ensures AscendingBy(r, key)
  {
    if s == [] then [] else InsertBy(s[0], SortBy(s[1..], key), key)
  }

  lemma {:induction false} InsertPermutes(h: nat, s: seq<nat>, key: nat -> nat)
    requires AscendingBy(s, key)
    ensures multiset(InsertBy(h, s, key)) == multiset(s) + multiset{h}
  {
    if s != [] {
      assert s == [s[0]] + s[1..];
      if key(h) > key(s[0]) {
        InsertPermutes(h, s[1..], key);
      }
    }
  }

  lemma {:induction false} SortPermutes(s: seq<nat>, key: nat -> nat)
    ensures multiset(SortBy(s, key)) == multiset(s)
  {
    if s != [] {
      assert s == [s[0]] + s[1..];
      SortPermutes(s[1..], key);
      InsertPermutes(s[0], SortBy(s[1..], key), key);
    }
  }

  function LowBits(bits: nat): nat -> nat {
    (h: nat) => h % Pow2(bits)
  }

  /** Radix sort on the lowest `bits` bits of the keys. */
  function SortLow(s: seq<nat>, bits: nat): seq<nat> {
    SortBy(s, LowBits(bits))
  }

  /** Sorting on only as many bits as `bound` has sorts completely, because every key is
      below `bound`. */
  lemma LowBitsSuffice(s: seq<nat>, bound: nat)
    requires forall h :: h in s ==> h < bound
    ensures var r := SortLow(s, BitWidth(bound));
            Ascending(r) && Elements(r) == Elements(s) && multiset(r) == multiset(s)
  {
    var bits := BitWidth(bound);
    var r := SortLow(s, bits);
    SortPermutes(s, LowBits(bits));
    forall i | 0 <= i < |r| ensures LowBits(bits)(r[i]) == r[i] {
      assert r[i] in s;
      SmallRemainder(r[i], Pow2(bits));
    }
  }

  lemma SmallRemainder(h: nat, d: nat)
    requires h < d
    ensures h % d == h
  {}

  // ----- removing adjacent equals -----

  function Unique(s: seq<nat>): seq<nat> {
    if |s| <= 1 then s
    else if s[0] == s[1] then Unique(s[1..])
    else [s[0]] + Unique(s[1..])
  }

  lemma {:induction false} UniqueOfAscending(s: seq<nat>)
    requires Ascending(s)
    ensures StrictlySorted(Unique(s))
    ensures Elements(Unique(s)) == Elements(s)
    ensures |Unique(s)| <= |s|
    ensures s != [] ==> Unique(s) != [] && Unique(s)[0] == s[0]
  {
    if |s| > 1 {
      var rest := Unique(s[1..]);
      UniqueOfAscending(s[1..]);
      Prepended(s[0], s[1..]);
      Prepended(s[0], rest);
      assert s == [s[0]] + s[1..];
      if s[0] != s[1] {
        SmallerFirst(s[0], rest);
      }
    }
  }

  lemma Prepended(h: nat, s: seq<nat>)
    ensures Elements([h] + s) == {h} + Elements(s)
  {}

  lemma SmallerFirst(h: nat, s: seq<nat>)
    requires StrictlySorted(s) && s != [] && h < s[0]
    ensures StrictlySorted([h] + s)
  {}

  // ----- merging -----

  function MergeSorted(a: seq<nat>, b: seq<nat>): seq<nat>
    decreases |a| + |b|
  {
    if a == [] then b
    else if b == [] then a
    else if b[0] < a[0] then [b[0]] + MergeSorted(a, b[1..])
    else [a[0]] + MergeSorted(a[1..], b)
  }

  lemma {:induction false} MergeSortedAscends(a: seq<nat>, b: seq<nat>)
    requires Ascending(a) && Ascending(b)
    ensures var m := MergeSorted(a, b);
            Ascending(m) && Elements(m) == Elements(a) + Elements(b) && |m| == |a| + |b|
    decreases |a| + |b|
  {
    if a != [] && b != [] {
      if b[0] < a[0] {
        MergeSortedAscends(a, b[1..]);
        MergePrepends(b[0], MergeSorted(a, b[1..]), a, b);
      } else {
        MergeSortedAscends(a[1..], b);
        MergePrepends(a[0], MergeSorted(a[1..], b), b, a);
      }
    }
  }

  lemma MergePrepends(h: nat, m: seq<nat>, a: seq<nat>, b: seq<nat>)
    requires b != [] && b[0] == h && Ascending(b)
    requires Ascending(m) && Elements(m) == Elements(a) + Elements(b[1..])
    requires forall x :: x in a ==> h <= x
    ensures Ascending([h] + m)
    ensures Elements([h] + m) == Elements(a) + Elements(b)
  {
    forall i | 0 <= i < |m| ensures h <= m[i] {
      assert m[i] in Elements(m);
    }
    assert Elements([h] + m) == {h} + Elements(m);
    assert b == [h] + b[1..];
    assert Elements(b) == {h} + Elements(b[1..]);
  }

  // ----- selecting -----

  function Select(s: seq<nat>, keep: nat -> bool): seq<nat> {
    if s == [] then []
    else (if keep(s[0]) then [s[0]] else []) + Select(s[1..], keep)
  }

  lemma {:induction false} SelectSorted(s: seq<nat>, keep: nat -> bool)
    requires StrictlySorted(s)
    ensures StrictlySorted(Select(s, keep))
    ensures |Select(s, keep)| <= |s|
    ensures Elements(Select(s, keep)) == set h | h in s && keep(h)
  {
    if s != [] {
      SelectSorted(s[1..], keep);
      var rest := Select(s[1..], keep);
      assert s == [s[0]] + s[1..];
      forall i | 0 <= i < |rest| ensures s[0] < rest[i] {
        assert rest[i] in Elements(rest);
      }
      assert Elements(Select(s, keep)) == (if keep(s[0]) then {s[0]} else {}) + Elements(rest);
    }
  }

  function BinarySearch(s: seq<nat>, h: nat): (found: bool)
    requires StrictlySorted(s)
    ensures found <==> h in s
    decreases |s|
  {
    if s == [] then false
    else
      var m := |s| / 2;
      assert s == s[..m] + [s[m]] + s[m + 1..];
      if s[m] == h then true
      else if s[m] < h then BinarySearch(s[m + 1..], h)
      else BinarySearch(s[..m], h)
  }
}
