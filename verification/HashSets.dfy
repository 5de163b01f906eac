/** Ranks, cuts and sorted enumerations of finite sets of hashes.

    A hash is a natural number; 0 is the empty-slot sentinel and never counts. */
module HashSets {

  /** The hashes that pass the screen `hash != 0 && hash < bound`. */
  function Below(s: set<nat>, bound: nat): set<nat> {
    set h | h in s && 0 < h < bound
  }

  /** Below(a + b, bound), as PassingIsUnion shows, but without the set union, whose axioms
      would weigh on every proof about an update. */
  function Passing(a: set<nat>, b: set<nat>, bound: nat): set<nat> {
    set h: nat | 0 < h < bound && (h in a || h in b)
  }

  function Elements(s: seq<nat>): set<nat> {
    set h | h in s
  }

  ghost predicate StrictlySorted(s: seq<nat>) {
    forall i, j :: 0 <= i < j < |s| ==> s[i] < s[j]
  }

  /** `cut` is where a sketch of nominal size k that starts at `theta` and sees exactly
      the hashes `s` must end: unchanged if at most k hashes pass, otherwise the passing
      hash that has exactly k passing hashes below it. */
  ghost predicate IsCut(s: set<nat>, k: nat, theta: nat, cut: nat) {
    if |Below(s, theta)| <= k then cut == theta
    else cut in Below(s, theta) && |Below(s, cut)| == k
  }

  lemma SubsetSize(a: set<nat>, b: set<nat>)
    requires a <= b
    ensures |a| <= |b|
    ensures |a| == |b| ==> a == b
  {
    assert b == a + (b - a);
  }

  lemma {:induction false} Greatest(t: set<nat>) returns (m: nat)
    requires t != {}
    ensures m in t && forall h :: h in t ==> h <= m
    decreases |t|
  {
    m :| m in t;
    if t != {m} {
      var n := Greatest(t - {m});
      forall h | h in t ensures h <= m || h <= n {
        if h != m {
          assert h in t - {m};
        }
      }
      m := if m < n then n else m;
    }
  }

  lemma CutUnique(s: set<nat>, k: nat, theta: nat, c: nat, d: nat)
    requires IsCut(s, k, theta, c) && IsCut(s, k, theta, d)
    ensures c == d
  {
    if |Below(s, theta)| > k && c != d {
      var lo, hi := if c < d then c else d, if c < d then d else c;
      assert lo in Below(s, hi) && lo !in Below(s, lo);
      SubsetSize(Below(s, lo), Below(s, hi));
    }
  }

  /** The largest threshold, not above `theta`, that lets at most k of the hashes pass. */
  ghost function Cut(s: set<nat>, k: nat, theta: nat): nat {
    if |Below(s, theta)| <= k then theta
    else
      assert theta != 0 by {
        assert Below(s, 0) == {};
      }
      Cut(s, k, theta - 1)
  }

  /** That threshold is the (k+1)-th smallest passing hash if there are more than k. */
  lemma {:induction false} CutMeets(s: set<nat>, k: nat, theta: nat)
    ensures var c := Cut(s, k, theta);
            && IsCut(s, k, theta, c)
            && c <= theta && (theta > 0 ==> c > 0)
            && |Below(s, c)| <= k
    decreases theta
  {
    if |Below(s, theta)| > k {
      assert Below(s, 0) == {};
      var lower := theta - 1;
      CutMeets(s, k, lower);
      if |Below(s, lower)| <= k {
        SubsetSize(Below(s, theta) - {lower}, Below(s, lower));
        SubsetSize(Below(s, theta), Below(s, theta) - {lower} + {lower});
      }
    }
  }

  lemma CutIs(s: set<nat>, k: nat, theta: nat, c: nat)
    requires IsCut(s, k, theta, c)
    ensures Cut(s, k, theta) == c
  {
    CutMeets(s, k, theta);
    CutUnique(s, k, theta, c, Cut(s, k, theta));
  }

  /** Cutting depends only on the hashes that pass the starting threshold. */
  lemma CutOfBelow(s: set<nat>, t: set<nat>, k: nat, theta: nat)
    requires Below(s, theta) == Below(t, theta)
    ensures Cut(s, k, theta) == Cut(t, k, theta)
    ensures Below(s, Cut(s, k, theta)) == Below(t, Cut(t, k, theta))
  {
    var c := Cut(s, k, theta);
    CutMeets(s, k, theta);
    assert Below(s, c) == Below(Below(s, theta), c);
    assert Below(t, c) == Below(Below(t, theta), c);
    CutIs(t, k, theta, c);
  }

  /** Tightening is absorbed: cutting `s` first and adding `x` afterwards ends where
      cutting `s + x` at once ends, although everything at or above the first cut has
      been forgotten in between. */
  lemma CutAbsorbs(s: set<nat>, x: set<nat>, k: nat, theta: nat)
    ensures var c := Cut(s, k, theta);
            Cut(Below(s, c) + x, k, c) == Cut(s + x, k, theta)
    ensures var c := Cut(s, k, theta);
            var d := Cut(s + x, k, theta);
            Below(Below(s, c) + x, d) == Below(s + x, d)
  {
    var c := Cut(s, k, theta);
    var kept := Below(s, c) + x;
    var d := Cut(kept, k, c);
    CutMeets(s, k, theta);
    CutMeets(kept, k, c);
    assert Below(kept, c) == Below(s + x, c);
    assert Below(kept, d) == Below(s + x, d);
    if |Below(s, theta)| <= k {
      assert c == theta;
    } else {
      SubsetSize(Below(s, c), Below(s + x, c));
      SubsetSize(Below(s + x, c) + {c}, Below(s + x, theta));
    }
    CutIs(s + x, k, theta, d);
  }

  lemma PassingIsUnion(a: set<nat>, b: set<nat>, k: nat, theta: nat)
    ensures Passing(a, b, theta) == Below(a + b, theta)
    ensures Below(Passing(a, b, theta), theta) == Below(a + b, theta)
    ensures Cut(Passing(a, b, theta), k, theta) == Cut(a + b, k, theta)
    ensures Below(Passing(a, b, theta), Cut(a + b, k, theta)) == Below(a + b, Cut(a + b, k, theta))
  {
    CutOfBelow(Passing(a, b, theta), a + b, k, theta);
  }

  // ----- sorted enumerations -----

  lemma {:induction false} SortedSize(s: seq<nat>)
    requires StrictlySorted(s)
    ensures |Elements(s)| == |s|
  {
    if s != [] {
      var n := |s| - 1;
      SortedSize(s[..n]);
      assert s[n] !in Elements(s[..n]);
      assert Elements(s) == Elements(s[..n]) + {s[n]};
    }
  }

  /** A strictly sorted sequence is determined by its set of elements. */
  lemma {:induction false} SortedUnique(s: seq<nat>, t: seq<nat>)
    requires StrictlySorted(s) && StrictlySorted(t)
    requires Elements(s) == Elements(t)
    ensures s == t
  {
    SortedSize(s);
    SortedSize(t);
    if s != [] {
      var n := |s| - 1;
      assert s[n] in Elements(t) && t[n] in Elements(s);
      assert s[n] <= t[n] && t[n] <= s[n];
      assert Elements(s[..n]) == Elements(s) - {s[n]};
      assert Elements(t[..n]) == Elements(t) - {t[n]};
      SortedUnique(s[..n], t[..n]);
      assert s == s[..n] + [s[n]] && t == t[..n] + [t[n]];
    }
  }

  lemma {:induction false} EnumerationExists(s: set<nat>) returns (r: seq<nat>)
    ensures StrictlySorted(r) && Elements(r) == s
    decreases |s|
  {
    if s == {} {
      r := [];
    } else {
      var m := Greatest(s);
      var below := EnumerationExists(s - {m});
      forall i | 0 <= i < |below| ensures below[i] < m {
        assert below[i] in Elements(below);
      }
      r := below + [m];
      assert Elements(r) == Elements(below) + {m};
    }
  }

  lemma Enumerable(s: set<nat>)
    ensures exists r :: StrictlySorted(r) && Elements(r) == s
  {
    var r := EnumerationExists(s);
  }

  /** The elements of a set in ascending order. */
  ghost function Enumerate(s: set<nat>): (r: seq<nat>)
    ensures StrictlySorted(r) && Elements(r) == s && |r| == |s|
  {
    Enumerable(s);
    var r :| StrictlySorted(r) && Elements(r) == s;
    SortedSize(r);
    r
  }

  /** Truncating a sorted enumeration at position k is cutting its set at k. */
  lemma TruncationCuts(s: seq<nat>, k: nat, theta: nat)
    requires StrictlySorted(s)
    requires forall i :: 0 <= i < |s| ==> 0 < s[i] < theta
    ensures |s| <= k ==> Cut(Elements(s), k, theta) == theta && Below(Elements(s), theta) == Elements(s)
    ensures |s| > k ==> Cut(Elements(s), k, theta) == s[k] && Below(Elements(s), s[k]) == Elements(s[..k])
  {
    SortedSize(s);
    assert Below(Elements(s), theta) == Elements(s);
    if |s| > k {
      SortedSize(s[..k]);
      forall h ensures h in Below(Elements(s), s[k]) <==> h in Elements(s[..k]) {
        if h in Below(Elements(s), s[k]) {
          var i :| 0 <= i < |s| && s[i] == h;
          assert i < k;
          assert s[..k][i] == h;
        }
      }
      assert s[k] in Elements(s);
      assert Below(Elements(s), s[k]) == Elements(s[..k]);
      CutIs(Elements(s), k, theta, s[k]);
    }
  }

  /** The n smallest positive numbers. */
  ghost function Initial(n: nat): (s: set<nat>)
    ensures forall h :: h in s <==> 1 <= h <= n
    ensures |s| == n
  {
    if n == 0 then {} else Initial(n - 1) + {n}
  }

  /** A set of positive numbers below m has fewer than m elements. */
  lemma BelowSize(s: set<nat>, m: nat)
    requires m > 0
    ensures |Below(s, m)| < m
  {
    SubsetSize(Below(s, m), Initial(m - 1));
  }
}
