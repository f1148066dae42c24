/** Ascending enumeration of a finite set of integer keys: the order in which the
    IR lists phi sources (by predecessor block id) and switch cases (by value). */
module Ordering {

  /** The first `m` keys are strictly increasing: the part an insertion sort
      has already sorted. */
  predicate SortedPrefix(s: seq<int>, m: nat) {
    m <= |s| && forall p, q :: 0 <= p < q < m ==> s[p] < s[q]
  }

  /** All the keys are strictly increasing. */
  predicate StrictlyIncreasing(s: seq<int>) {
    SortedPrefix(s, |s|)
  }

  predicate Distinct(s: seq<int>) {
    forall p, q :: 0 <= p < q < |s| ==> s[p] != s[q]
  }

  /** `s` lists members of `keys` only, and every one of them. */
  ghost predicate Enumerates(s: seq<int>, keys: set<int>) {
    (forall j :: 0 <= j < |s| ==> s[j] in keys) && (forall x :: x in keys ==> x in s)
  }

  lemma NonEmptyHasMember(keys: set<int>)
    requires keys != {}
    ensures exists x :: x in keys
  {
    if forall x :: x !in keys { assert false; }
  }

  lemma {:induction false} MinExists(keys: set<int>)
    requires keys != {}
    ensures exists m :: m in keys && forall x :: x in keys ==> m <= x
    decreases |keys|
  {
    NonEmptyHasMember(keys);
    var y :| y in keys;
    if keys != {y} {
      MinExists(keys - {y});
      var m :| m in keys - {y} && forall x :: x in keys - {y} ==> m <= x;
      var least := if y < m then y else m;
      forall x | x in keys ensures least <= x {
        if x != y { assert x in keys - {y}; }
      }
      assert least in keys;
    }
  }

  /** The least key. */
  function Least(keys: set<int>): (m: int)
    requires keys != {}
    ensures m in keys && forall x :: x in keys ==> m <= x
  {
    MinExists(keys);
    var m :| m in keys && forall x :: x in keys ==> m <= x;
    m
  }

  /** The keys in ascending order. */
  function Ascending(keys: set<int>): (s: seq<int>)
    ensures StrictlyIncreasing(s) && Enumerates(s, keys) && |s| == |keys|
    decreases |keys|
  {
    if keys == {} then
      []
    else
      var m := Least(keys);
      [m] + Ascending(keys - {m})
  }

  /** The head of a strictly increasing enumeration is the least key. */
  lemma HeadIsLeast(s: seq<int>, keys: set<int>)
    requires StrictlyIncreasing(s) && Enumerates(s, keys) && s != []
    ensures keys != {} && s[0] == Least(keys)
  {
    assert s[0] in keys;
    var m := Least(keys);
    assert m in s;
    var p :| 0 <= p < |s| && s[p] == m;
    assert s[0] <= s[p];
  }

  /** The tail of a strictly increasing enumeration enumerates the other keys. */
  lemma TailEnumerates(s: seq<int>, keys: set<int>)
    requires StrictlyIncreasing(s) && Enumerates(s, keys) && s != []
    ensures Enumerates(s[1..], keys - {s[0]})
  {
    forall j | 0 <= j < |s[1..]| ensures s[1..][j] in keys - {s[0]} {
      assert s[1..][j] == s[j + 1] && s[0] < s[j + 1];
    }
    forall x | x in keys - {s[0]} ensures x in s[1..] {
      assert x in s;
      var p :| 0 <= p < |s| && s[p] == x;
      assert s[1..][p - 1] == x;
    }
  }

  /** Only the empty set has an empty enumeration. */
  lemma EmptyEnumeration(keys: set<int>)
    requires Enumerates([], keys)
    ensures keys == {}
  {
    assert forall x :: x in keys ==> x in [];
  }

  /** `Ascending` of a non-empty set is its least key followed by the rest. */
  lemma AscendingCons(s: seq<int>, keys: set<int>)
    requires s != [] && keys != {} && s[0] == Least(keys) && s[1..] == Ascending(keys - {s[0]})
    ensures s == Ascending(keys)
  {
    assert s == [s[0]] + s[1..];
  }

  /** A strictly increasing enumeration of a set is unique: it is `Ascending`. */
  lemma {:induction false} AscendingUnique(s: seq<int>, keys: set<int>)
    requires StrictlyIncreasing(s) && Enumerates(s, keys)
    ensures s == Ascending(keys)
    decreases |s|
  {
    if s == [] {
      EmptyEnumeration(keys);
    } else {
      HeadIsLeast(s, keys);
      TailEnumerates(s, keys);
      AscendingUnique(s[1..], keys - {s[0]});
      AscendingCons(s, keys);
    }
  }

  /** A duplicate-free list of members of `keys` as long as `keys` lists all of it. */
  lemma {:induction false} DistinctCovers(s: seq<int>, keys: set<int>)
    requires Distinct(s) && |s| == |keys|
    requires forall p :: 0 <= p < |s| ==> s[p] in keys
    ensures Enumerates(s, keys)
    decreases |s|
  {
    if s != [] {
      var last := s[|s| - 1];
      var init := s[..|s| - 1];
      assert forall p :: 0 <= p < |init| ==> init[p] in keys - {last} by {
        forall p | 0 <= p < |init| ensures init[p] in keys - {last} {
          assert init[p] == s[p] && s[p] != s[|s| - 1];
        }
      }
      DistinctCovers(init, keys - {last});
      forall x | x in keys ensures x in s {
        if x != last {
          assert x in init;
          var p :| 0 <= p < |init| && init[p] == x;
          assert s[p] == x;
        } else {
          assert s[|s| - 1] == x;
        }
      }
    }
  }

  /* ---------------- the insertion sort behind `sort.Sort` and `sort.Slice` ---------------- */

  /** `[0, m)` is sorted except for the key at `j`, which is below every key
      after it in `(j, m)`: the state while that key moves down. */
  ghost predicate Inserting(s: seq<int>, m: nat, j: nat) {
    j < m <= |s|
    && (forall p, q :: 0 <= p < q < m && p != j && q != j ==> s[p] < s[q])
    && (forall q :: j < q < m ==> s[j] < s[q])
  }

  /** Swapping the key at `j` with a larger left neighbour moves the hole of
      `Inserting` one place down. */
  lemma InsertStep(s: seq<int>, m: nat, j: nat)
    requires Inserting(s, m, j) && 0 < j && s[j] < s[j - 1]
    ensures Inserting(s[j := s[j - 1]][j - 1 := s[j]], m, j - 1)
  {
  }

  /** When the hole reaches the bottom or a smaller left neighbour, `[0, m)` is
      sorted. */
  lemma InsertDone(s: seq<int>, m: nat, j: nat)
    requires Inserting(s, m, j) && (j == 0 || s[j - 1] < s[j])
    ensures SortedPrefix(s, m)
  {
  }

  /** Exchanging two keys keeps them distinct. */
  lemma SwapKeepsDistinct(s: seq<int>, i: nat, j: nat)
    requires i < |s| && j < |s| && Distinct(s)
    ensures Distinct(s[i := s[j]][j := s[i]])
  {
    var t := s[i := s[j]][j := s[i]];
    forall p, q | 0 <= p < q < |t| ensures t[p] != t[q] {
      var p' := if p == i then j else if p == j then i else p;
      var q' := if q == i then j else if q == j then i else q;
      assert t[p] == s[p'] && t[q] == s[q'] && p' != q';
    }
  }

  /** Exchanging two entries permutes a sequence. */
  lemma SwapPermutes<T>(s: seq<T>, i: nat, j: nat)
    requires i < |s| && j < |s|
    ensures multiset(s[i := s[j]][j := s[i]]) == multiset(s)
  {
  }

  /** Two permutations of each other that agree from `n` on are permutations of
      each other below `n`. */
  lemma PrefixPermutes<T>(s: seq<T>, t: seq<T>, n: nat)
    requires n <= |s| == |t| && multiset(s) == multiset(t) && s[n..] == t[n..]
    ensures multiset(s[..n]) == multiset(t[..n])
  {
    assert s == s[..n] + s[n..];
    assert t == t[..n] + t[n..];
    var x, y, c := multiset(s[..n]), multiset(t[..n]), multiset(s[n..]);
    assert x + c == y + c;
    forall e ensures x[e] == y[e] {
      assert (x + c)[e] == x[e] + c[e] && (y + c)[e] == y[e] + c[e];
    }
  }
}
