/** `IrPhi.Usages` as the Go code runs it: dump the map into two parallel
    slices, then sort both by block id through `_PhiSorter`. */
module PhiSort {
  import opened Registers
  import opened Ir
  import Ordering

  /** `ks` and `vs` pair every block id with its own source in `V`. */
  ghost predicate Paired(ks: seq<BlockId>, vs: seq<Reg>, V: map<BlockId, Reg>) {
    |ks| == |vs| && forall p :: 0 <= p < |ks| ==> ks[p] in V && vs[p] == V[ks[p]]
  }

  /** `_PhiSorter`: the block ids `k` and the sources `v`, to be sorted together. */
  class PhiSorter {
    const k: array<BlockId>
    const v: array<Reg>

    /** The two slices have one entry per phi source and do not share storage. */
    ghost predicate Valid() {
      k.Length == v.Length && k as object != v as object
    }

    constructor (k: array<BlockId>, v: array<Reg>)
      requires k.Length == v.Length && k as object != v as object
      ensures this.k == k && this.v == v && Valid()
    {
      this.k := k;
      this.v := v;
    }

    function Len(): (n: nat)
      requires Valid()
      ensures n == k.Length && n == v.Length
    {
      k.Length
    }

    /** Orders positions by block id, strictly: a position never comes before
        itself, nor before another position with the same id. */
    predicate Less(i: nat, j: nat): (b: bool)
      requires i < k.Length && j < k.Length
      reads k
      ensures b ==> i != j && k[i] != k[j]
    {
      k[i] < k[j]
    }

    /** Swaps positions `i` and `j` of both slices. */
    method Swap(i: nat, j: nat)
      requires Valid() && i < k.Length && j < k.Length
      modifies k, v
      ensures k[..] == old(k[..])[i := old(k[j])][j := old(k[i])]
      ensures v[..] == old(v[..])[i := old(v[j])][j := old(v[i])]
    {
      k[i], k[j] := k[j], k[i];
      v[i], v[j] := v[j], v[i];
    }
  }

  /** Swapping two positions of both slices keeps every id paired with its source. */
  lemma SwapKeepsPaired(ks: seq<BlockId>, vs: seq<Reg>, V: map<BlockId, Reg>, i: nat, j: nat)
    requires i < |ks| && j < |ks| && Paired(ks, vs, V)
    ensures Paired(ks[i := ks[j]][j := ks[i]], vs[i := vs[j]][j := vs[i]], V)
  {
  }

  /** One step of the inner loop permutes both slices, keeps the ids distinct
      and paired and moves the hole of `Inserting` one place down. */
  lemma SwapStep(ks: seq<BlockId>, vs: seq<Reg>, V: map<BlockId, Reg>, m: nat, j: nat)
    requires Ordering.Distinct(ks) && Paired(ks, vs, V)
    requires Ordering.Inserting(ks, m, j) && 0 < j && ks[j] < ks[j - 1]
    ensures multiset(ks[j := ks[j - 1]][j - 1 := ks[j]]) == multiset(ks)
    ensures multiset(vs[j := vs[j - 1]][j - 1 := vs[j]]) == multiset(vs)
    ensures Ordering.Distinct(ks[j := ks[j - 1]][j - 1 := ks[j]])
    ensures Paired(ks[j := ks[j - 1]][j - 1 := ks[j]], vs[j := vs[j - 1]][j - 1 := vs[j]], V)
    ensures Ordering.Inserting(ks[j := ks[j - 1]][j - 1 := ks[j]], m, j - 1)
  {
    Ordering.SwapPermutes(ks, j, j - 1);
    Ordering.SwapPermutes(vs, j, j - 1);
    Ordering.SwapKeepsDistinct(ks, j, j - 1);
    SwapKeepsPaired(ks, vs, V, j, j - 1);
    Ordering.InsertStep(ks, m, j);
  }

  /** One pass of the insertion sort: moves entry `i` down into the sorted
      prefix `[0, i)` through `Less` and `Swap`, so that `[0, i]` is sorted. */
  method InsertBlock(s: PhiSorter, i: nat, ghost V: map<BlockId, Reg>)
    requires s.Valid() && i < s.k.Length
    requires Ordering.Distinct(s.k[..]) && Paired(s.k[..], s.v[..], V)
    requires Ordering.SortedPrefix(s.k[..], i)
    modifies s.k, s.v
    ensures multiset(s.k[..]) == old(multiset(s.k[..])) && multiset(s.v[..]) == old(multiset(s.v[..]))
    ensures Ordering.Distinct(s.k[..]) && Paired(s.k[..], s.v[..], V)
    ensures Ordering.SortedPrefix(s.k[..], i + 1)
  {
    var j := i;
    while j > 0 && s.Less(j, j - 1)
      invariant 0 <= j <= i
      invariant multiset(s.k[..]) == old(multiset(s.k[..])) && multiset(s.v[..]) == old(multiset(s.v[..]))
      invariant Ordering.Distinct(s.k[..]) && Paired(s.k[..], s.v[..], V)
      invariant Ordering.Inserting(s.k[..], i + 1, j)
    {
      SwapStep(s.k[..], s.v[..], V, i + 1, j);
      s.Swap(j, j - 1);
      j := j - 1;
    }
    assert j > 0 ==> s.k[j - 1] != s.k[j];
    Ordering.InsertDone(s.k[..], i + 1, j);
  }

  /** `sort.Sort` over a `_PhiSorter` (an insertion sort through Len, Less and
      Swap): both slices end as permutations of what they held, the ids
      strictly increasing and every id still next to its source. */
  method SortByBlock(s: PhiSorter, ghost V: map<BlockId, Reg>)
    requires s.Valid()
    requires Ordering.Distinct(s.k[..]) && Paired(s.k[..], s.v[..], V)
    modifies s.k, s.v
    ensures multiset(s.k[..]) == old(multiset(s.k[..])) && multiset(s.v[..]) == old(multiset(s.v[..]))
    ensures Ordering.StrictlyIncreasing(s.k[..])
    ensures Ordering.Distinct(s.k[..]) && Paired(s.k[..], s.v[..], V)
  {
    var n := s.Len();
    var i := 0;
    while i < n
      invariant 0 <= i <= n
      invariant multiset(s.k[..]) == old(multiset(s.k[..])) && multiset(s.v[..]) == old(multiset(s.v[..]))
      invariant Ordering.Distinct(s.k[..]) && Paired(s.k[..], s.v[..], V)
      invariant Ordering.SortedPrefix(s.k[..], i)
    {
      InsertBlock(s, i, V);
      i := i + 1;
    }
  }

  /** The loop of `IrPhi.Usages` that dumps the map into two fresh slices. */
  method DumpSources(phi: IrPhi) returns (k: array<BlockId>, v: array<Reg>)
    ensures fresh(k) && fresh(v) && k as object != v as object
    ensures k.Length == v.Length == |phi.V|
    ensures Ordering.Distinct(k[..]) && Paired(k[..], v[..], phi.V)
  {
    var n := |phi.V|;
    k := new BlockId[n];
    v := new Reg[n];
    var rest := phi.V.Keys;
    var i := 0;
    while rest != {}
      invariant 0 <= i <= n && i + |rest| == n
      invariant rest <= phi.V.Keys
      invariant forall p :: 0 <= p < i ==> k[p] in phi.V.Keys - rest && v[p] == phi.V[k[p]]
      invariant forall p, q :: 0 <= p < q < i ==> k[p] != k[q]
    {
      Ordering.NonEmptyHasMember(rest);
      var b :| b in rest;
      k[i], v[i] := b, phi.V[b];
      rest := rest - {b};
      i := i + 1;
    }
  }

  /** Sorted, duplicate-free slices that pair every predecessor of the phi with
      its own source are the phi's sources in block-id order. */
  lemma SortedPairsAreSources(ks: seq<BlockId>, vs: seq<Reg>, phi: IrPhi)
    requires Ordering.StrictlyIncreasing(ks) && Ordering.Distinct(ks)
    requires Paired(ks, vs, phi.V) && |ks| == |phi.V|
    ensures ks == PhiBlocks(phi) && vs == PhiSources(phi)
  {
    Ordering.DistinctCovers(ks, phi.V.Keys);
    Ordering.AscendingUnique(ks, phi.V.Keys);
    assert forall j :: 0 <= j < |vs| ==> vs[j] == PhiSources(phi)[j];
  }

  /** The (block id, source) pairs of a phi, sorted by block id as `IrPhi.String`
      sorts them. */
  method SortedPairs(phi: IrPhi) returns (ks: seq<BlockId>, vs: seq<Reg>)
    ensures ks == PhiBlocks(phi) && vs == PhiSources(phi)
  {
    var k, v := DumpSources(phi);
    var sorter := new PhiSorter(k, v);
    SortByBlock(sorter, phi.V);
    SortedPairsAreSources(k[..], v[..], phi);
    ks, vs := k[..], v[..];
  }

  /** `IrPhi.Usages`: the sources of the phi, one per predecessor, ordered by
      ascending block id whatever order the map is walked in. */
  method PhiUsages(phi: IrPhi) returns (rs: seq<Reg>)
    ensures rs == PhiSources(phi)
  {
    var ks, vs := SortedPairs(phi);
    rs := vs;
  }
}
