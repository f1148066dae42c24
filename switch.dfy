/** The successors of a terminator (`IrTerminator.Successors`): the iterator
    `_SwitchSuccessors` that `IrSwitch.iter` builds over a sorted table of
    targets, and `_EmptySuccessor` for a return. */
module Switches {
  import opened Basics
  import opened Ir
  import Ordering

  /** `_SwitchTarget`: a case value and the block it jumps to. */
  datatype SwitchTarget = SwitchTarget(i: Int64, b: BlockId)

  /** One successor as a consumer sees it: the block from `Block` and the case
      value from `Value`, absent (`ok == false`) for the default branch. */
  datatype Edge = Edge(block: BlockId, value: Option<Int64>)

  /* ---------------- the table `iter` builds ---------------- */

  /** The first `n` entries of `t` are cases of `Br`: each value is a key of
      `Br` and its block is the one `Br` maps it to. */
  ghost predicate Cases(t: seq<SwitchTarget>, n: nat, Br: map<Int64, BlockId>) {
    n <= |t| && forall p :: 0 <= p < n ==> t[p].i in Br && Br[t[p].i] == t[p].b
  }

  /** The first `n` entries of `t` have distinct values. */
  ghost predicate DistinctValues(t: seq<SwitchTarget>, n: nat) {
    n <= |t| && forall p, q :: 0 <= p < q < n ==> t[p].i != t[q].i
  }

  /** The case values of the entries of `t`, in table order. */
  function Values(t: seq<SwitchTarget>): (vs: seq<int>)
    ensures |vs| == |t| && forall p :: 0 <= p < |t| ==> vs[p] == t[p].i
  {
    seq(|t|, p requires 0 <= p < |t| => t[p].i)
  }

  /** The first `n` entries of `t` are in strictly increasing order of value. */
  ghost predicate SortedValues(t: seq<SwitchTarget>, n: nat) {
    Ordering.SortedPrefix(Values(t), n)
  }

  /** Exchanging two entries exchanges their values. */
  lemma ValuesSwap(t: seq<SwitchTarget>, i: nat, j: nat)
    requires i < |t| && j < |t|
    ensures Values(t[i := t[j]][j := t[i]]) == Values(t)[i := Values(t)[j]][j := Values(t)[i]]
  {
  }

  /** The cases for the values `vs`, each with the block `Br` maps it to. */
  function CaseList(vs: seq<Int64>, Br: map<Int64, BlockId>): (cs: seq<SwitchTarget>)
    requires forall j :: 0 <= j < |vs| ==> vs[j] in Br
    ensures |cs| == |vs| && forall j :: 0 <= j < |vs| ==> cs[j] == SwitchTarget(vs[j], Br[vs[j]])
  {
    seq(|vs|, j requires 0 <= j < |vs| => SwitchTarget(vs[j], Br[vs[j]]))
  }

  /** The table of `iter`: every case of the switch by ascending value, then the
      default branch with value 0. */
  function SwitchTargets(sw: IrSwitch): (t: seq<SwitchTarget>)
    ensures |t| == |sw.Br| + 1 && t[|sw.Br|] == SwitchTarget(0, sw.Ln)
    ensures Cases(t, |sw.Br|, sw.Br) && SortedValues(t, |sw.Br|)
  {
    var vs := SwitchValues(sw);
    var cs := CaseList(vs, sw.Br);
    var t := cs + [SwitchTarget(0, sw.Ln)];
    assert Cases(t, |vs|, sw.Br) by {
      forall p | 0 <= p < |vs| ensures t[p].i in sw.Br && sw.Br[t[p].i] == t[p].b {
        assert t[p] == cs[p];
      }
    }
    assert SortedValues(t, |vs|) by {
      forall p, q | 0 <= p < q < |vs| ensures t[p].i < t[q].i {
        assert t[p] == cs[p] && t[q] == cs[q];
      }
    }
    t
  }

  /** Every case of the switch is in its table. */
  lemma TargetsCover(sw: IrSwitch, v: Int64)
    requires v in sw.Br
    ensures exists j :: 0 <= j < |sw.Br| && SwitchTargets(sw)[j].i == v
  {
    var vs := SwitchValues(sw);
    var j :| 0 <= j < |vs| && vs[j] == v;
    SortedCaseValues(SwitchTargets(sw), sw);
    assert SwitchTargets(sw)[j].i == v;
  }

  /** The values of sorted cases that cover the switch are its values in
      ascending order, whatever order they were dumped in. */
  lemma SortedCaseValues(t: seq<SwitchTarget>, sw: IrSwitch)
    requires |t| > |sw.Br| && Cases(t, |sw.Br|, sw.Br) && SortedValues(t, |sw.Br|)
    ensures forall j :: 0 <= j < |sw.Br| ==> t[j].i == SwitchValues(sw)[j]
  {
    var n := |sw.Br|;
    var vs: seq<int> := seq(n, j requires 0 <= j < n => t[j].i);
    assert forall j :: 0 <= j < n ==> vs[j] == t[j].i;
    assert Ordering.StrictlyIncreasing(vs);
    Ordering.DistinctCovers(vs, sw.Br.Keys);
    Ordering.AscendingUnique(vs, sw.Br.Keys);
  }

  /** Whatever order the map was dumped in, a table whose cases are exactly the
      switch's, sorted, followed by the default branch is `SwitchTargets`. */
  lemma SortedCasesAreTargets(t: seq<SwitchTarget>, sw: IrSwitch)
    requires |t| == |sw.Br| + 1 && t[|sw.Br|] == SwitchTarget(0, sw.Ln)
    requires Cases(t, |sw.Br|, sw.Br) && SortedValues(t, |sw.Br|)
    ensures t == SwitchTargets(sw)
  {
    var n := |sw.Br|;
    var u := SwitchTargets(sw);
    SortedCaseValues(t, sw);
    SortedCaseValues(u, sw);
    assert forall j :: 0 <= j < |t| ==> t[j] == u[j];
  }

  /* ---------------- building the table ---------------- */

  /** The loop of `iter` that dumps the cases into a fresh slice with room for
      the default branch, which it then appends. */
  method DumpTargets(sw: IrSwitch) returns (a: array<SwitchTarget>)
    ensures fresh(a) && a.Length == |sw.Br| + 1 && a[|sw.Br|] == SwitchTarget(0, sw.Ln)
    ensures CaseTable(a[..], |sw.Br|, sw.Br)
  {
    var n := |sw.Br|;
    a := new SwitchTarget[n + 1](_ => SwitchTarget(0, sw.Ln));
    var rest := sw.Br.Keys;
    var k := 0;
    while rest != {}
      invariant 0 <= k <= n && k + |rest| == n
      invariant rest <= sw.Br.Keys
      invariant forall p :: 0 <= p < k ==> a[p].i in sw.Br.Keys - rest && a[p].b == sw.Br[a[p].i]
      invariant forall p, q :: 0 <= p < q < k ==> a[p].i != a[q].i
    {
      Ordering.NonEmptyHasMember(rest);
      var i :| i in rest;
      a[k] := SwitchTarget(i, sw.Br[i]);
      rest := rest - {i};
      k := k + 1;
    }
    a[n] := SwitchTarget(0, sw.Ln);
  }

  /** The first `n` entries of `t` are cases of `Br` with distinct values. */
  ghost predicate CaseTable(t: seq<SwitchTarget>, n: nat, Br: map<Int64, BlockId>) {
    Cases(t, n, Br) && DistinctValues(t, n)
  }

  /** Swapping two cases keeps them cases of `Br` with distinct values, and
      leaves the entries from `n` on alone. */
  lemma SwapKeepsCases(t: seq<SwitchTarget>, n: nat, Br: map<Int64, BlockId>, i: nat, j: nat)
    requires i < n && j < n
    requires CaseTable(t, n, Br)
    ensures CaseTable(t[i := t[j]][j := t[i]], n, Br)
    ensures t[i := t[j]][j := t[i]][n..] == t[n..]
  {
    var s := t[i := t[j]][j := t[i]];
    forall p | 0 <= p < n ensures s[p].i in Br && Br[s[p].i] == s[p].b {
      var p' := if p == i then j else if p == j then i else p;
      assert s[p] == t[p'];
    }
    forall p, q | 0 <= p < q < n ensures s[p].i != s[q].i {
      var p' := if p == i then j else if p == j then i else p;
      var q' := if q == i then j else if q == j then i else q;
      assert s[p] == t[p'] && s[q] == t[q'] && p' != q';
    }
  }

  /** Exchanges two entries of the table. */
  method SwapTargets(a: array<SwitchTarget>, i: nat, j: nat)
    requires i < a.Length && j < a.Length
    modifies a
    ensures a[..] == old(a[..])[i := old(a[j])][j := old(a[i])]
  {
    a[i], a[j] := a[j], a[i];
  }

  /** One step of the inner loop permutes the table, keeps it a table of the
      cases, leaves the entries from `n` on alone and moves the hole of
      `Inserting` one place down. */
  lemma CaseSwapStep(t: seq<SwitchTarget>, n: nat, Br: map<Int64, BlockId>, m: nat, j: nat)
    requires m <= n && CaseTable(t, n, Br)
    requires Ordering.Inserting(Values(t), m, j) && 0 < j && t[j].i < t[j - 1].i
    ensures multiset(t[j := t[j - 1]][j - 1 := t[j]]) == multiset(t)
    ensures CaseTable(t[j := t[j - 1]][j - 1 := t[j]], n, Br)
    ensures t[j := t[j - 1]][j - 1 := t[j]][n..] == t[n..]
    ensures Ordering.Inserting(Values(t[j := t[j - 1]][j - 1 := t[j]]), m, j - 1)
  {
    var u := t[j := t[j - 1]][j - 1 := t[j]];
    var vs := Values(t);
    Ordering.SwapPermutes(t, j, j - 1);
    SwapKeepsCases(t, n, Br, j, j - 1);
    ValuesSwap(t, j, j - 1);
    assert vs[j] < vs[j - 1];
    Ordering.InsertStep(vs, m, j);
    assert Values(u) == vs[j := vs[j - 1]][j - 1 := vs[j]];
  }

  /** When the hole of `Inserting` reaches the bottom or a left neighbour that
      is not larger, `[0, m)` is sorted: the values of a case table are distinct. */
  lemma CaseInsertDone(t: seq<SwitchTarget>, n: nat, Br: map<Int64, BlockId>, m: nat, j: nat)
    requires m <= n && CaseTable(t, n, Br)
    requires Ordering.Inserting(Values(t), m, j) && (j == 0 || !(t[j].i < t[j - 1].i))
    ensures SortedValues(t, m)
  {
    var vs := Values(t);
    if j > 0 {
      assert t[j - 1].i != t[j].i;
      assert vs[j - 1] < vs[j];
    }
    Ordering.InsertDone(vs, m, j);
  }

  /** One pass of the insertion sort: moves entry `i` down into the sorted
      prefix `[0, i)`, so that `[0, i]` is sorted. */
  method InsertCase(a: array<SwitchTarget>, n: nat, i: nat, ghost Br: map<Int64, BlockId>)
    requires i < n <= a.Length
    requires CaseTable(a[..], n, Br) && SortedValues(a[..], i)
    modifies a
    ensures multiset(a[..]) == old(multiset(a[..]))
    ensures CaseTable(a[..], n, Br) && SortedValues(a[..], i + 1)
    ensures a[n..] == old(a[n..])
  {
    var j := i;
    while j > 0 && a[j].i < a[j - 1].i
      invariant 0 <= j <= i
      invariant multiset(a[..]) == old(multiset(a[..]))
      invariant CaseTable(a[..], n, Br) && Ordering.Inserting(Values(a[..]), i + 1, j)
      invariant a[n..] == old(a[n..])
    {
      ghost var t := a[..];
      CaseSwapStep(t, n, Br, i + 1, j);
      SwapTargets(a, j, j - 1);
      j := j - 1;
    }
    CaseInsertDone(a[..], n, Br, i + 1, j);
  }

  /** `sort.Slice(t[:n], ...)`: sorts the cases by value and leaves the default
      branch after them where it is (an insertion sort). */
  method SortCases(a: array<SwitchTarget>, n: nat, ghost Br: map<Int64, BlockId>)
    requires n <= a.Length
    requires CaseTable(a[..], n, Br)
    modifies a
    ensures multiset(a[..n]) == old(multiset(a[..n]))
    ensures CaseTable(a[..], n, Br) && SortedValues(a[..], n)
    ensures a[n..] == old(a[n..])
  {
    var i := 0;
    while i < n
      invariant 0 <= i <= n
      invariant multiset(a[..]) == old(multiset(a[..]))
      invariant CaseTable(a[..], n, Br) && SortedValues(a[..], i)
      invariant a[n..] == old(a[n..])
    {
      InsertCase(a, n, i, Br);
      i := i + 1;
    }
    Ordering.PrefixPermutes(a[..], old(a[..]), n);
    assert a[..n] == a[..][..n];
    assert old(a[..n]) == old(a[..])[..n];
  }

  /* ---------------- the iterators ---------------- */

  /** `_SwitchSuccessors`: a cursor `i` over the table `t`; `i` is -1 until the
      first `Next`. */
  class SwitchSuccessors {
    var i: int
    const t: seq<SwitchTarget>

    constructor (t: seq<SwitchTarget>)
      ensures this.t == t && i == -1
    {
      this.t := t;
      i := -1;
    }

    /** Advances the cursor and tells whether it is still on an entry. */
    method Next() returns (more: bool)
      modifies this
      ensures i == old(i) + 1 && more == (i < |t|)
    {
      i := i + 1;
      more := i < |t|;
    }

    /** The block of the current entry; nil past the end, and a panic on the
        index -1 when called before the first `Next`. */
    method Block() returns (b: Result<Option<BlockId>>)
      ensures i >= |t| ==> b == Ok(None)
      ensures 0 <= i < |t| ==> b == Ok(Some(t[i].b))
      ensures i < 0 && i < |t| ==> b == Panic(IndexOutOfRange(i))
    {
      if i >= |t| {
        b := Ok(None);
      } else if i < 0 {
        b := Panic(IndexOutOfRange(i));
      } else {
        b := Ok(Some(t[i].b));
      }
    }

    /** The case value of the current entry; `(0, false)` on the default branch
        (the last entry) and past the end, and a panic on the index -1 when
        called before the first `Next` of a non-empty table. */
    method Value() returns (v: Result<(Int64, bool)>)
      ensures i >= |t| - 1 ==> v == Ok((0, false))
      ensures 0 <= i < |t| - 1 ==> v == Ok((t[i].i, true))
      ensures i < 0 && i < |t| - 1 ==> v == Panic(IndexOutOfRange(i))
    {
      if i >= |t| - 1 {
        v := Ok((0, false));
      } else if i < 0 {
        v := Panic(IndexOutOfRange(i));
      } else {
        v := Ok((t[i].i, true));
      }
    }
  }

  /** `IrSwitch.iter`: the table of every case sorted by value and the default
      branch last, under a cursor that has not started. */
  method Iter(sw: IrSwitch) returns (it: SwitchSuccessors)
    ensures fresh(it) && it.i == -1 && it.t == SwitchTargets(sw)
  {
    var n := |sw.Br|;
    var a := DumpTargets(sw);
    SortCases(a, n, sw.Br);
    assert a[..][n] == a[n..][0];
    SortedCasesAreTargets(a[..], sw);
    it := new SwitchSuccessors(a[..]);
  }

  /** `_EmptySuccessor`: the successors of a return, of which there are none. */
  class EmptySuccessor {
    constructor () {}

    method Next() returns (more: bool)
      ensures !more
    {
      more := false;
    }

    method Block() returns (b: Option<BlockId>)
      ensures b == None
    {
      b := None;
    }

    method Value() returns (v: (Int64, bool))
      ensures v == (0, false)
    {
      v := (0, false);
    }
  }

  /** What `IrTerminator.Successors` hands out for each terminator. */
  datatype Successors = OfSwitch(it: SwitchSuccessors) | OfReturn(e: EmptySuccessor)

  method TerminatorSuccessors(n: IrNode) returns (s: Successors)
    requires IsTerminator(n)
    ensures n.Switch? ==> s.OfSwitch? && fresh(s.it) && s.it.i == -1 && s.it.t == SwitchTargets(n.sw)
    ensures n.Return? ==> s.OfReturn?
  {
    if n.Switch? {
      var it := Iter(n.sw);
      s := OfSwitch(it);
    } else {
      var e := new EmptySuccessor();
      s := OfReturn(e);
    }
  }

  /* ---------------- what a consumer observes ---------------- */

  /** The edges read off a table entry by entry: every entry's block, with its
      value except on the last entry. */
  function EdgesOf(t: seq<SwitchTarget>): (es: seq<Edge>)
    ensures |es| == |t|
    ensures forall j :: 0 <= j < |t| ==> es[j].block == t[j].b
    ensures forall j :: 0 <= j < |t| ==> (es[j].value.Some? <==> j < |t| - 1)
    ensures forall j :: 0 <= j < |t| - 1 ==> es[j].value == Some(t[j].i)
  {
    seq(|t|, j requires 0 <= j < |t| => Edge(t[j].b, if j < |t| - 1 then Some(t[j].i) else None))
  }

  /** The case edges of a switch carry their value and the block `Br` maps it to. */
  lemma CaseEdges(sw: IrSwitch)
    ensures forall j :: 0 <= j < |sw.Br| ==>
      EdgesOf(SwitchTargets(sw))[j] == Edge(sw.Br[SwitchTargets(sw)[j].i], Some(SwitchTargets(sw)[j].i))
  {
  }

  /** The successors of a switch in the order its iterator yields them: every
      case with its value, by ascending value, then the default block without
      a value. */
  function SwitchEdges(sw: IrSwitch): (es: seq<Edge>)
    ensures |es| == |sw.Br| + 1 && es[|sw.Br|] == Edge(sw.Ln, None)
    ensures forall j :: 0 <= j < |sw.Br| ==>
      es[j].value.Some? && es[j].value.value in sw.Br && es[j].block == sw.Br[es[j].value.value]
    ensures forall p, q :: 0 <= p < q < |sw.Br| ==> es[p].value.value < es[q].value.value
    ensures forall v :: v in sw.Br ==> exists j :: 0 <= j < |sw.Br| && es[j] == Edge(sw.Br[v], Some(v))
  {
    var n := |sw.Br|;
    var t := SwitchTargets(sw);
    var es := EdgesOf(t);
    CaseEdges(sw);
    assert forall v :: v in sw.Br ==> exists j :: 0 <= j < n && es[j] == Edge(sw.Br[v], Some(v)) by {
      forall v | v in sw.Br ensures exists j :: 0 <= j < n && es[j] == Edge(sw.Br[v], Some(v)) {
        TargetsCover(sw, v);
        var j :| 0 <= j < n && t[j].i == v;
        assert es[j] == Edge(sw.Br[v], Some(v));
      }
    }
    es
  }

  /** The successors of any terminator; a return has none. */
  function SuccessorEdges(n: IrNode): (es: seq<Edge>)
    requires IsTerminator(n)
    ensures n.Return? ==> es == []
    ensures n.Switch? ==> |es| == |n.sw.Br| + 1
  {
    if n.Switch? then SwitchEdges(n.sw) else []
  }

  /** Every case of `a` is a case of `b` with the same block when the two
      switches have the same successors. */
  lemma CasesCarryOver(a: IrSwitch, b: IrSwitch)
    requires SwitchEdges(a) == SwitchEdges(b)
    ensures forall v :: v in a.Br ==> v in b.Br && b.Br[v] == a.Br[v]
  {
    var es := SwitchEdges(a);
    forall v | v in a.Br ensures v in b.Br && b.Br[v] == a.Br[v] {
      var j :| 0 <= j < |a.Br| && es[j] == Edge(a.Br[v], Some(v));
      assert j < |b.Br|;
    }
  }

  /** Two switches with the same successors have the same cases and the same
      default: the edges lose nothing of the branch table. */
  lemma SwitchEdgesDetermine(a: IrSwitch, b: IrSwitch)
    requires SwitchEdges(a) == SwitchEdges(b)
    ensures a.Ln == b.Ln && a.Br == b.Br
  {
    assert |a.Br| == |b.Br| by { assert |SwitchEdges(a)| == |SwitchEdges(b)|; }
    assert a.Ln == b.Ln by { assert SwitchEdges(a)[|a.Br|] == SwitchEdges(b)[|b.Br|]; }
    CasesCarryOver(a, b);
    CasesCarryOver(b, a);
    SameMap(a.Br, b.Br);
  }

  lemma SameMap(m: map<Int64, BlockId>, w: map<Int64, BlockId>)
    requires forall v :: v in m ==> v in w && w[v] == m[v]
    requires forall v :: v in w ==> v in m
    ensures m == w
  {
    assert m.Keys == w.Keys;
  }

  /** The loop every consumer of `Successors` runs, `for it.Next() { it.Block();
      it.Value() }`, over a switch iterator: it sees the edges of the table and
      leaves the cursor one past the end. */
  method Drain(it: SwitchSuccessors) returns (es: seq<Edge>)
    requires it.i == -1
    modifies it
    ensures es == EdgesOf(it.t) && it.i == |it.t|
  {
    es := [];
    var more := it.Next();
    while more
      invariant 0 <= it.i <= |it.t| && more == (it.i < |it.t|)
      invariant es == EdgesOf(it.t)[..it.i]
      decreases |it.t| - it.i
    {
      var b := it.Block();
      var v := it.Value();
      es := es + [Edge(b.value.value, if v.value.1 then Some(v.value.0) else None)];
      more := it.Next();
    }
  }

  /** Consuming the successors of a terminator yields `SuccessorEdges`. */
  method CollectSuccessors(n: IrNode) returns (es: seq<Edge>)
    requires IsTerminator(n)
    ensures es == SuccessorEdges(n)
  {
    var s := TerminatorSuccessors(n);
    es := [];
    match s
    case OfSwitch(it) =>
      es := Drain(it);
    case OfReturn(e) =>
      var more := e.Next();
      assert !more;
  }
}
