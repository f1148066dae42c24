/** The SSA instruction set (internal/atm/ssa/ir.go): fifteen instruction
    variants, each a record of register slots and immediates, and the register
    slots each variant reads (`Usages`) and writes (`Definations` in the Go code).

    The Go methods return the addresses of the instruction's own fields, so that
    a renaming pass rewrites the instruction in place. Here a slot is named by its
    position in those lists: `WithUsage(n, k, r)` / `WithDefinition(n, k, r)` are
    the instruction after writing `r` through the k-th address, and the lemmas
    show that such a write changes that slot and nothing else. */
module Ir {
  import opened Basics
  import opened Registers
  import Ordering

  /** A basic block, known to instructions only by its `Id`. */
  type BlockId = int

  /** The calling conventions of `hir.CallHandle`. */
  datatype CallType = CCall | GCall | ICall

  /** `hir.CallHandle`, reduced to what the IR uses: the convention, the method
      slot of an interface call, and the text `hir` renders for a static target. */
  datatype CallHandle = CallHandle(Type: CallType, Slot: nat, Name: string)

  datatype UnaryOp = Negate | Swap16 | Swap32 | Swap64 | Sx32to64

  datatype BinaryOp =
    | Add | Sub | Mul | And | Or | Xor | Shr
    | CmpEq | CmpNe | CmpLt | CmpLtu | CmpGeu

  /** The (type, value) register pair of an interface call. */
  datatype IrReceiver = IrReceiver(T: Reg, V: Reg)

  /** Phi: the source register per predecessor block, merged into `R`. */
  datatype IrPhi = IrPhi(R: Reg, V: map<BlockId, Reg>)
  /** Switch on `V`: a target block per case value, and the default `Ln`. */
  datatype IrSwitch = IrSwitch(V: Reg, Ln: BlockId, Br: map<Int64, BlockId>)
  datatype IrReturn = IrReturn(R: seq<Reg>)
  datatype IrLoad = IrLoad(R: Reg, Mem: Reg, Size: bv8)
  datatype IrStore = IrStore(R: Reg, Mem: Reg, Size: bv8)
  datatype IrLoadArg = IrLoadArg(R: Reg, Id: bv64)
  datatype IrConstInt = IrConstInt(R: Reg, V: Int64)
  /** The pointer immediate is an opaque address. */
  datatype IrConstPtr = IrConstPtr(R: Reg, P: nat)
  datatype IrLEA = IrLEA(R: Reg, Mem: Reg, Off: Reg)
  datatype IrUnaryExpr = IrUnaryExpr(R: Reg, V: Reg, Op: UnaryOp)
  datatype IrBinaryExpr = IrBinaryExpr(R: Reg, X: Reg, Y: Reg, Op: BinaryOp)
  datatype IrBitTestSet = IrBitTestSet(T: Reg, S: Reg, X: Reg, Y: Reg)
  /** A call; `Rx` is the receiver pointer, `None` standing for nil. */
  datatype IrCall = IrCall(Fn: CallHandle, Rx: Option<IrReceiver>, In: seq<Reg>, Out: seq<Reg>)
  datatype IrWriteBarrier = IrWriteBarrier(R: Reg, V: Reg)

  /** The closed set of `IrNode` implementations. */
  datatype IrNode =
    | Phi(phi: IrPhi)
    | Switch(sw: IrSwitch)
    | Return(ret: IrReturn)
    | Load(load: IrLoad)
    | Store(store: IrStore)
    | LoadArg(arg: IrLoadArg)
    | ConstInt(ci: IrConstInt)
    | ConstPtr(cp: IrConstPtr)
    | LEA(lea: IrLEA)
    | UnaryExpr(un: IrUnaryExpr)
    | BinaryExpr(bin: IrBinaryExpr)
    | BitTestSet(bts: IrBitTestSet)
    | Call(call: IrCall)
    | WriteBarrier(wb: IrWriteBarrier)
    | Breakpoint

  /* ---------------- capabilities ---------------- */

  /** Only switch and return implement `IrTerminator`; both read a register
      and neither writes one. */
  predicate IsTerminator(n: IrNode): (b: bool)
    ensures b ==> HasUsages(n) && !HasDefinitions(n)
  {
    n.Switch? || n.Return?
  }

  /** The variants that implement `IrUsages`: all but the loads of an argument
      or a constant and the breakpoint. */
  predicate HasUsages(n: IrNode): (b: bool)
    ensures b <==> (n.Phi? || n.Switch? || n.Return? || n.Load? || n.Store? || n.LEA?
                    || n.UnaryExpr? || n.BinaryExpr? || n.BitTestSet? || n.Call? || n.WriteBarrier?)
  {
    !(n.LoadArg? || n.ConstInt? || n.ConstPtr? || n.Breakpoint?)
  }

  /** The variants that implement `IrDefinations`: all but the terminators, the
      two stores and the breakpoint. */
  predicate HasDefinitions(n: IrNode): (b: bool)
    ensures b <==> (n.Phi? || n.Load? || n.LoadArg? || n.ConstInt? || n.ConstPtr? || n.LEA?
                    || n.UnaryExpr? || n.BinaryExpr? || n.BitTestSet? || n.Call?)
  {
    !(n.Switch? || n.Return? || n.Store? || n.WriteBarrier? || n.Breakpoint?)
  }

  /* ---------------- phi sources ---------------- */

  /** The predecessor block ids of a phi in ascending order: the order `_PhiSorter`
      leaves the sources in. */
  function PhiBlocks(phi: IrPhi): (bs: seq<BlockId>)
    ensures Ordering.StrictlyIncreasing(bs) && |bs| == |phi.V|
    ensures forall j :: 0 <= j < |bs| ==> bs[j] in phi.V
    ensures forall b :: b in phi.V ==> b in bs
  {
    Ordering.Ascending(phi.V.Keys)
  }

  /** `IrPhi.Usages`: one source register per map entry, ordered by block id. */
  function PhiSources(phi: IrPhi): (rs: seq<Reg>)
    ensures |rs| == |phi.V|
    ensures forall j :: 0 <= j < |rs| ==> rs[j] == phi.V[PhiBlocks(phi)[j]]
  {
    var bs := PhiBlocks(phi);
    seq(|bs|, j requires 0 <= j < |bs| => phi.V[bs[j]])
  }

  /* ---------------- switch cases ---------------- */

  /** The case values of a switch in ascending order. */
  function SwitchValues(sw: IrSwitch): (vs: seq<Int64>)
    ensures Ordering.StrictlyIncreasing(vs) && |vs| == |sw.Br|
    ensures forall j :: 0 <= j < |vs| ==> vs[j] in sw.Br
    ensures forall v :: v in sw.Br ==> v in vs
  {
    var vs := Ordering.Ascending(sw.Br.Keys);
    assert forall j :: 0 <= j < |vs| ==> vs[j] in sw.Br by {
      forall j | 0 <= j < |vs| ensures vs[j] in sw.Br { assert vs[j] in vs; }
    }
    vs
  }

  /* ---------------- usages and definitions ---------------- */

  function ReceiverRegs(rx: Option<IrReceiver>): (rs: seq<Reg>)
    ensures |rs| == if rx.Some? then 2 else 0
  {
    match rx
    case None => []
    case Some(x) => [x.T, x.V]
  }

  /** The registers an instruction reads, in the order of its `Usages` method;
      a variant without that method reads none. */
  function Usages(n: IrNode): (rs: seq<Reg>)
    ensures !HasUsages(n) ==> rs == []
    ensures n.Phi? ==> |rs| == |n.phi.V|
  {
    match n
    case Phi(p) => PhiSources(p)
    case Switch(s) => [s.V]
    case Return(r) => r.R
    case Load(l) => [l.Mem]
    case Store(s) => [s.R, s.Mem]
    case LoadArg(_) => []
    case ConstInt(_) => []
    case ConstPtr(_) => []
    case LEA(l) => [l.Mem, l.Off]
    case UnaryExpr(u) => [u.V]
    case BinaryExpr(b) => [b.X, b.Y]
    case BitTestSet(b) => [b.X, b.Y]
    case Call(c) => ReceiverRegs(c.Rx) + c.In
    case WriteBarrier(w) => [w.R, w.V]
    case Breakpoint => []
  }

  /** The registers an instruction writes, in the order of its `Definations`
      method; a variant without that method writes none. */
  function Definitions(n: IrNode): (rs: seq<Reg>)
    ensures !HasDefinitions(n) ==> rs == []
  {
    match n
    case Phi(p) => [p.R]
    case Switch(_) => []
    case Return(_) => []
    case Load(l) => [l.R]
    case Store(_) => []
    case LoadArg(a) => [a.R]
    case ConstInt(c) => [c.R]
    case ConstPtr(c) => [c.R]
    case LEA(l) => [l.R]
    case UnaryExpr(u) => [u.R]
    case BinaryExpr(b) => [b.R]
    case BitTestSet(b) => [b.T, b.S]
    case Call(c) => c.Out
    case WriteBarrier(_) => []
    case Breakpoint => []
  }

  /* ---------------- the instruction without its registers ---------------- */

  function Blank(rs: seq<Reg>): (bs: seq<Reg>)
    ensures |bs| == |rs| && forall j :: 0 <= j < |bs| ==> bs[j] == Rz
  {
    seq(|rs|, _ => Rz)
  }

  lemma BlankIgnoresContents(rs: seq<Reg>, k: nat, r: Reg)
    requires k < |rs|
    ensures Blank(rs[k := r]) == Blank(rs)
  {
  }

  /** The predecessors of a phi, each with the source cleared to `Rz`. */
  function Cleared(V: map<BlockId, Reg>): map<BlockId, Reg> {
    map b | b in V :: Rz
  }

  /** The instruction with every register slot cleared to `Rz`: what a rewrite of
      its registers must leave alone (opcodes, sizes, immediates, block targets,
      phi predecessors, the call handle, the presence of a receiver and the
      number of call arguments and results). */
  function Erase(n: IrNode): IrNode {
    match n
    case Phi(p) => Phi(IrPhi(Rz, Cleared(p.V)))
    case Switch(s) => Switch(s.(V := Rz))
    case Return(r) => Return(IrReturn(Blank(r.R)))
    case Load(l) => Load(l.(R := Rz, Mem := Rz))
    case Store(s) => Store(s.(R := Rz, Mem := Rz))
    case LoadArg(a) => LoadArg(a.(R := Rz))
    case ConstInt(c) => ConstInt(c.(R := Rz))
    case ConstPtr(c) => ConstPtr(c.(R := Rz))
    case LEA(l) => LEA(IrLEA(Rz, Rz, Rz))
    case UnaryExpr(u) => UnaryExpr(u.(R := Rz, V := Rz))
    case BinaryExpr(b) => BinaryExpr(b.(R := Rz, X := Rz, Y := Rz))
    case BitTestSet(_) => BitTestSet(IrBitTestSet(Rz, Rz, Rz, Rz))
    case Call(c) =>
      var rx := if c.Rx.Some? then Some(IrReceiver(Rz, Rz)) else None;
      Call(c.(Rx := rx, In := Blank(c.In), Out := Blank(c.Out)))
    case WriteBarrier(_) => WriteBarrier(IrWriteBarrier(Rz, Rz))
    case Breakpoint => Breakpoint
  }

  /** Phis over the same predecessors with the same sources in block-id order
      are the same phi. */
  lemma PhiSourcesDetermine(p: IrPhi, q: IrPhi)
    requires p.V.Keys == q.V.Keys && PhiSources(p) == PhiSources(q)
    ensures p.V == q.V
  {
    var bs := PhiBlocks(p);
    assert PhiBlocks(q) == bs;
    forall x | x in p.V ensures p.V[x] == q.V[x] {
      assert x in bs;
      var j :| 0 <= j < |bs| && bs[j] == x;
      assert PhiSources(p)[j] == PhiSources(q)[j];
    }
  }

  /** Calls of the same shape with the same usages have the same receiver and
      arguments. */
  lemma CallUsagesDetermine(c: IrCall, d: IrCall)
    requires c.Rx.Some? == d.Rx.Some?
    requires ReceiverRegs(c.Rx) + c.In == ReceiverRegs(d.Rx) + d.In
    ensures c.Rx == d.Rx && c.In == d.In
  {
    var rc, rd := ReceiverRegs(c.Rx), ReceiverRegs(d.Rx);
    assert rc == (rc + c.In)[..|rc|] && rd == (rd + d.In)[..|rd|];
    assert c.In == (rc + c.In)[|rc|..] && d.In == (rd + d.In)[|rd|..];
    if c.Rx.Some? { assert rc[0] == rd[0] && rc[1] == rd[1]; }
  }

  /** `SlotsDetermine` for the variants whose registers are plain fields. */
  lemma FieldSlotsDetermine(a: IrNode, b: IrNode)
    requires a.Switch? || a.Load? || a.Store? || a.LoadArg? || a.ConstInt? || a.ConstPtr?
    requires Erase(a) == Erase(b)
    requires Usages(a) == Usages(b) && Definitions(a) == Definitions(b)
    ensures a == b
  {
  }

  /** `SlotsDetermine` for the expression variants and the write barrier. */
  lemma ExprSlotsDetermine(a: IrNode, b: IrNode)
    requires a.LEA? || a.UnaryExpr? || a.BinaryExpr? || a.BitTestSet? || a.WriteBarrier? || a.Breakpoint?
    requires Erase(a) == Erase(b)
    requires Usages(a) == Usages(b) && Definitions(a) == Definitions(b)
    ensures a == b
  {
  }

  /** Clearing the sources of a phi keeps its predecessors. */
  lemma ClearedKeys(V: map<BlockId, Reg>)
    ensures Cleared(V).Keys == V.Keys
  {
  }

  /** `SlotsDetermine` for a phi. */
  lemma PhiSlotsDetermine(p: IrPhi, q: IrPhi)
    requires Cleared(p.V) == Cleared(q.V)
    requires PhiSources(p) == PhiSources(q) && p.R == q.R
    ensures p == q
  {
    ClearedKeys(p.V);
    ClearedKeys(q.V);
    PhiSourcesDetermine(p, q);
  }

  /** `SlotsDetermine` for the variants with register lists. */
  lemma ListSlotsDetermine(a: IrNode, b: IrNode)
    requires a.Return? || a.Call?
    requires Erase(a) == Erase(b)
    requires Usages(a) == Usages(b) && Definitions(a) == Definitions(b)
    ensures a == b
  {
    if a.Call? {
      CallUsagesDetermine(a.call, b.call);
    }
  }

  /** The usages, the definitions and the erased instruction determine the
      instruction: no register field is hidden from a pass that rewrites through
      `Usages` and `Definations`. */
  lemma SlotsDetermine(a: IrNode, b: IrNode)
    requires Erase(a) == Erase(b)
    requires Usages(a) == Usages(b) && Definitions(a) == Definitions(b)
    ensures a == b
  {
    if a.Phi? {
      assert b.Phi? && Definitions(a)[0] == Definitions(b)[0];
      PhiSlotsDetermine(a.phi, b.phi);
    } else if a.Return? || a.Call? {
      ListSlotsDetermine(a, b);
    } else if a.Switch? || a.Load? || a.Store? || a.LoadArg? || a.ConstInt? || a.ConstPtr? {
      FieldSlotsDetermine(a, b);
    } else {
      ExprSlotsDetermine(a, b);
    }
  }

  /* ---------------- writing through a slot ---------------- */

  function WithReceiverReg(rx: Option<IrReceiver>, k: nat, r: Reg): (ry: Option<IrReceiver>)
    requires rx.Some? && k < 2
    ensures ReceiverRegs(ry) == ReceiverRegs(rx)[k := r]
  {
    if k == 0 then Some(rx.value.(T := r)) else Some(rx.value.(V := r))
  }

  /** A phi after writing `r` through its k-th source: the source of the k-th
      predecessor in block-id order. */
  function PhiWithSource(p: IrPhi, k: nat, r: Reg): (q: IrPhi)
    requires k < |p.V|
    ensures PhiSources(q) == PhiSources(p)[k := r]
    ensures q.R == p.R && q.V.Keys == p.V.Keys
  {
    var q := p.(V := p.V[PhiBlocks(p)[k] := r]);
    UpdateKeepsKeys(p.V, PhiBlocks(p)[k], r);
    PhiWriteOneSource(p, k, r, q);
    q
  }

  lemma PhiWriteOneSource(p: IrPhi, k: nat, r: Reg, q: IrPhi)
    requires k < |p.V| && q == p.(V := p.V[PhiBlocks(p)[k] := r])
    ensures PhiSources(q) == PhiSources(p)[k := r]
  {
    var bs := PhiBlocks(p);
    UpdateKeepsKeys(p.V, bs[k], r);
    assert PhiBlocks(q) == bs;
    forall j | 0 <= j < |bs| ensures PhiSources(q)[j] == PhiSources(p)[k := r][j] {
      if j != k {
        BlocksDistinct(p, j, k);
      }
    }
  }

  lemma UpdateKeepsKeys(V: map<BlockId, Reg>, b: BlockId, r: Reg)
    requires b in V
    ensures V[b := r].Keys == V.Keys
  {
  }

  lemma BlocksDistinct(p: IrPhi, i: nat, j: nat)
    requires i < |p.V| && j < |p.V| && i != j
    ensures PhiBlocks(p)[i] != PhiBlocks(p)[j]
  {
    var bs := PhiBlocks(p);
    if i < j { assert bs[i] < bs[j]; } else { assert bs[j] < bs[i]; }
  }

  /** Phis over the same predecessors have the same shape. */
  lemma ErasePhi(p: IrPhi, q: IrPhi)
    requires p.V.Keys == q.V.Keys
    ensures Erase(Phi(p)) == Erase(Phi(q))
  {
    assert Cleared(q.V) == Cleared(p.V);
  }

  /** A call after writing `r` through its k-th usage: a receiver register
      when there is a receiver and k < 2, an argument otherwise. */
  function CallWithUsage(c: IrCall, k: nat, r: Reg): (d: IrCall)
    requires k < |ReceiverRegs(c.Rx) + c.In|
    ensures ReceiverRegs(d.Rx) + d.In == (ReceiverRegs(c.Rx) + c.In)[k := r]
    ensures d.Out == c.Out
    ensures Erase(Call(d)) == Erase(Call(c))
  {
    var rx := ReceiverRegs(c.Rx);
    if k < |rx| then
      var d := c.(Rx := WithReceiverReg(c.Rx, k, r));
      assert (rx + c.In)[k := r] == rx[k := r] + c.In;
      d
    else
      var d := c.(In := c.In[k - |rx| := r]);
      assert (rx + c.In)[k := r] == rx + c.In[k - |rx| := r];
      BlankIgnoresContents(c.In, k - |rx|, r);
      d
  }

  /** `WithUsage` for the variants with one register operand. */
  function OneWithUsage(n: IrNode, r: Reg): (m: IrNode)
    requires n.Switch? || n.Load? || n.UnaryExpr?
    ensures Usages(m) == [r] && Usages(n)[0 := r] == [r]
    ensures Definitions(m) == Definitions(n)
    ensures Erase(m) == Erase(n)
  {
    match n
    case Switch(s) => Switch(s.(V := r))
    case Load(l) => Load(l.(Mem := r))
    case UnaryExpr(u) => UnaryExpr(u.(V := r))
  }

  /** `WithUsage` for the memory variants with two register operands. */
  function MemWithUsage(n: IrNode, k: nat, r: Reg): (m: IrNode)
    requires n.Store? || n.LEA? || n.WriteBarrier?
    requires k < 2
    ensures |Usages(n)| == 2
    ensures Usages(m) == if k == 0 then [r, Usages(n)[1]] else [Usages(n)[0], r]
    ensures Definitions(m) == Definitions(n)
    ensures Erase(m) == Erase(n)
  {
    match n
    case Store(s) => if k == 0 then Store(s.(R := r)) else Store(s.(Mem := r))
    case LEA(l) => if k == 0 then LEA(l.(Mem := r)) else LEA(l.(Off := r))
    case WriteBarrier(w) => if k == 0 then WriteBarrier(w.(R := r)) else WriteBarrier(w.(V := r))
  }

  /** `WithUsage` for the binary variants. */
  function BinaryWithUsage(n: IrNode, k: nat, r: Reg): (m: IrNode)
    requires n.BinaryExpr? || n.BitTestSet?
    requires k < 2
    ensures |Usages(n)| == 2
    ensures Usages(m) == if k == 0 then [r, Usages(n)[1]] else [Usages(n)[0], r]
    ensures Definitions(m) == Definitions(n)
    ensures Erase(m) == Erase(n)
  {
    match n
    case BinaryExpr(b) => if k == 0 then BinaryExpr(b.(X := r)) else BinaryExpr(b.(Y := r))
    case BitTestSet(b) => if k == 0 then BitTestSet(b.(X := r)) else BitTestSet(b.(Y := r))
  }

  lemma PairUpdate(rs: seq<Reg>, k: nat, r: Reg)
    requires |rs| == 2 && k < 2
    ensures rs[k := r] == if k == 0 then [r, rs[1]] else [rs[0], r]
  {
  }

  /** The instruction after `*n.Usages()[k] = r`. */
  function WithUsage(n: IrNode, k: nat, r: Reg): (m: IrNode)
    requires k < |Usages(n)|
    ensures Usages(m) == Usages(n)[k := r]
    ensures Definitions(m) == Definitions(n)
    ensures Erase(m) == Erase(n)
  {
    match n
    case Phi(p) =>
      var q := PhiWithSource(p, k, r);
      ErasePhi(p, q);
      Phi(q)
    case Return(ret) =>
      BlankIgnoresContents(ret.R, k, r);
      Return(IrReturn(ret.R[k := r]))
    case Call(c) => Call(CallWithUsage(c, k, r))
    case Switch(_) | Load(_) | UnaryExpr(_) => OneWithUsage(n, r)
    case Store(_) | LEA(_) | WriteBarrier(_) =>
      var m := MemWithUsage(n, k, r);
      PairUpdate(Usages(n), k, r);
      m
    case BinaryExpr(_) | BitTestSet(_) =>
      var m := BinaryWithUsage(n, k, r);
      PairUpdate(Usages(n), k, r);
      m
  }

  /** `WithDefinition` for the variants whose results are plain fields. */
  function FieldWithDefinition(n: IrNode, k: nat, r: Reg): (m: IrNode)
    requires n.Phi? || n.Load? || n.LoadArg? || n.ConstInt? || n.ConstPtr?
    requires k < |Definitions(n)|
    ensures Definitions(m) == Definitions(n)[k := r]
    ensures Usages(m) == Usages(n)
    ensures Erase(m) == Erase(n)
  {
    match n
    case Phi(p) => Phi(p.(R := r))
    case Load(l) => Load(l.(R := r))
    case LoadArg(a) => LoadArg(a.(R := r))
    case ConstInt(c) => ConstInt(c.(R := r))
    case ConstPtr(c) => ConstPtr(c.(R := r))
  }

  /** The instruction after `*n.Definations()[k] = r`. */
  function WithDefinition(n: IrNode, k: nat, r: Reg): (m: IrNode)
    requires k < |Definitions(n)|
    ensures Definitions(m) == Definitions(n)[k := r]
    ensures Usages(m) == Usages(n)
    ensures Erase(m) == Erase(n)
  {
    match n
    case LEA(l) => LEA(l.(R := r))
    case UnaryExpr(u) => UnaryExpr(u.(R := r))
    case BinaryExpr(b) => BinaryExpr(b.(R := r))
    case BitTestSet(b) => if k == 0 then BitTestSet(b.(T := r)) else BitTestSet(b.(S := r))
    case Call(c) =>
      BlankIgnoresContents(c.Out, k, r);
      Call(c.(Out := c.Out[k := r]))
    case Phi(_) | Load(_) | LoadArg(_) | ConstInt(_) | ConstPtr(_) => FieldWithDefinition(n, k, r)
  }

  /** Writing `r` through usage slot `k` yields exactly the instruction that
      differs from `n` in that slot alone: any instruction with the same shape,
      the same definitions and the usages of `n` with slot `k` replaced is it. */
  lemma WithUsageIsUnique(n: IrNode, k: nat, r: Reg, m: IrNode)
    requires k < |Usages(n)|
    requires Erase(m) == Erase(n) && Definitions(m) == Definitions(n)
    requires Usages(m) == Usages(n)[k := r]
    ensures m == WithUsage(n, k, r)
  {
    SlotsDetermine(m, WithUsage(n, k, r));
  }

  /** The same for a definition slot. */
  lemma WithDefinitionIsUnique(n: IrNode, k: nat, r: Reg, m: IrNode)
    requires k < |Definitions(n)|
    requires Erase(m) == Erase(n) && Usages(m) == Usages(n)
    requires Definitions(m) == Definitions(n)[k := r]
    ensures m == WithDefinition(n, k, r)
  {
    SlotsDetermine(m, WithDefinition(n, k, r));
  }

  /** Writing back the register a slot already holds leaves the instruction as
      it was, and writing anything else changes it. */
  lemma WriteBackIsIdentity(n: IrNode, k: nat, r: Reg)
    requires k < |Usages(n)|
    ensures WithUsage(n, k, r) == n <==> Usages(n)[k] == r
  {
    var m := WithUsage(n, k, r);
    if Usages(n)[k] == r {
      UpdateSame(Usages(n), k, r);
      SlotsDetermine(m, n);
    } else {
      assert Usages(m)[k] != Usages(n)[k];
    }
  }

  lemma UpdateSame(rs: seq<Reg>, k: nat, r: Reg)
    requires k < |rs| && rs[k] == r
    ensures rs[k := r] == rs
  {
  }

  /* ---------------- copies ---------------- */

  /** `IrCopy`: the copy `r = v` is the addition `r = v + Rz`. */
  function IrCopy(r: Reg, v: Reg): (b: IrBinaryExpr)
    ensures b.Op == Add
    ensures Usages(BinaryExpr(b)) == [v, Rz] && Definitions(BinaryExpr(b)) == [r]
  {
    IrBinaryExpr(r, v, Rz, Add)
  }
}
