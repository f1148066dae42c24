/** An instruction as a renaming pass holds it: a mutable cell that the
    pointers handed out by `Usages` and `Definations` write into. */
module Nodes {
  import opened Registers
  import opened Ir

  class Instr {
    var node: IrNode

    constructor (n: IrNode)
      ensures node == n
    {
      node := n;
    }

    /** `*ins.Usages()[k] = r`: the k-th read slot now holds `r`; every other
        slot, every result and the rest of the instruction are as they were. */
    method SetUsage(k: nat, r: Reg)
      requires k < |Usages(node)|
      modifies this
      ensures node == WithUsage(old(node), k, r)
      ensures Usages(node) == Usages(old(node))[k := r]
      ensures Definitions(node) == Definitions(old(node))
      ensures Erase(node) == Erase(old(node))
    {
      node := WithUsage(node, k, r);
    }

    /** `*ins.Definations()[k] = r`: the k-th written slot now holds `r`, and
        nothing else changes. */
    method SetDefinition(k: nat, r: Reg)
      requires k < |Definitions(node)|
      modifies this
      ensures node == WithDefinition(old(node), k, r)
      ensures Definitions(node) == Definitions(old(node))[k := r]
      ensures Usages(node) == Usages(old(node))
      ensures Erase(node) == Erase(old(node))
    {
      node := WithDefinition(node, k, r);
    }
  }
}
