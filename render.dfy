/** The textual form of registers and of the phi, switch, return and call
    instructions (the `String` methods of internal/atm/ssa/ir.go).

    The table of architecture register names (`ArchRegNames[ArchRegs[i]]` in the
    Go code) lives outside the IR; it is the parameter `arch`, its i-th entry
    being the name of arch register i. A `Reg` printed through `%s` by `fmt`
    never panics: `fmt` catches a panic of the `String` method and prints it in
    place of the operand. A `Reg.String()` called directly lets the panic through. */
module Render {
  import opened Basics
  import opened Text
  import opened Registers
  import opened Ir
  import opened Switches
  import PhiSort

  /* ---------------- registers ---------------- */

  /** `%p` or `%r` by the pointer flag. */
  function Sigil(ptr: bool): (s: string)
    ensures |s| == 2 && s[0] == '%' && (s[1] == 'p' <==> ptr) && (s[1] == 'r' <==> !ptr)
  {
    if ptr then "%p" else "%r"
  }

  /** `Reg.String` over the three decoded fields (pointer flag, kind, index): an
      arch register is looked up in `arch` and panics when its index is past the
      table; every other register always has a text. */
  function FieldsText(ptr: bool, k: nat, i: nat, arch: seq<string>): (s: Result<string>)
    ensures s.Panic? <==> k == K_ARCH as nat && i >= |arch|
    ensures s.Panic? ==> s.reason == InvalidArchRegister(i)
    ensures s.Ok? && k == K_ARCH as nat ==> s.value == "%" + arch[i]
  {
    if k == K_ARCH as nat then
      if i >= |arch| then Panic(InvalidArchRegister(i)) else Ok("%" + arch[i])
    else if k == K_ZERO as nat then
      Ok(if ptr then "nil" else "$0")
    else if k == K_TEMP as nat then
      Ok((if ptr then "%tp" else "%tr") + NatToDecimal(i))
    else if k == K_NORM as nat then
      Ok(Sigil(ptr) + NatToDecimal(i))
    else
      Ok(Sigil(ptr) + KindDotIndex(k, i))
  }

  /** `<kind>.<index>` of a generic register. */
  function KindDotIndex(k: nat, i: nat): string {
    NatToDecimal(k) + "." + NatToDecimal(i)
  }

  lemma DropPrefix(x: string, y: string)
    ensures (x + y)[|x|..] == y
  {
  }

  /** `Reg.String`. */
  function RegString(r: Reg, arch: seq<string>): (s: Result<string>)
    ensures s.Panic? <==> Kind(r) == K_ARCH && Index(r) as nat >= |arch|
    ensures s.Panic? ==> s.reason == InvalidArchRegister(Index(r) as nat)
    ensures s.Ok? && Kind(r) == K_ARCH ==> s.value == "%" + arch[Index(r) as nat]
  {
    WordValue(Kind(r), K_ARCH);
    FieldsText(Ptr(r), Kind(r) as nat, Index(r) as nat, arch)
  }

  lemma NoDot(s: string)
    requires AllDigits(s)
    ensures '.' !in s
  {
    forall p | 0 <= p < |s| ensures s[p] != '.' {
      assert IsDigit(s[p]);
    }
  }

  /** The text of a register that is not an arch register tells the four
      families apart by its first characters: the zero registers by not
      starting with `%`, temporaries by `t` after it, and generic registers
      from SSA-normalized ones by the dot between kind and index. */
  lemma FieldsTextShape(ptr: bool, k: nat, i: nat, arch: seq<string>)
    requires k <= 15 && k != K_ARCH as nat
    ensures FieldsText(ptr, k, i, arch).Ok?
    ensures var a := FieldsText(ptr, k, i, arch).value;
      && |a| >= 2
      && (a[0] == '%' <==> k != K_ZERO as nat)
      && (k == K_ZERO as nat ==> (a == "nil" <==> ptr))
      && (k != K_ZERO as nat ==> |a| >= 3 && (a[1] == 't' <==> k == K_TEMP as nat))
      && (k == K_TEMP as nat ==> (a[2] == 'p' <==> ptr))
      && (k != K_ZERO as nat && k != K_TEMP as nat ==> (a[1] == 'p' <==> ptr) && ('.' in a <==> k != K_NORM as nat))
  {
    var a := FieldsText(ptr, k, i, arch).value;
    if k == K_NORM as nat {
      NoDot(NatToDecimal(i));
      assert a == Sigil(ptr) + NatToDecimal(i);
      forall p | 2 <= p < |a| ensures a[p] != '.' {
        assert a[p] == NatToDecimal(i)[p - 2];
      }
    } else if k != K_ZERO as nat && k != K_TEMP as nat {
      var d := NatToDecimal(k);
      assert a[2 + |d|] == '.';
    }
  }

  /** The first dot of `a + "." + b` with `a` all digits is the one after `a`. */
  lemma DotAfterDigits(a: string, b: string)
    requires AllDigits(a)
    ensures (a + "." + b)[|a|] == '.'
    ensures forall j :: 0 <= j < |a| ==> (a + "." + b)[j] != '.'
  {
    forall j | 0 <= j < |a| ensures (a + "." + b)[j] != '.' {
      assert (a + "." + b)[j] == a[j] && IsDigit(a[j]);
    }
  }

  /** Two digit strings joined by a dot can be split back apart. */
  lemma SplitAtDot(a: string, b: string, c: string, d: string)
    requires AllDigits(a) && AllDigits(c)
    requires a + "." + b == c + "." + d
    ensures a == c && b == d
  {
    var x := a + "." + b;
    DotAfterDigits(a, b);
    DotAfterDigits(c, d);
    assert a == x[..|a|] && c == x[..|c|];
    assert b == x[|a| + 1..] && d == x[|c| + 1..];
  }

  /** Texts of temporaries or SSA-normalized registers of one family name the index. */
  lemma IndexTextDistinguishes(a: string, n: nat, i: nat, j: nat)
    requires |a| >= n && a[n..] == NatToDecimal(i) && a[n..] == NatToDecimal(j)
    ensures i == j
  {
    DecimalInjective(i, j);
  }

  /** Texts of generic registers name the kind and the index. */
  lemma GenericTextDistinguishes(a: string, k: nat, i: nat, l: nat, j: nat)
    requires |a| >= 2
    requires a[2..] == KindDotIndex(k, i) && a[2..] == KindDotIndex(l, j)
    ensures k == l && i == j
  {
    SplitAtDot(NatToDecimal(k), NatToDecimal(i), NatToDecimal(l), NatToDecimal(j));
    DecimalInjective(k, l);
    DecimalInjective(i, j);
  }

  /** The four families of non-arch registers: zero, temporary, SSA-normalized
      and generic. */
  function Family(k: nat): nat {
    if k == K_ZERO as nat then 0 else if k == K_TEMP as nat then 1 else if k == K_NORM as nat then 2 else 3
  }

  /** Equal texts outside the arch registers mean the same pointer flag and the
      same family. */
  lemma SameFamily(p: bool, k: nat, i: nat, q: bool, l: nat, j: nat, arch: seq<string>)
    requires k <= 15 && l <= 15 && k != K_ARCH as nat && l != K_ARCH as nat
    requires FieldsText(p, k, i, arch) == FieldsText(q, l, j, arch)
    ensures p == q && Family(k) == Family(l)
  {
    FieldsTextShape(p, k, i, arch);
    FieldsTextShape(q, l, j, arch);
  }

  /** Texts of two temporaries or two SSA-normalized registers name the index. */
  lemma NumberedTextDistinguishes(p: bool, k: nat, i: nat, q: bool, j: nat, arch: seq<string>)
    requires k == K_TEMP as nat || k == K_NORM as nat
    requires FieldsText(p, k, i, arch) == FieldsText(q, k, j, arch)
    ensures i == j
  {
    var a := FieldsText(p, k, i, arch).value;
    var n := if k == K_TEMP as nat then 3 else 2;
    IndexTextDistinguishes(a, n, i, j);
  }

  /** Texts of two generic registers name the kind and the index. */
  lemma GenericFieldsDistinguish(p: bool, k: nat, i: nat, q: bool, l: nat, j: nat, arch: seq<string>)
    requires Family(k) == 3 && Family(l) == 3 && k != K_ARCH as nat && l != K_ARCH as nat
    requires FieldsText(p, k, i, arch) == FieldsText(q, l, j, arch)
    ensures k == l && i == j
  {
    var a := FieldsText(p, k, i, arch).value;
    DropPrefix(Sigil(p), KindDotIndex(k, i));
    DropPrefix(Sigil(q), KindDotIndex(l, j));
    GenericTextDistinguishes(a, k, i, l, j);
  }

  /** Equal texts outside the arch registers mean equal fields; only the index
      of a zero register is not shown. */
  lemma FieldsTextDistinguishes(p: bool, k: nat, i: nat, q: bool, l: nat, j: nat, arch: seq<string>)
    requires k <= 15 && l <= 15 && k != K_ARCH as nat && l != K_ARCH as nat
    requires FieldsText(p, k, i, arch) == FieldsText(q, l, j, arch)
    ensures p == q && k == l
    ensures k != K_ZERO as nat ==> i == j
  {
    SameFamily(p, k, i, q, l, j, arch);
    if Family(k) == 3 {
      GenericFieldsDistinguish(p, k, i, q, l, j, arch);
    } else if Family(k) != 0 {
      NumberedTextDistinguishes(p, k, i, q, j, arch);
    }
  }

  /** Outside the arch registers, equal texts mean equal pointer flags, kinds
      and indices; only the index of a zero register is not shown. */
  lemma RegStringDistinguishes(r: Reg, s: Reg, arch: seq<string>)
    requires Kind(r) != K_ARCH && Kind(s) != K_ARCH
    requires RegString(r, arch) == RegString(s, arch)
    ensures Ptr(r) == Ptr(s) && Kind(r) == Kind(s)
    ensures Kind(r) != K_ZERO ==> Index(r) == Index(s)
  {
    FieldsTextDistinguishes(Ptr(r), Kind(r) as nat, Index(r) as nat, Ptr(s), Kind(s) as nat, Index(s) as nat, arch);
    WordValue(Kind(r), Kind(s));
    WordValue(Index(r), Index(s));
  }

  /** Hence the text of a register that is neither an arch nor a zero register
      names that register alone. */
  lemma RegStringInjective(r: Reg, s: Reg, arch: seq<string>)
    requires Kind(r) != K_ARCH && Kind(r) != K_ZERO && Kind(s) != K_ARCH
    ensures RegString(r, arch) == RegString(s, arch) <==> r == s
  {
    if RegString(r, arch) == RegString(s, arch) {
      RegStringDistinguishes(r, s, arch);
      FieldsDetermine(r, s);
    }
  }

  /** Every zero register prints as the zero constant of its pointer-ness. */
  lemma ZeroRegistersPrintAlike(r: Reg, arch: seq<string>)
    requires Kind(r) == K_ZERO
    ensures RegString(r, arch) == RegString(Zero(r), arch)
    ensures RegString(r, arch) == Ok(if Ptr(r) then "nil" else "$0")
  {
  }

  /** A register as a `%s` operand of `fmt.Sprintf`: its text, or the panic of
      its `String` method as `fmt` reports it. */
  function FmtReg(r: Reg, arch: seq<string>): (s: string)
    ensures RegString(r, arch).Ok? ==> s == RegString(r, arch).value
  {
    match RegString(r, arch)
    case Ok(t) => t
    case Panic(_) =>
      "%!s(PANIC=String method: invalid arch-specific register index: " + NatToDecimal(Index(r) as nat) + ")"
  }

  /** `xs[j]` is the first result that panics, and it panics with `e`. */
  ghost predicate FirstPanicAt<T>(xs: seq<Result<T>>, j: int, e: Reason) {
    0 <= j < |xs| && xs[j] == Panic(e) && forall p :: 0 <= p < j ==> xs[p].Ok?
  }

  /** Results produced one after the other by a loop that stops at the first
      panic: all the values when none panics, else the first panic. */
  function Collect<T>(xs: seq<Result<T>>): (r: Result<seq<T>>)
    ensures r.Ok? <==> forall j :: 0 <= j < |xs| ==> xs[j].Ok?
    ensures r.Ok? ==> |r.value| == |xs| && forall j :: 0 <= j < |xs| ==> r.value[j] == xs[j].value
    ensures r.Panic? ==> exists j :: FirstPanicAt(xs, j, r.reason)
    decreases |xs|
  {
    if xs == [] then
      Ok([])
    else
      var init := xs[..|xs| - 1];
      assert forall j :: 0 <= j < |init| ==> init[j] == xs[j];
      match Collect(init)
      case Panic(e) =>
        assert forall j :: FirstPanicAt(init, j, e) ==> FirstPanicAt(xs, j, e);
        Panic(e)
      case Ok(vs) =>
        match xs[|xs| - 1]
        case Panic(e) =>
          assert FirstPanicAt(xs, |xs| - 1, e);
          Panic(e)
        case Ok(v) => Ok(vs + [v])
  }

  /** Extending the results by one: the next value is appended, or its panic
      becomes the outcome. */
  lemma CollectStep<T>(xs: seq<Result<T>>, i: nat, vs: seq<T>)
    requires i < |xs| && Collect(xs[..i]) == Ok(vs)
    ensures xs[i].Ok? ==> Collect(xs[..i + 1]) == Ok(vs + [xs[i].value])
    ensures xs[i].Panic? ==> Collect(xs[..i + 1]) == Panic(xs[i].reason)
  {
    assert xs[..i + 1][..i] == xs[..i];
  }

  /** Once a prefix panics, the whole sequence panics the same way. */
  lemma {:induction false} PrefixPanics<T>(xs: seq<Result<T>>, i: nat)
    requires i <= |xs| && Collect(xs[..i]).Panic?
    ensures Collect(xs) == Collect(xs[..i])
    decreases |xs| - i
  {
    if i < |xs| {
      var init := xs[..|xs| - 1];
      assert init[..i] == xs[..i];
      PrefixPanics(init, i);
    } else {
      assert xs[..i] == xs;
    }
  }

  /** The direct `String()` results of a list of registers. */
  function RegTexts(rs: seq<Reg>, arch: seq<string>): (ts: seq<Result<string>>)
    ensures |ts| == |rs| && forall j :: 0 <= j < |rs| ==> ts[j] == RegString(rs[j], arch)
  {
    seq(|rs|, j requires 0 <= j < |rs| => RegString(rs[j], arch))
  }

  /** The texts of registers rendered one after the other by direct `String()`
      calls: the first register that panics stops the loop with its panic. */
  function RegStrings(rs: seq<Reg>, arch: seq<string>): (r: Result<seq<string>>)
    ensures r.Ok? <==> forall j :: 0 <= j < |rs| ==> RegString(rs[j], arch).Ok?
    ensures r.Ok? ==> |r.value| == |rs| && forall j :: 0 <= j < |rs| ==> r.value[j] == RegString(rs[j], arch).value
    ensures r.Panic? ==> r.reason.InvalidArchRegister?
  {
    var ts := RegTexts(rs, arch);
    var r := Collect(ts);
    assert r.Panic? ==> r.reason.InvalidArchRegister? by {
      if r.Panic? {
        var j :| FirstPanicAt(ts, j, r.reason);
      }
    }
    r
  }

  /** The loop `for _, r := range rs { out = append(out, r.String()) }`. */
  method RenderRegs(rs: seq<Reg>, arch: seq<string>) returns (r: Result<seq<string>>)
    ensures r == RegStrings(rs, arch)
  {
    ghost var ts := RegTexts(rs, arch);
    var out: seq<string> := [];
    for i := 0 to |rs|
      invariant Collect(ts[..i]) == Ok(out)
    {
      var s := RegString(rs[i], arch);
      CollectStep(ts, i, out);
      if s.Panic? {
        PrefixPanics(ts, i + 1);
        return Panic(s.reason);
      }
      out := out + [s.value];
    }
    assert ts[..|rs|] == ts;
    return Ok(out);
  }

  /* ---------------- phi ---------------- */

  /** One `bb_<id>: <reg>` entry of a phi. */
  function PhiEntry(b: BlockId, r: Reg, arch: seq<string>): string {
    "bb_" + IntToDecimal(b) + ": " + FmtReg(r, arch)
  }

  /** The entries for parallel lists of block ids and sources. */
  function EntryLines(ks: seq<BlockId>, vs: seq<Reg>, arch: seq<string>): (es: seq<string>)
    requires |ks| == |vs|
    ensures |es| == |ks| && forall j :: 0 <= j < |ks| ==> es[j] == PhiEntry(ks[j], vs[j], arch)
  {
    seq(|ks|, j requires 0 <= j < |ks| => PhiEntry(ks[j], vs[j], arch))
  }

  lemma EntryLinesSnoc(ks: seq<BlockId>, vs: seq<Reg>, i: nat, arch: seq<string>)
    requires |ks| == |vs| && i < |ks|
    ensures EntryLines(ks[..i + 1], vs[..i + 1], arch) == EntryLines(ks[..i], vs[..i], arch) + [PhiEntry(ks[i], vs[i], arch)]
  {
  }

  /** The entries of a phi: one per predecessor, in ascending block-id order,
      each with that predecessor's source. */
  function PhiEntries(phi: IrPhi, arch: seq<string>): (es: seq<string>)
    ensures |es| == |phi.V|
    ensures forall j :: 0 <= j < |es| ==> es[j] == PhiEntry(PhiBlocks(phi)[j], PhiSources(phi)[j], arch)
  {
    EntryLines(PhiBlocks(phi), PhiSources(phi), arch)
  }

  /** The text of a phi shows its sources in the order `Usages` lists them. */
  lemma PhiEntriesFollowUsages(phi: IrPhi, arch: seq<string>)
    ensures |PhiEntries(phi, arch)| == |Usages(Phi(phi))|
    ensures forall j :: 0 <= j < |Usages(Phi(phi))| ==>
      PhiEntries(phi, arch)[j] == PhiEntry(PhiBlocks(phi)[j], Usages(Phi(phi))[j], arch)
  {
    assert Usages(Phi(phi)) == PhiSources(phi);
  }

  /** `<R> = φ(<entries>)`. */
  function PhiFrame(head: string, entries: seq<string>): string {
    head + " = φ(" + Join(entries, ", ") + ")"
  }

  function PhiText(phi: IrPhi, arch: seq<string>): string {
    PhiFrame(FmtReg(phi.R, arch), PhiEntries(phi, arch))
  }

  /** `IrPhi.String`: walks the map, sorts the (block id, source) pairs by id and
      prints them. */
  method PhiString(phi: IrPhi, arch: seq<string>) returns (s: string)
    ensures s == PhiText(phi, arch)
  {
    var ks, vs := PhiSort.SortedPairs(phi);
    var ret := RenderEntries(ks, vs, arch);
    s := PhiFrame(FmtReg(phi.R, arch), ret);
  }

  /** The loop that prints each sorted (block id, source) pair of a phi. */
  method RenderEntries(ks: seq<BlockId>, vs: seq<Reg>, arch: seq<string>) returns (ret: seq<string>)
    requires |ks| == |vs|
    ensures ret == EntryLines(ks, vs, arch)
  {
    ret := [];
    for i := 0 to |ks|
      invariant ret == EntryLines(ks[..i], vs[..i], arch)
    {
      EntryLinesSnoc(ks, vs, i, arch);
      ret := ret + [PhiEntry(ks[i], vs[i], arch)];
    }
    assert ks[..|ks|] == ks && vs[..|vs|] == vs;
  }

  /* ---------------- switch ---------------- */

  /** The `  <value> => bb_<id>,` line of one case. */
  function CaseLine(t: SwitchTarget): string {
    "  " + IntToDecimal(t.i) + " => bb_" + IntToDecimal(t.b) + ","
  }

  function CaseLines(ts: seq<SwitchTarget>): (ls: seq<string>)
    ensures |ls| == |ts| && forall j :: 0 <= j < |ts| ==> ls[j] == CaseLine(ts[j])
  {
    seq(|ts|, j requires 0 <= j < |ts| => CaseLine(ts[j]))
  }

  lemma CaseLinesSnoc(t: seq<SwitchTarget>, j: nat)
    requires j < |t|
    ensures CaseLines(t[..j + 1]) == CaseLines(t[..j]) + [CaseLine(t[j])]
  {
  }

  function DefaultLine(ln: BlockId): string {
    "  _ => bb_" + IntToDecimal(ln) + ","
  }

  /** The lines between the braces: the cases as the cursor yields them, then
      the default branch. */
  function SwitchLines(sw: IrSwitch): seq<string> {
    CaseLines(SwitchTargets(sw)[..|sw.Br|]) + [DefaultLine(sw.Ln)]
  }

  function GotoText(ln: BlockId): string {
    "goto bb_" + IntToDecimal(ln)
  }

  /** `switch <V> {` and the lines, one per line, then `}`. */
  function SwitchFrame(head: string, lines: seq<string>): string {
    "switch " + head + " {\n" + Join(lines, "\n") + "\n}"
  }

  function SwitchText(sw: IrSwitch, arch: seq<string>): string {
    if |sw.Br| == 0 then GotoText(sw.Ln) else SwitchFrame(FmtReg(sw.V, arch), SwitchLines(sw))
  }

  /** The lines of a switch list every case once, by ascending value, each
      with its own target, and end with the default branch. */
  lemma SwitchLinesSorted(sw: IrSwitch)
    ensures |SwitchLines(sw)| == |sw.Br| + 1
    ensures SwitchLines(sw)[|sw.Br|] == DefaultLine(sw.Ln)
    ensures forall j :: 0 <= j < |sw.Br| ==>
      SwitchLines(sw)[j] == CaseLine(SwitchTarget(SwitchValues(sw)[j], sw.Br[SwitchValues(sw)[j]]))
  {
    SortedCaseValues(SwitchTargets(sw), sw);
    forall j | 0 <= j < |sw.Br|
      ensures SwitchLines(sw)[j] == CaseLine(SwitchTarget(SwitchValues(sw)[j], sw.Br[SwitchValues(sw)[j]]))
    {
      SwitchLineAt(sw, j);
    }
  }

  /** Line `j` of a switch prints the j-th target of its cursor. */
  lemma SwitchLineAt(sw: IrSwitch, j: nat)
    requires j < |sw.Br|
    ensures SwitchLines(sw)[j] == CaseLine(SwitchTargets(sw)[j])
    ensures SwitchTargets(sw)[j] == SwitchTarget(SwitchTargets(sw)[j].i, sw.Br[SwitchTargets(sw)[j].i])
  {
    var t := SwitchTargets(sw);
    assert t[j].i in sw.Br && sw.Br[t[j].i] == t[j].b;
  }

  /** A switch without cases prints as a jump to its default block, and one
      with cases never does. */
  lemma SwitchWithoutCasesIsGoto(sw: IrSwitch, arch: seq<string>)
    ensures |sw.Br| == 0 <==> SwitchText(sw, arch)[0] == 'g'
    ensures |sw.Br| == 0 ==> SwitchText(sw, arch) == GotoText(sw.Ln)
  {
  }

  /** `IrSwitch.String`: prints `goto` when there are no cases, and otherwise
      the cases in the order of a fresh cursor, then the default branch. */
  method SwitchString(sw: IrSwitch, arch: seq<string>) returns (s: string)
    ensures s == SwitchText(sw, arch)
  {
    var n := |sw.Br|;
    if n == 0 {
      return GotoText(sw.Ln);
    }
    var it := Iter(sw);
    var t := it.t;
    var r: seq<string> := [];
    for j := 0 to n
      invariant r == CaseLines(t[..j])
    {
      CaseLinesSnoc(t, j);
      r := r + [CaseLine(t[j])];
    }
    r := r + [DefaultLine(sw.Ln)];
    assert r == SwitchLines(sw);
    s := SwitchFrame(FmtReg(sw.V, arch), r);
  }

  /* ---------------- return ---------------- */

  function ReturnText(ret: IrReturn, arch: seq<string>): (s: Result<string>)
    ensures s.Ok? <==> forall j :: 0 <= j < |ret.R| ==> RegString(ret.R[j], arch).Ok?
    ensures s.Panic? ==> s.reason.InvalidArchRegister?
  {
    match RegStrings(ret.R, arch)
    case Panic(e) => Panic(e)
    case Ok(ss) => Ok("ret {" + Join(ss, ", ") + "}")
  }

  /** `IrReturn.String`: `ret {…}` over the direct texts of the results. */
  method ReturnString(ret: IrReturn, arch: seq<string>) returns (s: Result<string>)
    ensures s == ReturnText(ret, arch)
  {
    var ss := RenderRegs(ret.R, arch);
    if ss.Panic? {
      return Panic(ss.reason);
    }
    return Ok("ret {" + Join(ss.value, ", ") + "}");
  }

  /* ---------------- call ---------------- */

  function CallKind(t: CallType): string {
    match t
    case CCall => "ccall"
    case GCall => "gcall"
    case ICall => "icall"
  }

  /** The receiver of an interface call must be present, and that of any other
      call absent. */
  predicate ReceiverAgrees(c: IrCall) {
    c.Rx.Some? <==> c.Fn.Type == ICall
  }

  /** The call target: the handle's own text, or the method slot of an interface call. */
  function CallDesc(f: CallHandle): string {
    if f.Type != ICall then f.Name else "#" + NatToDecimal(f.Slot)
  }

  function ReceiverText(rx: Option<IrReceiver>, arch: seq<string>): string {
    match rx
    case None => ""
    case Some(x) => ", {" + FmtReg(x.T, arch) + ", " + FmtReg(x.V, arch) + "}"
  }

  function CallBody(c: IrCall, ins: seq<string>, arch: seq<string>): string {
    CallKind(c.Fn.Type) + " " + CallDesc(c.Fn) + ReceiverText(c.Rx, arch) + ", {" + Join(ins, ", ") + "}"
  }

  function CallText(c: IrCall, arch: seq<string>): (s: Result<string>)
    ensures s == Panic(InvalidReceiver) <==> !ReceiverAgrees(c)
    ensures s.Ok? <==> (ReceiverAgrees(c)
      && (forall j :: 0 <= j < |c.In| ==> RegString(c.In[j], arch).Ok?)
      && (forall j :: 0 <= j < |c.Out| ==> RegString(c.Out[j], arch).Ok?))
  {
    if !ReceiverAgrees(c) then
      Panic(InvalidReceiver)
    else
      match RegStrings(c.In, arch)
      case Panic(e) => Panic(e)
      case Ok(ins) =>
        match RegStrings(c.Out, arch)
        case Panic(e) => Panic(e)
        case Ok(outs) =>
          var body := CallBody(c, ins, arch);
          Ok(if outs == [] then body else Join(outs, ", ") + " = " + body)
  }

  /** `IrCall.String`: checks the receiver first, then prints the arguments and
      the results through their direct `String()` calls. */
  method CallString(c: IrCall, arch: seq<string>) returns (s: Result<string>)
    ensures s == CallText(c, arch)
  {
    if (c.Rx == None) == (c.Fn.Type == ICall) {
      return Panic(InvalidReceiver);
    }
    var ins := RenderRegs(c.In, arch);
    if ins.Panic? {
      return Panic(ins.reason);
    }
    var outs := RenderRegs(c.Out, arch);
    if outs.Panic? {
      return Panic(outs.reason);
    }
    var body := CallBody(c, ins.value, arch);
    if |outs.value| == 0 {
      return Ok(body);
    }
    return Ok(Join(outs.value, ", ") + " = " + body);
  }
}
