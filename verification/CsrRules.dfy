/** What a CSR instruction may do, stated without the order in which the code tries it. */
module CsrRules {
  import opened Words
  import opened Trap
  import opened Csr
  import opened Core

  predicate CsrReads(op: CsrOp, rd: Reg) {
    op != ReadWrite || rd != 0
  }

  predicate CsrWrites(op: CsrOp, o: Operand) {
    op == ReadWrite || o.r != 0
  }

  /** The current mode lacks a right that the instruction needs. */
  predicate Refused(mode: Priv, op: CsrOp, rd: Reg, o: Operand, a: CsrAddress) {
    (CsrReads(op, rd) && mode !in Describe(a).readers) || (CsrWrites(op, o) && mode !in Describe(a).writers)
  }

  /** The old value that the instruction works with. */
  function Before(s: State, op: CsrOp, rd: Reg, a: CsrAddress): bv32
    requires s.Valid()
  {
    if CsrReads(op, rd) then CsrValue(s, Describe(a).target, a) else 0
  }

  function NewValue(s: State, op: CsrOp, rd: Reg, o: Operand, a: CsrAddress): bv32
    requires s.Valid()
  {
    Combine(op, Before(s, op, rd, a), OperandValue(s, o), Describe(a).mask)
  }

  /**
    * A refused CSR instruction only raises an illegal instruction exception: no CSR and no register
    * changes. Any other one writes the new value if it writes at all, and puts the visible bits of
    * the old value into rd.
    */
  lemma CsrOutcome(s: State, op: CsrOp, rd: Reg, o: Operand, a: CsrAddress)
    requires s.Valid()
    ensures var r := DoCsr(s, op, rd, o, a);
      if Refused(s.mode, op, rd, o, a) then r == Latch(s, Fault(ILLEGAL, 0))
      else r == Set(if CsrWrites(op, o) then PutCsr(s, Describe(a), a, NewValue(s, op, rd, o, a)) else s, rd,
                    Value(Visible(Before(s, op, rd, a), Describe(a).mask)))
  {
    hide Describe, CsrValue, PutCsr, Combine, Visible, Value, OperandValue, Latch;
  }

  /** Whether the instruction was refused shows in the pending exception. */
  lemma RefusedIsPending(s: State, op: CsrOp, rd: Reg, o: Operand, a: CsrAddress)
    requires s.Valid() && !s.pending
    ensures var r := DoCsr(s, op, rd, o, a);
      r.pending <==> Refused(s.mode, op, rd, o, a)
  {
    hide Describe, Refused, NewValue, Before, Value, Visible, DoCsr;
    CsrOutcome(s, op, rd, o, a);
    PutFrame(s, a, NewValue(s, op, rd, o, a));
  }

  /** Writing a CSR reaches nothing but CSRs. */
  lemma PutFrame(s: State, a: CsrAddress, v: bv32)
    requires s.Valid()
    ensures var r := PutCsr(s, Describe(a), a, v);
      r == s.(trap := r.trap, pmp := r.pmp, satp := r.satp, csr := r.csr)
  {
    var d := Describe(a);
    hide Describe, Value, Pmp.WriteCfg, Pmp.WriteAddr, WriteReg;
    match d.target
    case PmpCfg(_) =>
    case _ =>
  }

  /** One CSR write, and the registers of the unit it is for. */
  lemma PutTarget(s: State, a: CsrAddress, v: bv32)
    requires s.Valid()
    ensures var r, d := PutCsr(s, Describe(a), a, v), Describe(a);
      && r.pmp == (match d.target case PmpCfg(k) => Pmp.WriteCfg(s.pmp, s.mode, k, Value(v))
                                  case PmpAddr(k) => Pmp.WriteAddr(s.pmp, s.mode, k, Value(v))
                                  case _ => s.pmp)
      && r.trap == (if d.target.TrapRegister? then WriteReg(s.trap, d.target.level, d.target.reg, v) else s.trap)
      && r.satp == (if d.target.Satp? then Value(v) else s.satp)
  {
    var d := Describe(a);
    hide Describe, Value, Pmp.WriteCfg, Pmp.WriteAddr, WriteReg;
    match d.target
    case PmpCfg(_) =>
    case _ =>
  }
}
