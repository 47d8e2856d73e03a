/** The table of control and status registers that rv_core_init_csr_regs builds. */
module Csr {
  import opened Words
  import opened Trap

  /** CSR numbers with a place in the table; 0xFFF has none. */
  type CsrAddress = a: int | 0 <= a < 0xFFF

  /** What stands behind a CSR: registers of another unit, or a plain value in the table. */
  datatype Target =
    | TrapRegister(level: Priv, reg: TrapReg)
    | PmpCfg(index: nat)
    | PmpAddr(index: nat)
    | Satp
    | Plain

  datatype Descriptor = Descriptor(readers: set<Priv>, writers: set<Priv>, mask: bv32, target: Target)

  const M_ONLY: set<Priv> := {MACHINE}
  const M_AND_S: set<Priv> := {MACHINE, SUPERVISOR}
  const EVERYONE: set<Priv> := {MACHINE, SUPERVISOR, USER}

  const ALL: bv32 := 0xFFFF_FFFF
  const MSTATUS_MASK: bv32 := 0x807F_F9BB
  const SSTATUS_MASK: bv32 := 0x800D_E133
  const MIP_MIE_MASK: bv32 := 0xBBB
  const SIP_SIE_MASK: bv32 := 0x333
  const MEDELEG_MASK: bv32 := 0xF3FF
  const SEDELEG_MASK: bv32 := 0xF1FF
  const TVEC_MASK: bv32 := 0xFFFF_FFFC
  const SATP_MASK: bv32 := 0x803F_FFFF

  function MachineReg(reg: TrapReg, mask: bv32): Descriptor {
    Descriptor(M_ONLY, M_ONLY, mask, TrapRegister(MACHINE, reg))
  }

  function SupervisorReg(reg: TrapReg, mask: bv32): Descriptor {
    Descriptor(M_AND_S, M_AND_S, mask, TrapRegister(SUPERVISOR, reg))
  }

  function Counter(readers: set<Priv>, writers: set<Priv>): Descriptor {
    Descriptor(readers, writers, ALL, Plain)
  }

  /** A register that reads as zero. */
  function Zero(readers: set<Priv>, writers: set<Priv>): Descriptor {
    Descriptor(readers, writers, 0, Plain)
  }

  function Describe(a: CsrAddress): (d: Descriptor)
    ensures d.target.TrapRegister? ==> d.target.level == MACHINE || d.target.level == SUPERVISOR
    ensures d.target.PmpCfg? ==> d.target.index < 4
    ensures d.target.PmpAddr? ==> d.target.index < 16
    ensures RESERVED !in d.readers && RESERVED !in d.writers
    ensures USER !in d.writers
    ensures d.target.PmpCfg? || d.target.PmpAddr? ==> d.writers == M_ONLY
  {
    if a == 0x300 then MachineReg(Status, MSTATUS_MASK)
    else if a == 0x301 then Descriptor(M_ONLY, {}, ALL, TrapRegister(MACHINE, Isa))
    else if a == 0x302 then MachineReg(Edeleg, MEDELEG_MASK)
    else if a == 0x303 then MachineReg(Ideleg, MIP_MIE_MASK)
    else if a == 0x304 then MachineReg(Ie, MIP_MIE_MASK)
    else if a == 0x305 then MachineReg(Tvec, TVEC_MASK)
    else if a == 0x306 then Zero(M_ONLY, M_ONLY)
    else if a == 0x340 then MachineReg(Scratch, ALL)
    else if a == 0x341 then MachineReg(Epc, ALL)
    else if a == 0x342 then MachineReg(Cause, ALL)
    else if a == 0x343 then MachineReg(Tval, ALL)
    else if a == 0x344 then MachineReg(Ip, MIP_MIE_MASK)
    else if 0x3A0 <= a < 0x3A4 then Descriptor(M_ONLY, M_ONLY, ALL, PmpCfg(a - 0x3A0))
    else if 0x3A4 <= a < 0x3B0 then Zero(M_ONLY, {})
    else if 0x3B0 <= a < 0x3C0 then Descriptor(M_ONLY, M_ONLY, ALL, PmpAddr(a - 0x3B0))
    else if 0x3C0 <= a < 0x3F0 then Zero(M_ONLY, {})
    else if a == 0x100 then SupervisorReg(Status, SSTATUS_MASK)
    else if a == 0x102 then SupervisorReg(Edeleg, SEDELEG_MASK)
    else if a == 0x103 then SupervisorReg(Ideleg, SIP_SIE_MASK)
    else if a == 0x104 then SupervisorReg(Ie, SIP_SIE_MASK)
    else if a == 0x105 then SupervisorReg(Tvec, TVEC_MASK)
    else if a == 0x106 then Zero(M_AND_S, M_AND_S)
    else if a == 0x140 then SupervisorReg(Scratch, ALL)
    else if a == 0x141 then SupervisorReg(Epc, ALL)
    else if a == 0x142 then SupervisorReg(Cause, ALL)
    else if a == 0x143 then SupervisorReg(Tval, ALL)
    else if a == 0x144 then SupervisorReg(Ip, SIP_SIE_MASK)
    else if a == 0x180 then Descriptor(M_AND_S, M_AND_S, SATP_MASK, Satp)
    else if a == 0xB00 || a == 0xB02 || a == 0xB80 || a == 0xB82 then Counter(M_ONLY, M_ONLY)
    else if a == 0xC00 || a == 0xC01 || a == 0xC80 || a == 0xC81 then Counter(EVERYONE, {})
    else if 0xB03 <= a < 0xB20 then Zero(M_ONLY, {})
    else if 0xB83 <= a < 0xBA0 then Zero(M_ONLY, M_ONLY)
    else if a == 0xC20 || a == 0xCA0 then Zero(EVERYONE, {})
    else if 0xF11 <= a < 0xF15 then Zero(M_ONLY, {})
    else Zero({}, {})
  }
}
