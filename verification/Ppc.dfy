// source/loader/ppc.h: the four-instruction absolute branch.

/**
 * The encoders of ppc.h, and the steps of a PowerPC processor on the four instructions they emit
 * (PowerPC Programming Environments Manual, chapter 8: addis, ori, mtspr, bcctr).
 */
module Ppc {
  import opened Bits
  import opened Memory
  import opened CStrings

  const ADDIS_OP: nat := Shl(0xF, 26)
  const ORI_OP: nat := Shl(0x18, 26)
  const XFORM_OP: nat := Shl(0x1F, 26)
  const MTSPR_XFORM: nat := Shl(0x1D3, 1)
  const BCCTR_OP: nat := Shl(0x13, 26)
  const BCCTR_XFORM: nat := Shl(0x210, 1)

  function Lis(reg: nat, val: nat): nat {
    Or(Or(ADDIS_OP, Shl(reg, 21)), And(val, 0xFFFF))
  }

  function Ori(dest: nat, src: nat, val: nat): nat {
    Or(Or(Or(ORI_OP, Shl(src, 21)), Shl(dest, 16)), And(val, 0xFFFF))
  }

  function Mtctr(reg: nat): nat {
    Or(Or(Or(XFORM_OP, MTSPR_XFORM), Shl(reg, 21)), Shl(9, 16))
  }

  function Bctr(): nat {
    Or(Or(BCCTR_OP, BCCTR_XFORM), Shl(0x14, 21))
  }

  /** `RRC_PPC_BRANCH(addr)` */
  function Branch(addr: word): (r: seq<nat>)
    ensures |r| == 4
  {
    [Lis(9, Shr(addr, 16)), Ori(9, 9, And(addr, 0xFFFF)), Mtctr(9), Bctr()]
  }

  lemma {:induction false} OrCommutes(a: nat, b: nat)
    ensures Or(a, b) == Or(b, a)
    decreases a + b
  {
    if a != 0 || b != 0 {
      OrCommutes(a / 2, b / 2);
    }
  }

  lemma {:induction false} OrAssociates(a: nat, b: nat, c: nat)
    ensures Or(Or(a, b), c) == Or(a, Or(b, c))
    decreases a + b + c
  {
    if a != 0 || b != 0 || c != 0 {
      OrAssociates(a / 2, b / 2, c / 2);
    }
  }

  /** OR of a field above bit `k` with anything below it. */
  lemma OrAbove(field: nat, low: nat, k: nat)
    requires low < Pow2(k)
    ensures Or(Shl(field, k), low) == field * Pow2(k) + low
  {
    OrFields(field, low, k);
    ShlIsTimes(field, k);
  }

  lemma PowersForFields()
    ensures Pow2(1) == 2 && Pow2(16) == 0x1_0000 && Pow2(21) == 0x20_0000 && Pow2(26) == 0x400_0000
  {
    Powers();
    Pow2Sum(16, 5);
    Pow2Sum(16, 10);
  }

  lemma LisFields(reg: nat, val: nat)
    requires reg < 32
    ensures Lis(reg, val) == 0xF * 0x400_0000 + reg * 0x20_0000 + val % 0x1_0000
  {
    PowersForFields();
    ShlIsTimes(reg, 21);
    OrAbove(0xF, Shl(reg, 21), 26);
    AndLow(val, 16);
    ShlIsTimes(0xF * 32 + reg, 21);
    OrAbove(0xF * 32 + reg, val % 0x1_0000, 21);
  }

  lemma OriFields(dest: nat, src: nat, val: nat)
    requires dest < 32 && src < 32
    ensures Ori(dest, src, val) == 0x18 * 0x400_0000 + src * 0x20_0000 + dest * 0x1_0000 + val % 0x1_0000
  {
    PowersForFields();
    ShlIsTimes(src, 21);
    ShlIsTimes(dest, 16);
    OrAbove(0x18, Shl(src, 21), 26);
    ShlIsTimes(0x18 * 32 + src, 21);
    OrAbove(0x18 * 32 + src, Shl(dest, 16), 21);
    AndLow(val, 16);
    ShlIsTimes((0x18 * 32 + src) * 32 + dest, 16);
    OrAbove((0x18 * 32 + src) * 32 + dest, val % 0x1_0000, 16);
  }

  lemma MtctrFields(reg: nat)
    requires reg < 32
    ensures Mtctr(reg) == 0x1F * 0x400_0000 + reg * 0x20_0000 + 9 * 0x1_0000 + 0x1D3 * 2
  {
    PowersForFields();
    ShlIsTimes(0x1D3, 1);
    ShlIsTimes(reg, 21);
    ShlIsTimes(9, 16);
    var xo, r, spr := MTSPR_XFORM, Shl(reg, 21), Shl(9, 16);
    OrAssociates(XFORM_OP, xo, r);
    OrCommutes(xo, r);
    OrAssociates(Or(XFORM_OP, Or(r, xo)), spr, 0);
    OrAssociates(XFORM_OP, Or(r, xo), spr);
    OrAssociates(r, xo, spr);
    OrCommutes(xo, spr);
    OrAbove(9, xo, 16);
    OrAbove(reg, 9 * 0x1_0000 + xo, 21);
    OrAbove(0x1F, reg * 0x20_0000 + 9 * 0x1_0000 + xo, 26);
  }

  lemma BctrFields()
    ensures Bctr() == 0x13 * 0x400_0000 + 0x14 * 0x20_0000 + 0x210 * 2
  {
    PowersForFields();
    ShlIsTimes(0x210, 1);
    ShlIsTimes(0x14, 21);
    OrAssociates(BCCTR_OP, BCCTR_XFORM, Shl(0x14, 21));
    OrCommutes(BCCTR_XFORM, Shl(0x14, 21));
    OrAbove(0x14, BCCTR_XFORM, 21);
    OrAbove(0x13, 0x14 * 0x20_0000 + BCCTR_XFORM, 26);
  }

  lemma BranchFields(addr: word)
    ensures Lis(9, Shr(addr, 16)) == 0x3D20_0000 + addr / 0x1_0000
    ensures Ori(9, 9, And(addr, 0xFFFF)) == 0x6129_0000 + addr % 0x1_0000
    ensures Mtctr(9) == 0x7D29_03A6
    ensures Bctr() == 0x4E80_0420
  {
    LisHigh(addr);
    OriLow(addr);
    MtctrFields(9);
    BctrFields();
  }

  lemma HighHalf(addr: word)
    ensures Shr(addr, 16) % 0x1_0000 == addr / 0x1_0000
  {
    ShrIsDiv(addr, 16);
    Powers();
  }

  lemma LowHalf(addr: word)
    ensures And(addr, 0xFFFF) % 0x1_0000 == addr % 0x1_0000
  {
    AndLow(addr, 16);
    Powers();
  }

  lemma LisHigh(addr: word)
    ensures Lis(9, Shr(addr, 16)) == 0x3D20_0000 + addr / 0x1_0000
  {
    HighHalf(addr);
    LisFields(9, Shr(addr, 16));
  }

  lemma OriLow(addr: word)
    ensures Ori(9, 9, And(addr, 0xFFFF)) == 0x6129_0000 + addr % 0x1_0000
  {
    LowHalf(addr);
    OriFields(9, 9, And(addr, 0xFFFF));
  }

  // ---- The processor. ----

  datatype Cpu = Cpu(pc: word, gpr: seq<word>, ctr: word)

  /** The four instruction forms the encoders emit, by their operands. */
  datatype Instr =
    | Addis(rd: nat, ra: nat, simm: nat)
    | OrImm(ra: nat, rs: nat, uimm: nat)
    | MoveToCtr(rs: nat)
    | BranchCtr
    | Other

  predicate Encodable(i: Instr) {
    match i
    case Addis(d, a, imm) => d < 32 && a < 32 && imm < 0x1_0000
    case OrImm(a, s, imm) => a < 32 && s < 32 && imm < 0x1_0000
    case MoveToCtr(s) => s < 32
    case BranchCtr => true
    case Other => true
  }

  /** Decodes by fields: opcode (6 bits), two 5-bit fields, and a 16-bit immediate or extended opcode. */
  function Decode(w: word): (i: Instr)
    ensures Encodable(i)
  {
    var opcode, f1, f2, low := w / 0x400_0000, w / 0x20_0000 % 32, w / 0x1_0000 % 32, w % 0x1_0000;
    if opcode == 15 then Addis(f1, f2, low)
    else if opcode == 24 then OrImm(f2, f1, low)
    else if opcode == 31 && low == 467 * 2 && f2 == 9 then MoveToCtr(f1)  // mtspr; the low half of SPR 9 comes first
    else if opcode == 19 && low == 528 * 2 && f1 == 20 then BranchCtr     // bcctr, BO = always, no link
    else Other
  }

  function OrWords(a: word, b: word): word {
    Powers();
    OrBelow(a, b, 32);
    Or(a, b)
  }

  lemma {:induction false} OrBelow(a: nat, b: nat, k: nat)
    requires a < Pow2(k) && b < Pow2(k)
    ensures Or(a, b) < Pow2(k)
  {
    if k > 0 {
      OrBelow(a / 2, b / 2, k - 1);
    }
  }

  /** bcctr ignores the two low bits of CTR. */
  function InstructionAddress(addr: word): word {
    addr - addr % 4
  }

  function Execute(c: Cpu, i: Instr): (r: Option<Cpu>)
    requires |c.gpr| == 32 && Encodable(i)
    ensures r.Some? ==> |r.value.gpr| == 32
  {
    var next := Wrap(c.pc + 4);
    match i
    case Addis(d, a, imm) =>
      var base := if a == 0 then 0 else c.gpr[a];
      Some(c.(pc := next, gpr := c.gpr[d := Wrap(base + imm * 0x1_0000)]))
    case OrImm(a, s, imm) => Some(c.(pc := next, gpr := c.gpr[a := OrWords(c.gpr[s], imm)]))
    case MoveToCtr(s) => Some(c.(pc := next, ctr := c.gpr[s]))
    case BranchCtr => Some(c.(pc := InstructionAddress(c.ctr)))
    case Other => None
  }

  function StepAt(m: Space, c: Cpu): (r: Option<Cpu>)
    requires |c.gpr| == 32
    ensures r.Some? ==> |r.value.gpr| == 32
  {
    Execute(c, Decode(WordAt(m, c.pc)))
  }

  /** Fetches and executes `n` instructions. */
  function Run(m: Space, c: Cpu, n: nat): (r: Option<Cpu>)
    requires |c.gpr| == 32
    ensures r.Some? ==> |r.value.gpr| == 32
    decreases n
  {
    if n == 0 then Some(c)
    else
      var next := StepAt(m, c);
      if next.None? then None else Run(m, next.value, n - 1)
  }

  ghost predicate HoldsWords(m: Space, a: nat, words: seq<nat>) {
    forall i :: 0 <= i < |words| ==> WordAt(m, a + 4 * i) == words[i]
  }

  lemma DecodeValues(half: nat)
    requires half < 0x1_0000
    ensures Decode(0x3D20_0000 + half) == Addis(9, 0, half)
    ensures Decode(0x6129_0000 + half) == OrImm(9, 9, half)
    ensures Decode(0x7D29_03A6) == MoveToCtr(9)
    ensures Decode(0x4E80_0420) == BranchCtr
  {
  }

  /** The code the processor sees at `a` is the four-instruction branch to `addr`. */
  ghost predicate DecodesToBranch(m: Space, a: nat, addr: word) {
    && Decode(WordAt(m, a)) == Addis(9, 0, addr / 0x1_0000)
    && Decode(WordAt(m, a + 4)) == OrImm(9, 9, addr % 0x1_0000)
    && Decode(WordAt(m, a + 8)) == MoveToCtr(9)
    && Decode(WordAt(m, a + 12)) == BranchCtr
  }

  /** The four words as numbers. */
  function BranchTo(addr: word): (r: seq<word>)
    ensures |r| == 4
  {
    [0x3D20_0000 + addr / 0x1_0000, 0x6129_0000 + addr % 0x1_0000, 0x7D29_03A6, 0x4E80_0420]
  }

  lemma BranchWords(addr: word)
    ensures Branch(addr) == BranchTo(addr)
  {
    BranchFields(addr);
  }

  lemma WordsDecode(m: Space, a: nat, words: seq<nat>, addr: word)
    requires words == BranchTo(addr)
    requires HoldsWords(m, a, words)
    ensures DecodesToBranch(m, a, addr)
  {
    assert WordAt(m, a + 4 * 0) == words[0] && WordAt(m, a + 4 * 1) == words[1];
    assert WordAt(m, a + 4 * 2) == words[2] && WordAt(m, a + 4 * 3) == words[3];
    DecodeValues(addr / 0x1_0000);
    DecodeValues(addr % 0x1_0000);
  }

  lemma HalvesRejoin(addr: word)
    ensures OrWords((addr / 0x1_0000) * 0x1_0000, addr % 0x1_0000) == addr
  {
    Powers();
    ShlIsTimes(addr / 0x1_0000, 16);
    OrFields(addr / 0x1_0000, addr % 0x1_0000, 16);
  }

  /**
   * Wherever the four words stand, running them ends at the address, its two low bits cleared as bcctr does,
   * and changes nothing but r9 and CTR.
   */
  lemma BranchReaches(m: Space, c: Cpu, addr: word)
    requires |c.gpr| == 32 && c.pc + 16 <= WORD
    requires HoldsWords(m, c.pc, Branch(addr))
    ensures Run(m, c, 4) == Some(Cpu(InstructionAddress(addr), c.gpr[9 := addr], addr))
  {
    BranchWords(addr);
    WordsReach(m, c, Branch(addr), addr);
  }

  lemma WordsReach(m: Space, c: Cpu, words: seq<nat>, addr: word)
    requires |c.gpr| == 32 && c.pc + 16 <= WORD
    requires words == BranchTo(addr)
    requires HoldsWords(m, c.pc, words)
    ensures Run(m, c, 4) == Some(Cpu(InstructionAddress(addr), c.gpr[9 := addr], addr))
  {
    WordsDecode(m, c.pc, words, addr);
    FourSteps(m, c, addr);
  }

  lemma FourSteps(m: Space, c: Cpu, addr: word)
    requires |c.gpr| == 32 && c.pc + 16 <= WORD
    requires DecodesToBranch(m, c.pc, addr)
    ensures Run(m, c, 4) == Some(Cpu(InstructionAddress(addr), c.gpr[9 := addr], addr))
  {
    var c1, c2, c3, c4 := ExecuteFour(c, addr);
    RunFour(m, c, c1, c2, c3, c4);
  }

  lemma ExecuteFour(c: Cpu, addr: word) returns (c1: Cpu, c2: Cpu, c3: Cpu, c4: Cpu)
    requires |c.gpr| == 32 && c.pc + 16 <= WORD
    ensures |c1.gpr| == 32 && |c2.gpr| == 32 && |c3.gpr| == 32
    ensures c1.pc == c.pc + 4 && c2.pc == c.pc + 8 && c3.pc == c.pc + 12
    ensures Execute(c, Addis(9, 0, addr / 0x1_0000)) == Some(c1)
    ensures Execute(c1, OrImm(9, 9, addr % 0x1_0000)) == Some(c2)
    ensures Execute(c2, MoveToCtr(9)) == Some(c3)
    ensures Execute(c3, BranchCtr) == Some(c4)
    ensures c4 == Cpu(InstructionAddress(addr), c.gpr[9 := addr], addr)
  {
    var high := addr / 0x1_0000 * 0x1_0000;
    c1 := Cpu(c.pc + 4, c.gpr[9 := high], c.ctr);
    ExecuteAddis(c, addr / 0x1_0000);
    c2 := Cpu(c.pc + 8, c.gpr[9 := addr], c.ctr);
    assert c1.gpr[9 := addr] == c2.gpr;
    ExecuteOri(c1, addr);
    c3 := Cpu(c.pc + 12, c.gpr[9 := addr], addr);
    c4 := Cpu(InstructionAddress(addr), c.gpr[9 := addr], addr);
  }

  lemma ExecuteOri(c: Cpu, addr: word)
    requires |c.gpr| == 32 && c.pc + 4 < WORD && c.gpr[9] == addr / 0x1_0000 * 0x1_0000
    ensures Execute(c, OrImm(9, 9, addr % 0x1_0000)) == Some(Cpu(c.pc + 4, c.gpr[9 := addr], c.ctr))
  {
    HalvesRejoin(addr);
  }

  lemma ExecuteAddis(c: Cpu, half: nat)
    requires |c.gpr| == 32 && c.pc + 4 < WORD && half < 0x1_0000
    ensures Execute(c, Addis(9, 0, half)) == Some(Cpu(c.pc + 4, c.gpr[9 := half * 0x1_0000], c.ctr))
  {
  }

  lemma RunFour(m: Space, c: Cpu, c1: Cpu, c2: Cpu, c3: Cpu, c4: Cpu)
    requires |c.gpr| == 32 && |c1.gpr| == 32 && |c2.gpr| == 32 && |c3.gpr| == 32
    requires StepAt(m, c) == Some(c1) && StepAt(m, c1) == Some(c2)
    requires StepAt(m, c2) == Some(c3) && StepAt(m, c3) == Some(c4)
    ensures Run(m, c, 4) == Some(c4)
  {
    assert Run(m, c3, 1) == Some(c4);
    assert Run(m, c2, 2) == Some(c4);
    assert Run(m, c1, 3) == Some(c4);
  }

  /** The branch lands exactly on the address if and only if it is a multiple of four, as instruction addresses are. */
  lemma BranchLandsExactly(m: Space, c: Cpu, addr: word)
    requires |c.gpr| == 32 && c.pc + 16 <= WORD
    requires HoldsWords(m, c.pc, Branch(addr))
    ensures Run(m, c, 4).Some?
    ensures Run(m, c, 4).value.pc == addr <==> addr % 4 == 0
  {
    BranchReaches(m, c, addr);
  }
}
