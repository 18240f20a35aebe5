/** The compressed-instruction decoder (rtl/cv32e40p_compressed_decoder.sv) without floating point, and what it must
    do: an instruction expanded to 32 bits must read, to a 32-bit decoder, as the operation that section 16.8 of the
    RISC-V Unprivileged ISA (20191213) gives for the 16-bit encoding. */
module CompressedDecoder {
  import opened InstructionStream

  // ---------------------------------------------------------------- the expansion

  const OPCODE_LOAD: bv32 := 0x03
  const OPCODE_OPIMM: bv32 := 0x13
  const OPCODE_STORE: bv32 := 0x23
  const OPCODE_OP: bv32 := 0x33
  const OPCODE_LUI: bv32 := 0x37
  const OPCODE_BRANCH: bv32 := 0x63
  const OPCODE_JALR: bv32 := 0x67
  const OPCODE_JAL: bv32 := 0x6F

  datatype Expansion = Expansion(instr: bv32, illegal: bool)

  function Legal(instr: bv32): Expansion {
    Expansion(instr, false)
  }

  const ILLEGAL := Expansion(0, true)

  /** Replicated sign bit of the 6-bit and 12-bit immediates: bit 12 of the encoding. */
  function Sign(h: bv32): bv32 {
    (h >> 12) & 1
  }

  /** `{imm, rs1, funct3, rd, opcode}` with a 12-bit field on top. */
  function IType(imm: bv32, rs1: bv32, funct3: bv32, rd: bv32, opcode: bv32): bv32 {
    (imm << 20) | (rs1 << 15) | (funct3 << 12) | (rd << 7) | opcode
  }

  function RType(funct7: bv32, rs2: bv32, rs1: bv32, funct3: bv32, rd: bv32): bv32 {
    (funct7 << 25) | (rs2 << 20) | (rs1 << 15) | (funct3 << 12) | (rd << 7) | OPCODE_OP
  }

  /** `{immHi, rs2, rs1, funct3, immLo, opcode}` with 7 and 5 immediate bits. */
  function SType(immHi: bv32, rs2: bv32, rs1: bv32, funct3: bv32, immLo: bv32, opcode: bv32): bv32 {
    (immHi << 25) | (rs2 << 20) | (rs1 << 15) | (funct3 << 12) | (immLo << 7) | opcode
  }

  /** Six-bit immediate `{instr[12], instr[6:2]}`, sign extended to twelve bits. */
  function Imm6(h: bv32): bv32 {
    (if Sign(h) == 1 then 0xFE0 else 0) | ((h >> 2) & 0x1F)
  }

  /** The 3-bit register fields `{2'b01, instr[9:7]}` and `{2'b01, instr[4:2]}`. */
  function Reg97(h: bv32): bv32 {
    8 | ((h >> 7) & 7)
  }

  function Reg42(h: bv32): bv32 {
    8 | ((h >> 2) & 7)
  }

  function Reg117(h: bv32): bv32 {
    (h >> 7) & 0x1F
  }

  function Reg62(h: bv32): bv32 {
    (h >> 2) & 0x1F
  }

  function Quadrant0(h: bv32): Expansion {
    var f := (h >> 13) & 7;
    if f == 0 then
      // {2'b0, [10:7], [12:11], [5], [6], 2'b00}
      var imm := (((h >> 7) & 0xF) << 6) | (((h >> 11) & 3) << 4) | (((h >> 5) & 1) << 3) | (((h >> 6) & 1) << 2);
      Expansion(IType(imm, 2, 0, Reg42(h), OPCODE_OPIMM), (h >> 5) & 0xFF == 0)
    else if f == 2 then
      // {5'b0, [5], [12:10], [6], 2'b00}
      var imm := (((h >> 5) & 1) << 6) | (((h >> 10) & 7) << 3) | (((h >> 6) & 1) << 2);
      Legal(IType(imm, Reg97(h), 2, Reg42(h), OPCODE_LOAD))
    else if f == 6 then
      // {5'b0, [5], [12]} and {[11:10], [6], 2'b00}
      Legal(SType((((h >> 5) & 1) << 1) | Sign(h), Reg42(h), Reg97(h), 2,
                  (((h >> 10) & 3) << 3) | (((h >> 6) & 1) << 2), OPCODE_STORE))
    else ILLEGAL
  }

  function Arithmetic(h: bv32): Expansion {
    var f := (h >> 10) & 3;
    if f == 0 || f == 1 then
      // {1'b0, [10], 5'b0, [6:2]}
      Expansion(IType((((h >> 10) & 1) << 10) | Reg62(h), Reg97(h), 5, Reg97(h), OPCODE_OPIMM), Sign(h) == 1)
    else if f == 2 then
      Legal(IType(Imm6(h), Reg97(h), 7, Reg97(h), OPCODE_OPIMM))
    else
      var g := (Sign(h) << 2) | ((h >> 5) & 3);
      if g == 0 then Legal(RType(0x20, Reg42(h), Reg97(h), 0, Reg97(h)))
      else if g == 1 then Legal(RType(0, Reg42(h), Reg97(h), 4, Reg97(h)))
      else if g == 2 then Legal(RType(0, Reg42(h), Reg97(h), 6, Reg97(h)))
      else if g == 3 then Legal(RType(0, Reg42(h), Reg97(h), 7, Reg97(h)))
      else ILLEGAL
  }

  /** `{[12], [8], [10:9], [6], [7], [2], [11], [5:3], {9{[12]}}, 4'b0, ~[15]}` and the opcode. */
  function JumpWord(h: bv32): bv32 {
    var imm := (Sign(h) << 19) | (((h >> 8) & 1) << 18) | (((h >> 9) & 3) << 16) | (((h >> 6) & 1) << 15)
               | (((h >> 7) & 1) << 14) | (((h >> 2) & 1) << 13) | (((h >> 11) & 1) << 12) | (((h >> 3) & 7) << 9)
               | (if Sign(h) == 1 then 0x1FF else 0);
    (imm << 12) | ((((h >> 15) & 1) ^ 1) << 7) | OPCODE_JAL
  }

  function Quadrant1(h: bv32): Expansion {
    var f := (h >> 13) & 7;
    if f == 0 then
      Legal(IType(Imm6(h), Reg117(h), 0, Reg117(h), OPCODE_OPIMM))
    else if f == 1 || f == 5 then
      Legal(JumpWord(h))
    else if f == 2 then
      Legal(IType(Imm6(h), 0, 0, Reg117(h), OPCODE_OPIMM))
    else if f == 3 then
      if (Sign(h) << 5) | Reg62(h) == 0 then ILLEGAL
      else if Reg117(h) == 2 then
        // {{3{[12]}}, [4:3], [5], [2], [6], 4'b0}
        var imm := (if Sign(h) == 1 then 0xE00 else 0) | (((h >> 3) & 3) << 7) | (((h >> 5) & 1) << 6)
                   | (((h >> 2) & 1) << 5) | (((h >> 6) & 1) << 4);
        Legal(IType(imm, 2, 0, 2, OPCODE_OPIMM))
      else
        // {{15{[12]}}, [6:2]}
        var imm := (if Sign(h) == 1 then 0xFFFE0 else 0) | Reg62(h);
        Legal((imm << 12) | (Reg117(h) << 7) | OPCODE_LUI)
    else if f == 4 then Arithmetic(h)
    else
      // {{4{[12]}}, [6:5], [2]} and {[11:10], [4:3], [12]}
      var hi := (if Sign(h) == 1 then 0x78 else 0) | (((h >> 5) & 3) << 1) | ((h >> 2) & 1);
      var lo := (((h >> 10) & 3) << 3) | (((h >> 3) & 3) << 1) | Sign(h);
      Legal(SType(hi, 0, Reg97(h), (h >> 13) & 1, lo, OPCODE_BRANCH))
  }

  function Quadrant2(h: bv32): Expansion {
    var f := (h >> 13) & 7;
    if f == 0 then
      Expansion(IType(Reg62(h), Reg117(h), 1, Reg117(h), OPCODE_OPIMM), Sign(h) == 1)
    else if f == 2 then
      // {4'b0, [3:2], [12], [6:4], 2'b00}
      var imm := (((h >> 2) & 3) << 6) | (Sign(h) << 5) | (((h >> 4) & 7) << 2);
      Expansion(IType(imm, 2, 2, Reg117(h), OPCODE_LOAD), Reg117(h) == 0)
    else if f == 4 then
      if Sign(h) == 0 then
        if Reg62(h) == 0 then Expansion(IType(0, Reg117(h), 0, 0, OPCODE_JALR), Reg117(h) == 0)
        else Legal(RType(0, Reg62(h), 0, 0, Reg117(h)))
      else if Reg62(h) == 0 then
        if Reg117(h) == 0 then Legal(0x0010_0073)
        else Legal(IType(0, Reg117(h), 0, 1, OPCODE_JALR))
      else Legal(RType(0, Reg62(h), Reg117(h), 0, Reg117(h)))
    else if f == 6 then
      // {4'b0, [8:7], [12]} and {[11:9], 2'b00}
      Legal(SType((((h >> 7) & 3) << 1) | Sign(h), Reg62(h), 2, 2, ((h >> 9) & 7) << 2, OPCODE_STORE))
    else ILLEGAL
  }

  predicate IsCompressed(i: Word) {
    i.lo & 3 != 3
  }

  function Join(i: Word): bv32 {
    ((i.hi as bv32) << 16) | (i.lo as bv32)
  }

  /** All bit selects of the expansions lie in the low half `h`; a 32-bit instruction `w` passes unchanged. */
  function ExpandHalf(h: bv32, w: bv32): Expansion {
    if h & 3 == 0 then Quadrant0(h)
    else if h & 3 == 1 then Quadrant1(h)
    else if h & 3 == 2 then Quadrant2(h)
    else Legal(w)
  }

  /** `instr_o` and `illegal_instr_o`. */
  function Expand(i: Word): Expansion {
    ExpandHalf(i.lo as bv32, Join(i))
  }

  // ---------------------------------------------------------------- operations and the 32-bit formats

  /** The operations compressed instructions stand for. Immediates are sign extended to 32 bits. */
  datatype Operation =
    | Addi(rd: bv32, rs1: bv32, imm: bv32)
    | Andi(rd: bv32, rs1: bv32, imm: bv32)
    | Slli(rd: bv32, rs1: bv32, shamt: bv32)
    | Srli(rd: bv32, rs1: bv32, shamt: bv32)
    | Srai(rd: bv32, rs1: bv32, shamt: bv32)
    | Add(rd: bv32, rs1: bv32, rs2: bv32)
    | Sub(rd: bv32, rs1: bv32, rs2: bv32)
    | Xor(rd: bv32, rs1: bv32, rs2: bv32)
    | Or(rd: bv32, rs1: bv32, rs2: bv32)
    | And(rd: bv32, rs1: bv32, rs2: bv32)
    | Lui(rd: bv32, imm: bv32)
    | Lw(rd: bv32, rs1: bv32, imm: bv32)
    | Sw(rs1: bv32, rs2: bv32, imm: bv32)
    | Jal(rd: bv32, imm: bv32)
    | Jalr(rd: bv32, rs1: bv32, imm: bv32)
    | Beq(rs1: bv32, rs2: bv32, imm: bv32)
    | Bne(rs1: bv32, rs2: bv32, imm: bv32)
    | Ebreak
    | Other(word: bv32)

  /** Sign extension of a value of `bits` bits whose sign bit and extension are given as masks. */
  function SignExtend(v: bv32, sign: bv32, extension: bv32): bv32 {
    if v & sign == 0 then v else v | extension
  }

  function ImmI(w: bv32): bv32 {
    SignExtend(w >> 20, 0x800, 0xFFFF_F000)
  }

  function ImmS(w: bv32): bv32 {
    SignExtend(((w >> 25) << 5) | ((w >> 7) & 0x1F), 0x800, 0xFFFF_F000)
  }

  function ImmB(w: bv32): bv32 {
    SignExtend(((w >> 31) << 12) | (((w >> 7) & 1) << 11) | (((w >> 25) & 0x3F) << 5) | (((w >> 8) & 0xF) << 1),
               0x1000, 0xFFFF_E000)
  }

  function ImmJ(w: bv32): bv32 {
    SignExtend(((w >> 31) << 20) | (w & 0xF_F000) | (((w >> 20) & 1) << 11) | (((w >> 21) & 0x3FF) << 1),
               0x10_0000, 0xFFE0_0000)
  }

  /** How a decoder of the RV32I formats (section 2.2 and 2.3) reads a 32-bit word. */
  function Decode32(w: bv32): Operation {
    var opcode, rd, f3 := w & 0x7F, (w >> 7) & 0x1F, (w >> 12) & 7;
    var rs1, rs2, f7 := (w >> 15) & 0x1F, (w >> 20) & 0x1F, w >> 25;
    if opcode == 0x13 && f3 == 0 then Addi(rd, rs1, ImmI(w))
    else if opcode == 0x13 && f3 == 7 then Andi(rd, rs1, ImmI(w))
    else if opcode == 0x13 && f3 == 1 && f7 == 0 then Slli(rd, rs1, rs2)
    else if opcode == 0x13 && f3 == 5 && f7 == 0 then Srli(rd, rs1, rs2)
    else if opcode == 0x13 && f3 == 5 && f7 == 0x20 then Srai(rd, rs1, rs2)
    else if opcode == 0x33 && f3 == 0 && f7 == 0 then Add(rd, rs1, rs2)
    else if opcode == 0x33 && f3 == 0 && f7 == 0x20 then Sub(rd, rs1, rs2)
    else if opcode == 0x33 && f3 == 4 && f7 == 0 then Xor(rd, rs1, rs2)
    else if opcode == 0x33 && f3 == 6 && f7 == 0 then Or(rd, rs1, rs2)
    else if opcode == 0x33 && f3 == 7 && f7 == 0 then And(rd, rs1, rs2)
    else if opcode == 0x37 then Lui(rd, w & 0xFFFF_F000)
    else if opcode == 0x03 && f3 == 2 then Lw(rd, rs1, ImmI(w))
    else if opcode == 0x23 && f3 == 2 then Sw(rs1, rs2, ImmS(w))
    else if opcode == 0x6F then Jal(rd, ImmJ(w))
    else if opcode == 0x67 && f3 == 0 then Jalr(rd, rs1, ImmI(w))
    else if opcode == 0x63 && f3 == 0 then Beq(rs1, rs2, ImmB(w))
    else if opcode == 0x63 && f3 == 1 then Bne(rs1, rs2, ImmB(w))
    else if w == 0x0010_0073 then Ebreak
    else Other(w)
  }

  // ---------------------------------------------------------------- the reference for 16-bit encodings

  /** Bits `hi` down to `lo` of a halfword, moved to position `to` of an immediate; `mask` has `hi-lo+1` ones. */
  function Field(h: bv32, lo: bv5, mask: bv32, to: bv5): bv32 {
    ((h >> lo) & mask) << to
  }

  /** imm[5] in bit 12 and imm[4:0] in bits 6 to 2. */
  function ImmCI(h: bv32): bv32 {
    SignExtend(Field(h, 12, 1, 5) | Field(h, 2, 0x1F, 0), 0x20, 0xFFFF_FFC0)
  }

  /** imm[11|4|9:8|10|6|7|3:1|5] in bits 12 to 2. */
  function ImmCJ(h: bv32): bv32 {
    SignExtend(Field(h, 12, 1, 11) | Field(h, 11, 1, 4) | Field(h, 9, 3, 8) | Field(h, 8, 1, 10) | Field(h, 7, 1, 6)
               | Field(h, 6, 1, 7) | Field(h, 3, 7, 1) | Field(h, 2, 1, 5), 0x800, 0xFFFF_F000)
  }

  /** imm[8|4:3] in bits 12 to 10 and imm[7:6|2:1|5] in bits 6 to 2. */
  function ImmCB(h: bv32): bv32 {
    SignExtend(Field(h, 12, 1, 8) | Field(h, 10, 3, 3) | Field(h, 5, 3, 6) | Field(h, 3, 3, 1) | Field(h, 2, 1, 5),
               0x100, 0xFFFF_FE00)
  }

  /** nzimm[9] in bit 12 and nzimm[4|6|8:7|5] in bits 6 to 2. */
  function Imm16SP(h: bv32): bv32 {
    SignExtend(Field(h, 12, 1, 9) | Field(h, 6, 1, 4) | Field(h, 5, 1, 6) | Field(h, 3, 3, 7) | Field(h, 2, 1, 5),
               0x200, 0xFFFF_FC00)
  }

  /** nzimm[17] in bit 12 and nzimm[16:12] in bits 6 to 2. */
  function ImmLui(h: bv32): bv32 {
    SignExtend(Field(h, 12, 1, 17) | Field(h, 2, 0x1F, 12), 0x2_0000, 0xFFFC_0000)
  }

  /** uimm[5:3] in bits 12 to 10 and uimm[2|6] in bits 6 to 5. */
  function ImmCL(h: bv32): bv32 {
    Field(h, 10, 7, 3) | Field(h, 6, 1, 2) | Field(h, 5, 1, 6)
  }

  /** nzuimm[5:4|9:6|2|3] in bits 12 to 5. */
  function Imm4SPN(h: bv32): bv32 {
    Field(h, 11, 3, 4) | Field(h, 7, 0xF, 6) | Field(h, 6, 1, 2) | Field(h, 5, 1, 3)
  }

  /** uimm[5] in bit 12 and uimm[4:2|7:6] in bits 6 to 2. */
  function ImmLwsp(h: bv32): bv32 {
    Field(h, 12, 1, 5) | Field(h, 4, 7, 2) | Field(h, 2, 3, 6)
  }

  /** uimm[5:2|7:6] in bits 12 to 7. */
  function ImmSwsp(h: bv32): bv32 {
    Field(h, 9, 0xF, 2) | Field(h, 7, 3, 6)
  }

  /** The operation of a 16-bit encoding; None for reserved, custom, RV64-only and floating-point encodings. */
  function Compressed(x: bv32): Option<Operation> {
    var f := x >> 13;
    var q := x & 3;
    var rd, rs2 := (x >> 7) & 0x1F, (x >> 2) & 0x1F;          // full register fields
    var rdP, rs2P := 8 + ((x >> 7) & 7), 8 + ((x >> 2) & 7);  // x8 to x15
    var bit12 := (x >> 12) & 1;
    if q == 0 then
      if f == 0 then (if Imm4SPN(x) == 0 then None else Some(Addi(rs2P, 2, Imm4SPN(x))))
      else if f == 2 then Some(Lw(rs2P, rdP, ImmCL(x)))
      else if f == 6 then Some(Sw(rdP, rs2P, ImmCL(x)))
      else None
    else if q == 1 then
      if f == 0 then Some(Addi(rd, rd, ImmCI(x)))
      else if f == 1 then Some(Jal(1, ImmCJ(x)))
      else if f == 2 then Some(Addi(rd, 0, ImmCI(x)))
      else if f == 3 then
        if rd == 2 then (if Imm16SP(x) == 0 then None else Some(Addi(2, 2, Imm16SP(x))))
        else if ImmLui(x) == 0 then None
        else Some(Lui(rd, ImmLui(x)))
      else if f == 4 then
        var g := (x >> 10) & 3;
        if g == 0 then (if bit12 == 1 then None else Some(Srli(rdP, rdP, rs2)))
        else if g == 1 then (if bit12 == 1 then None else Some(Srai(rdP, rdP, rs2)))
        else if g == 2 then Some(Andi(rdP, rdP, ImmCI(x)))
        else if bit12 == 1 then None
        else
          var k := (x >> 5) & 3;
          if k == 0 then Some(Sub(rdP, rdP, rs2P))
          else if k == 1 then Some(Xor(rdP, rdP, rs2P))
          else if k == 2 then Some(Or(rdP, rdP, rs2P))
          else Some(And(rdP, rdP, rs2P))
      else if f == 5 then Some(Jal(0, ImmCJ(x)))
      else if f == 6 then Some(Beq(rdP, 0, ImmCB(x)))
      else Some(Bne(rdP, 0, ImmCB(x)))
    else if q == 2 then
      if f == 0 then (if bit12 == 1 then None else Some(Slli(rd, rd, rs2)))
      else if f == 2 then (if rd == 0 then None else Some(Lw(rd, 2, ImmLwsp(x))))
      else if f == 4 then
        if bit12 == 0 && rs2 == 0 then (if rd == 0 then None else Some(Jalr(0, rd, 0)))
        else if bit12 == 0 then Some(Add(rd, 0, rs2))
        else if rs2 == 0 then Some(if rd == 0 then Ebreak else Jalr(1, rd, 0))
        else Some(Add(rd, rd, rs2))
      else if f == 6 then Some(Sw(2, rs2, ImmSwsp(x)))
      else None
    else None
  }

  /** The expansion is illegal exactly for the encodings without an operation, and otherwise reads as it. */
  predicate Reads(e: Expansion, op: Option<Operation>) {
    match op
    case None => e.illegal
    case Some(o) => !e.illegal && Decode32(e.instr) == o
  }

  /** The word with lower half `lo` and upper half `hi`. */
  function Halves(lo: bv16, hi: bv16): bv32 {
    ((hi as bv32) << 16) | (lo as bv32)
  }

  lemma HalvesAre(lo: bv16, hi: bv16, w: bv32)
    requires w == Halves(lo, hi)
    ensures w & 0xFFFF == lo as bv32 && w >> 16 == hi as bv32
  {
  }

  // ---------------------------------------------------------------- group by group

  lemma StackAddReads(x: bv32)
    requires x >> 16 == 0 && x & 3 == 0 && x >> 13 == 0
    ensures Reads(Quadrant0(x), Compressed(x))
  {
  }

  lemma LoadReads(x: bv32)
    requires x >> 16 == 0 && x & 3 == 0 && x >> 13 == 2
    ensures Reads(Quadrant0(x), Compressed(x))
  {
  }

  lemma StoreReads(x: bv32)
    requires x >> 16 == 0 && x & 3 == 0 && x >> 13 == 6
    ensures Reads(Quadrant0(x), Compressed(x))
  {
  }

  lemma NoFloat0Reads(x: bv32)
    requires x >> 16 == 0 && x & 3 == 0 && x >> 13 != 0 && x >> 13 != 2 && x >> 13 != 6
    ensures Reads(Quadrant0(x), Compressed(x))
  {
  }

  lemma AddImmediateReads(x: bv32)
    requires x >> 16 == 0 && x & 3 == 1 && x >> 13 == 0
    ensures Reads(Quadrant1(x), Compressed(x))
  {
  }

  lemma BackwardJumpOffset(x: bv32)
    requires Sign(x) == 1
    ensures ImmJ(JumpWord(x)) == ImmCJ(x)
  {
  }

  lemma ForwardJumpOffset(x: bv32)
    requires Sign(x) == 0
    ensures ImmJ(JumpWord(x)) == ImmCJ(x)
  {
  }

  lemma JumpWordOffset(x: bv32)
    ensures ImmJ(JumpWord(x)) == ImmCJ(x)
  {
    if Sign(x) == 1 {
      BackwardJumpOffset(x);
    } else {
      ForwardJumpOffset(x);
    }
  }

  lemma JumpWordFields(x: bv32)
    ensures JumpWord(x) & 0x7F == 0x6F && (JumpWord(x) >> 7) & 0x1F == ((x >> 15) & 1) ^ 1
  {
  }

  lemma JumpAndLinkReads(x: bv32)
    requires x >> 16 == 0 && x & 3 == 1 && x >> 13 == 1
    ensures Reads(Quadrant1(x), Compressed(x))
  {
    JumpWordOffset(x);
    JumpWordFields(x);
  }

  lemma JumpReads(x: bv32)
    requires x >> 16 == 0 && x & 3 == 1 && x >> 13 == 5
    ensures Reads(Quadrant1(x), Compressed(x))
  {
    JumpWordOffset(x);
    JumpWordFields(x);
  }

  lemma LoadImmediateReads(x: bv32)
    requires x >> 16 == 0 && x & 3 == 1 && x >> 13 == 2
    ensures Reads(Quadrant1(x), Compressed(x))
  {
  }

  lemma LoadUpperReads(x: bv32)
    requires x >> 16 == 0 && x & 3 == 1 && x >> 13 == 3
    ensures Reads(Quadrant1(x), Compressed(x))
  {
  }

  lemma ShiftRightLogicalReads(x: bv32)
    requires x >> 16 == 0 && x & 3 == 1 && x >> 13 == 4 && (x >> 10) & 3 == 0
    ensures Reads(Quadrant1(x), Compressed(x))
  {
  }

  lemma ShiftRightArithmeticReads(x: bv32)
    requires x >> 16 == 0 && x & 3 == 1 && x >> 13 == 4 && (x >> 10) & 3 == 1
    ensures Reads(Quadrant1(x), Compressed(x))
  {
  }

  lemma AndImmediateReads(x: bv32)
    requires x >> 16 == 0 && x & 3 == 1 && x >> 13 == 4 && (x >> 10) & 3 == 2
    ensures Reads(Quadrant1(x), Compressed(x))
  {
  }

  lemma RegisterOpReads(x: bv32)
    requires x >> 16 == 0 && x & 3 == 1 && x >> 13 == 4 && (x >> 10) & 3 == 3
    ensures Reads(Quadrant1(x), Compressed(x))
  {
  }

  lemma BranchZeroReads(x: bv32)
    requires x >> 16 == 0 && x & 3 == 1 && x >> 13 == 6
    ensures Reads(Quadrant1(x), Compressed(x))
  {
  }

  lemma BranchNonzeroReads(x: bv32)
    requires x >> 16 == 0 && x & 3 == 1 && x >> 13 == 7
    ensures Reads(Quadrant1(x), Compressed(x))
  {
  }

  lemma ShiftLeftReads(x: bv32)
    requires x >> 16 == 0 && x & 3 == 2 && x >> 13 == 0
    ensures Reads(Quadrant2(x), Compressed(x))
  {
  }

  lemma StackLoadReads(x: bv32)
    requires x >> 16 == 0 && x & 3 == 2 && x >> 13 == 2
    ensures Reads(Quadrant2(x), Compressed(x))
  {
  }

  lemma RegisterJumpReads(x: bv32)
    requires x >> 16 == 0 && x & 3 == 2 && x >> 13 == 4 && (x >> 2) & 0x1F == 0
    ensures Reads(Quadrant2(x), Compressed(x))
  {
  }

  lemma MoveReads(x: bv32)
    requires x >> 16 == 0 && x & 3 == 2 && x >> 13 == 4 && (x >> 2) & 0x1F != 0 && (x >> 12) & 1 == 0
    ensures Reads(Quadrant2(x), Compressed(x))
  {
  }

  lemma AddReads(x: bv32)
    requires x >> 16 == 0 && x & 3 == 2 && x >> 13 == 4 && (x >> 2) & 0x1F != 0 && (x >> 12) & 1 == 1
    ensures Reads(Quadrant2(x), Compressed(x))
  {
  }

  lemma StackStoreReads(x: bv32)
    requires x >> 16 == 0 && x & 3 == 2 && x >> 13 == 6
    ensures Reads(Quadrant2(x), Compressed(x))
  {
  }

  lemma NoFloat2Reads(x: bv32)
    requires x >> 16 == 0 && x & 3 == 2 && x >> 13 != 0 && x >> 13 != 2 && x >> 13 != 4 && x >> 13 != 6
    ensures Reads(Quadrant2(x), Compressed(x))
  {
  }

  lemma FunctBits(x: bv32)
    requires x >> 16 == 0
    ensures x & 3 == 0 || x & 3 == 1 || x & 3 == 2 || x & 3 == 3
    ensures x >> 13 < 8 && ((x >> 12) & 1 == 0 || (x >> 12) & 1 == 1)
  {
  }

  lemma Quadrant0Reads(x: bv32)
    requires x >> 16 == 0 && x & 3 == 0
    ensures Reads(Quadrant0(x), Compressed(x))
  {
    var f := x >> 13;
    if f == 0 { StackAddReads(x); }
    else if f == 2 { LoadReads(x); }
    else if f == 6 { StoreReads(x); }
    else { NoFloat0Reads(x); }
  }

  lemma Quadrant1Reads(x: bv32)
    requires x >> 16 == 0 && x & 3 == 1
    ensures Reads(Quadrant1(x), Compressed(x))
  {
    var f, g := x >> 13, (x >> 10) & 3;
    FunctBits(x);
    if f == 0 { AddImmediateReads(x); }
    else if f == 1 { JumpAndLinkReads(x); }
    else if f == 2 { LoadImmediateReads(x); }
    else if f == 3 { LoadUpperReads(x); }
    else if f == 5 { JumpReads(x); }
    else if f == 6 { BranchZeroReads(x); }
    else if f == 7 { BranchNonzeroReads(x); }
    else if g == 0 { ShiftRightLogicalReads(x); }
    else if g == 1 { ShiftRightArithmeticReads(x); }
    else if g == 2 { AndImmediateReads(x); }
    else { RegisterOpReads(x); }
  }

  lemma Quadrant2Reads(x: bv32)
    requires x >> 16 == 0 && x & 3 == 2
    ensures Reads(Quadrant2(x), Compressed(x))
  {
    var f := x >> 13;
    FunctBits(x);
    if f == 0 { ShiftLeftReads(x); }
    else if f == 2 { StackLoadReads(x); }
    else if f == 6 { StackStoreReads(x); }
    else if f != 4 { NoFloat2Reads(x); }
    else if (x >> 2) & 0x1F == 0 { RegisterJumpReads(x); }
    else if (x >> 12) & 1 == 0 { MoveReads(x); }
    else { AddReads(x); }
  }

  lemma HalfReads(x: bv32, w: bv32)
    requires x >> 16 == 0 && x & 3 != 3
    ensures Reads(ExpandHalf(x, w), Compressed(x))
  {
    FunctBits(x);
    if x & 3 == 0 {
      Quadrant0Reads(x);
    } else if x & 3 == 1 {
      Quadrant1Reads(x);
    } else {
      Quadrant2Reads(x);
    }
  }

  /** Every 16-bit encoding, legal or not. */
  lemma ExpansionReads(i: Word)
    requires IsCompressed(i)
    ensures Reads(Expand(i), Compressed(i.lo as bv32))
  {
    HalfReads(i.lo as bv32, Join(i));
  }

  /** A 32-bit instruction passes unchanged, whatever it is. */
  lemma FullWordPasses(lo: bv16, hi: bv16)
    requires !IsCompressed(Word(lo, hi))
    ensures Expand(Word(lo, hi)) == Expansion(Halves(lo, hi), false)
  {
    LowBits(lo, lo as bv32);
    JoinIsHalves(lo, hi);
    FullHalf(lo as bv32, Halves(lo, hi));
  }

  lemma JoinIsHalves(lo: bv16, hi: bv16)
    ensures Join(Word(lo, hi)) == Halves(lo, hi)
  {
  }

  lemma LowBits(lo: bv16, x: bv32)
    requires x == lo as bv32 && lo & 3 == 3
    ensures x & 3 == 3
  {
  }

  lemma FullHalf(x: bv32, w: bv32)
    requires x & 3 == 3
    ensures ExpandHalf(x, w) == Expansion(w, false)
  {
  }
}
