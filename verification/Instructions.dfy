/** RV32I, M and Zicsr instruction words: the encoders, and the decoder behind the
    instruction trace. Formats are those of sections 2.2 and 2.3 of the RISC-V
    Unprivileged ISA specification. */
module Instructions {
  import opened Prelude

  /** A register number, or the five-bit immediate that takes its place. */
  type Reg = r: bv32 | r < 32

  datatype RegOp =
    | Add | Sub | Sll | Slt | Sltu | Xor | Srl | Sra | Or | And
    | Mul | Mulh | Mulhsu | Mulhu | Div | Divu | Rem | Remu
  datatype ImmOp = Addi | Slti | Sltiu | Xori | Ori | Andi
  datatype ShiftOp = Slli | Srli | Srai
  datatype LoadOp = Lb | Lh | Lw | Lbu | Lhu
  datatype StoreOp = Sb | Sh | Sw
  datatype BranchOp = Beq | Bne | Blt | Bge | Bltu | Bgeu
  datatype UpperOp = Lui | Auipc
  datatype CsrOp = Csrrw | Csrrs | Csrrc | Csrrwi | Csrrsi | Csrrci

  datatype Mnemonic =
    | Register(regOp: RegOp) | Immediate(immOp: ImmOp) | Shift(shiftOp: ShiftOp) | Load(loadOp: LoadOp)
    | Store(storeOp: StoreOp) | Branch(branchOp: BranchOp) | Upper(upperOp: UpperOp) | Jal | Jalr
    | Fence | Ecall | Ebreak | Csr(csrOp: CsrOp) | Unknown

  /** One call of an encoder. */
  datatype Instruction =
    | RegisterI(regOp: RegOp, rd: Reg, rs1: Reg, rs2: Reg)
    | ImmediateI(immOp: ImmOp, rd: Reg, rs1: Reg, imm: bv32)
    | ShiftI(shiftOp: ShiftOp, rd: Reg, rs1: Reg, shamt: Reg)
    | LoadI(loadOp: LoadOp, rd: Reg, rs1: Reg, imm: bv32)
    | StoreI(storeOp: StoreOp, rs1: Reg, rs2: Reg, imm: bv32)
    | BranchI(branchOp: BranchOp, rs1: Reg, rs2: Reg, imm: bv32)
    | UpperI(upperOp: UpperOp, rd: Reg, imm: bv32)
    | JalI(rd: Reg, imm: bv32)
    | JalrI(rd: Reg, rs1: Reg, imm: bv32)
    | FenceI
    | EcallI
    | EbreakI
    | CsrI(csrOp: CsrOp, rd: Reg, rs1: Reg, csr: bv32)

  /** What the trace reports about a word. */
  datatype Decoded = Decoded(
    mnemonic: Mnemonic,
    rd: Option<bv32>,
    rs1: Option<bv32>,
    rs2: Option<bv32>,
    immediate: Option<bv32>)

  /** The immediate fits the signed field of the format; branch and jump offsets are even. */
  predicate Legal(i: Instruction) {
    match i
    case ImmediateI(_, _, _, imm) => Signed12(imm)
    case LoadI(_, _, _, imm) => Signed12(imm)
    case StoreI(_, _, _, imm) => Signed12(imm)
    case JalrI(_, _, imm) => Signed12(imm)
    case BranchI(_, _, _, imm) => imm & 1 == 0 && (imm & 0xFFFF_F000 == 0 || imm & 0xFFFF_F000 == 0xFFFF_F000)
    case JalI(_, imm) => imm & 1 == 0 && (imm & 0xFFF0_0000 == 0 || imm & 0xFFF0_0000 == 0xFFF0_0000)
    case CsrI(_, _, _, csr) => csr <= 0xFFF
    case _ => true
  }

  predicate Signed12(imm: bv32) {
    imm & 0xFFFF_F800 == 0 || imm & 0xFFFF_F800 == 0xFFFF_F800
  }

  // ---- Encoders ------------------------------------------------------------------------

  function EncodeI(opcode: bv32, rd: bv32, funct3: bv32, rs1: bv32, imm: bv32): bv32 {
    ((imm & 0xFFF) << 20) | (rs1 << 15) | (funct3 << 12) | (rd << 7) | opcode
  }

  function EncodeR(opcode: bv32, rd: bv32, funct3: bv32, rs1: bv32, rs2: bv32, funct7: bv32): bv32 {
    (funct7 << 25) | (rs2 << 20) | (rs1 << 15) | (funct3 << 12) | (rd << 7) | opcode
  }

  function UpperPart(imm: bv32): bv32 {
    imm & 0xFFFF_F000
  }

  function EncodeU(opcode: bv32, rd: bv32, imm: bv32): bv32 {
    UpperPart(imm) | (rd << 7) | opcode
  }

  function EncodeB(opcode: bv32, funct3: bv32, rs1: bv32, rs2: bv32, imm: bv32): bv32 {
    (((imm >> 12) & 0x1) << 31) | (((imm >> 5) & 0x3F) << 25) | (rs2 << 20) | (rs1 << 15) | (funct3 << 12)
    | (((imm >> 1) & 0xF) << 8) | (((imm >> 11) & 0x1) << 7) | opcode
  }

  function EncodeS(opcode: bv32, funct3: bv32, rs1: bv32, rs2: bv32, imm: bv32): bv32 {
    var low := imm & 0xFFF;
    (((low >> 5) & 0x7F) << 25) | (rs2 << 20) | (rs1 << 15) | (funct3 << 12) | ((low & 0x1F) << 7) | opcode
  }

  function EncodeJ(opcode: bv32, rd: bv32, imm: bv32): bv32 {
    (((imm >> 20) & 0x1) << 31) | (((imm >> 12) & 0xFF) << 12) | (((imm >> 11) & 0x1) << 20)
    | (((imm >> 1) & 0x3FF) << 21) | (rd << 7) | opcode
  }

  function RegFunct3(op: RegOp): bv32 {
    match op
    case Add => 0 case Sub => 0 case Mul => 0
    case Sll => 1 case Mulh => 1
    case Slt => 2 case Mulhsu => 2
    case Sltu => 3 case Mulhu => 3
    case Xor => 4 case Div => 4
    case Srl => 5 case Sra => 5 case Divu => 5
    case Or => 6 case Rem => 6
    case And => 7 case Remu => 7
  }

  function RegFunct7(op: RegOp): bv32 {
    match op
    case Sub => 0x20 case Sra => 0x20
    case Mul => 1 case Mulh => 1 case Mulhsu => 1 case Mulhu => 1
    case Div => 1 case Divu => 1 case Rem => 1 case Remu => 1
    case _ => 0
  }

  function ImmFunct3(op: ImmOp): bv32 {
    match op
    case Addi => 0 case Slti => 2 case Sltiu => 3 case Xori => 4 case Ori => 6 case Andi => 7
  }

  function LoadFunct3(op: LoadOp): bv32 {
    match op
    case Lb => 0 case Lh => 1 case Lw => 2 case Lbu => 4 case Lhu => 5
  }

  function StoreFunct3(op: StoreOp): bv32 {
    match op
    case Sb => 0 case Sh => 1 case Sw => 2
  }

  function BranchFunct3(op: BranchOp): bv32 {
    match op
    case Beq => 0 case Bne => 1 case Blt => 4 case Bge => 5 case Bltu => 6 case Bgeu => 7
  }

  function CsrFunct3(op: CsrOp): bv32 {
    match op
    case Csrrw => 1 case Csrrs => 2 case Csrrc => 3 case Csrrwi => 5 case Csrrsi => 6 case Csrrci => 7
  }

  function ShiftImm(op: ShiftOp, shamt: bv32): bv32 {
    if op.Srai? then shamt | 0x400 else shamt
  }

  function Encode(i: Instruction): bv32 {
    match i
    case RegisterI(op, rd, rs1, rs2) => EncodeR(0x33, rd, RegFunct3(op), rs1, rs2, RegFunct7(op))
    case ImmediateI(op, rd, rs1, imm) => EncodeI(0x13, rd, ImmFunct3(op), rs1, imm)
    case ShiftI(op, rd, rs1, shamt) =>
      EncodeI(0x13, rd, if op.Slli? then 1 else 5, rs1, ShiftImm(op, shamt))
    case LoadI(op, rd, rs1, imm) => EncodeI(0x03, rd, LoadFunct3(op), rs1, imm)
    case StoreI(op, rs1, rs2, imm) => EncodeS(0x23, StoreFunct3(op), rs1, rs2, imm)
    case BranchI(op, rs1, rs2, imm) => EncodeB(0x63, BranchFunct3(op), rs1, rs2, imm)
    case UpperI(op, rd, imm) => EncodeU(if op.Lui? then 0x37 else 0x17, rd, imm)
    case JalI(rd, imm) => EncodeJ(0x6F, rd, imm)
    case JalrI(rd, rs1, imm) => EncodeI(0x67, rd, 0, rs1, imm)
    case FenceI => 0x0FF0_000F
    case EcallI => EncodeI(0x73, 0, 0, 0, 0)
    case EbreakI => EncodeI(0x73, 0, 0, 0, 1)
    case CsrI(op, rd, rs1, csr) => EncodeI(0x73, rd, CsrFunct3(op), rs1, csr)
  }

  // ---- Decoder ------------------------------------------------------------------------------

  function SignExtend12(imm: bv32): bv32 {
    if imm & 0x800 != 0 then imm | 0xFFFF_F000 else imm
  }

  function ImmI(word: bv32): bv32 {
    SignExtend12((word >> 20) & 0xFFF)
  }

  function ImmS(word: bv32): bv32 {
    SignExtend12((((word >> 25) & 0x7F) << 5) | ((word >> 7) & 0x1F))
  }

  function ImmB(word: bv32): bv32 {
    var imm := (((word >> 31) & 0x1) << 12) | (((word >> 7) & 0x1) << 11)
               | (((word >> 25) & 0x3F) << 5) | (((word >> 8) & 0xF) << 1);
    if imm & 0x1000 != 0 then imm | 0xFFFF_E000 else imm
  }

  function ImmU(word: bv32): bv32 {
    word & 0xFFFF_F000
  }

  /** How upper immediates are reported. */
  function PageOf(imm: bv32): bv32 {
    imm >> 12
  }

  function JoinJ(imm20: bv32, imm19To12: bv32, imm11: bv32, imm10To1: bv32): bv32 {
    var imm := (imm20 << 20) | (imm19To12 << 12) | (imm11 << 11) | (imm10To1 << 1);
    if imm & 0x10_0000 != 0 then imm | 0xFFE0_0000 else imm
  }

  function ImmJ(word: bv32): bv32 {
    JoinJ((word >> 31) & 0x1, (word >> 12) & 0xFF, (word >> 20) & 0x1, (word >> 21) & 0x3FF)
  }

  function RegMnemonic(funct3: bv32, funct7: bv32): Mnemonic {
    if funct7 == 0 then
      if funct3 == 0 then Register(Add) else if funct3 == 1 then Register(Sll)
      else if funct3 == 2 then Register(Slt) else if funct3 == 3 then Register(Sltu)
      else if funct3 == 4 then Register(Xor) else if funct3 == 5 then Register(Srl)
      else if funct3 == 6 then Register(Or) else if funct3 == 7 then Register(And) else Unknown
    else if funct7 == 0x20 then
      if funct3 == 0 then Register(Sub) else if funct3 == 5 then Register(Sra) else Unknown
    else if funct7 == 1 then
      if funct3 == 0 then Register(Mul) else if funct3 == 1 then Register(Mulh)
      else if funct3 == 2 then Register(Mulhsu) else if funct3 == 3 then Register(Mulhu)
      else if funct3 == 4 then Register(Div) else if funct3 == 5 then Register(Divu)
      else if funct3 == 6 then Register(Rem) else if funct3 == 7 then Register(Remu) else Unknown
    else Unknown
  }

  function ImmMnemonic(funct3: bv32, funct7: bv32): Mnemonic {
    if funct3 == 0 then Immediate(Addi) else if funct3 == 2 then Immediate(Slti)
    else if funct3 == 3 then Immediate(Sltiu) else if funct3 == 4 then Immediate(Xori)
    else if funct3 == 6 then Immediate(Ori) else if funct3 == 7 then Immediate(Andi)
    else if funct3 == 1 then Shift(Slli)
    else if funct3 == 5 then (if funct7 == 0 then Shift(Srli) else Shift(Srai))
    else Unknown
  }

  function LoadMnemonic(funct3: bv32): Mnemonic {
    if funct3 == 2 then Load(Lw) else if funct3 == 0 then Load(Lb) else if funct3 == 1 then Load(Lh)
    else if funct3 == 4 then Load(Lbu) else if funct3 == 5 then Load(Lhu) else Unknown
  }

  function StoreMnemonic(funct3: bv32): Mnemonic {
    if funct3 == 2 then Store(Sw) else if funct3 == 0 then Store(Sb) else if funct3 == 1 then Store(Sh) else Unknown
  }

  function BranchMnemonic(funct3: bv32): Mnemonic {
    if funct3 == 0 then Branch(Beq) else if funct3 == 1 then Branch(Bne) else if funct3 == 4 then Branch(Blt)
    else if funct3 == 5 then Branch(Bge) else if funct3 == 6 then Branch(Bltu) else if funct3 == 7 then Branch(Bgeu)
    else Unknown
  }

  function CsrMnemonic(funct3: bv32): Mnemonic {
    if funct3 == 1 then Csr(Csrrw) else if funct3 == 2 then Csr(Csrrs) else if funct3 == 3 then Csr(Csrrc)
    else if funct3 == 5 then Csr(Csrrwi) else if funct3 == 6 then Csr(Csrrsi) else if funct3 == 7 then Csr(Csrrci)
    else Unknown
  }

  /** The fixed fields of a word. */
  datatype Fields = Fields(opcode: bv32, rd: bv32, funct3: bv32, rs1: bv32, rs2: bv32, funct7: bv32)

  function FieldsOf(word: bv32): Fields {
    Fields(word & 0x7F, (word >> 7) & 0x1F, (word >> 12) & 0x7,
           (word >> 15) & 0x1F, (word >> 20) & 0x1F, (word >> 25) & 0x7F)
  }

  /** `from_instruction` without the register values, which are passed through. */
  function Decode(word: bv32): Decoded {
    var f := FieldsOf(word);
    if f.opcode == 0x33 then
      Decoded(RegMnemonic(f.funct3, f.funct7), Some(f.rd), Some(f.rs1), Some(f.rs2), None)
    else if f.opcode == 0x13 then
      Decoded(ImmMnemonic(f.funct3, f.funct7), Some(f.rd), Some(f.rs1), None,
              Some(if f.funct3 == 1 || f.funct3 == 5 then (word >> 20) & 0x1F else ImmI(word)))
    else if f.opcode == 0x03 then
      Decoded(LoadMnemonic(f.funct3), Some(f.rd), Some(f.rs1), None, Some(ImmI(word)))
    else if f.opcode == 0x23 then
      Decoded(StoreMnemonic(f.funct3), None, Some(f.rs1), Some(f.rs2), Some(ImmS(word)))
    else if f.opcode == 0x63 then
      Decoded(BranchMnemonic(f.funct3), None, Some(f.rs1), Some(f.rs2), Some(ImmB(word)))
    else if f.opcode == 0x37 then Decoded(Upper(Lui), Some(f.rd), None, None, Some(PageOf(ImmU(word))))
    else if f.opcode == 0x17 then Decoded(Upper(Auipc), Some(f.rd), None, None, Some(PageOf(ImmU(word))))
    else if f.opcode == 0x6F then Decoded(Jal, Some(f.rd), None, None, Some(ImmJ(word)))
    else if f.opcode == 0x67 then Decoded(Jalr, Some(f.rd), Some(f.rs1), None, Some(ImmI(word)))
    else if f.opcode == 0x0F then Decoded(Fence, None, None, None, None)
    else if f.opcode == 0x73 then
      if f.funct3 == 0 then Decoded(if ImmI(word) & 1 == 0 then Ecall else Ebreak, None, None, None, None)
      else Decoded(CsrMnemonic(f.funct3), Some(f.rd), Some(f.rs1), None, Some((word >> 20) & 0xFFF))
    else Decoded(Unknown, None, None, None, None)
  }

  // ---- Round trip ---------------------------------------------------------------------------

  /** What the decoder should say about an encoder call: upper immediates are reported
      shifted right. */
  function Meaning(i: Instruction): Decoded {
    match i
    case RegisterI(op, rd, rs1, rs2) => Decoded(Register(op), Some(rd), Some(rs1), Some(rs2), None)
    case ImmediateI(op, rd, rs1, imm) => Decoded(Immediate(op), Some(rd), Some(rs1), None, Some(imm))
    case ShiftI(op, rd, rs1, shamt) => Decoded(Shift(op), Some(rd), Some(rs1), None, Some(shamt))
    case LoadI(op, rd, rs1, imm) => Decoded(Load(op), Some(rd), Some(rs1), None, Some(imm))
    case StoreI(op, rs1, rs2, imm) => Decoded(Store(op), None, Some(rs1), Some(rs2), Some(imm))
    case BranchI(op, rs1, rs2, imm) => Decoded(Branch(op), None, Some(rs1), Some(rs2), Some(imm))
    case UpperI(op, rd, imm) => Decoded(Upper(op), Some(rd), None, None, Some(PageOf(imm)))
    case JalI(rd, imm) => Decoded(Jal, Some(rd), None, None, Some(imm))
    case JalrI(rd, rs1, imm) => Decoded(Jalr, Some(rd), Some(rs1), None, Some(imm))
    case FenceI => Decoded(Fence, None, None, None, None)
    case EcallI => Decoded(Ecall, None, None, None, None)
    case EbreakI => Decoded(Ebreak, None, None, None, None)
    case CsrI(op, rd, rs1, csr) => Decoded(Csr(op), Some(rd), Some(rs1), None, Some(csr))
  }

  lemma FieldsOfR(opcode: bv32, rd: Reg, funct3: bv32, rs1: Reg, rs2: Reg, funct7: bv32)
    requires opcode < 128 && funct3 < 8 && funct7 < 128
    ensures FieldsOf(EncodeR(opcode, rd, funct3, rs1, rs2, funct7)) == Fields(opcode, rd, funct3, rs1, rs2, funct7)
  {
  }

  lemma FieldsOfI(opcode: bv32, rd: Reg, funct3: bv32, rs1: Reg, imm: bv32)
    requires opcode < 128 && funct3 < 8
    ensures var f := FieldsOf(EncodeI(opcode, rd, funct3, rs1, imm));
            f.opcode == opcode && f.rd == rd && f.funct3 == funct3 && f.rs1 == rs1 && f.funct7 == (imm & 0xFFF) >> 5
  {
  }

  lemma ImmOfI(opcode: bv32, rd: Reg, funct3: bv32, rs1: Reg, imm: bv32)
    requires opcode < 128 && funct3 < 8
    ensures (EncodeI(opcode, rd, funct3, rs1, imm) >> 20) & 0xFFF == imm & 0xFFF
    ensures ImmI(EncodeI(opcode, rd, funct3, rs1, imm)) == SignExtend12(imm & 0xFFF)
    ensures Signed12(imm) ==> ImmI(EncodeI(opcode, rd, funct3, rs1, imm)) == imm
  {
    hide SignExtend12, Signed12;
    RawImmOfI(opcode, rd, funct3, rs1, imm);
    hide EncodeI;
    if Signed12(imm) {
      SignExtendLow(imm);
    }
  }

  lemma RawImmOfI(opcode: bv32, rd: Reg, funct3: bv32, rs1: Reg, imm: bv32)
    requires opcode < 128 && funct3 < 8
    ensures (EncodeI(opcode, rd, funct3, rs1, imm) >> 20) & 0xFFF == imm & 0xFFF
  {
  }

  lemma SignExtendLow(imm: bv32)
    requires Signed12(imm)
    ensures SignExtend12(imm & 0xFFF) == imm
  {
  }

  lemma FieldsOfS(opcode: bv32, funct3: bv32, rs1: Reg, rs2: Reg, imm: bv32)
    requires opcode < 128 && funct3 < 8 && Signed12(imm)
    ensures var word := EncodeS(opcode, funct3, rs1, rs2, imm);
            var f := FieldsOf(word);
            f.opcode == opcode && f.funct3 == funct3 && f.rs1 == rs1 && f.rs2 == rs2 && ImmS(word) == imm
  {
  }

  lemma FieldsOfB(opcode: bv32, funct3: bv32, rs1: Reg, rs2: Reg, imm: bv32)
    requires opcode < 128 && funct3 < 8
    requires imm & 1 == 0 && (imm & 0xFFFF_F000 == 0 || imm & 0xFFFF_F000 == 0xFFFF_F000)
    ensures var word := EncodeB(opcode, funct3, rs1, rs2, imm);
            var f := FieldsOf(word);
            f.opcode == opcode && f.funct3 == funct3 && f.rs1 == rs1 && f.rs2 == rs2 && ImmB(word) == imm
  {
  }

  lemma FieldsOfU(opcode: bv32, rd: Reg, imm: bv32)
    requires opcode < 128
    ensures var word := EncodeU(opcode, rd, imm);
            FieldsOf(word).opcode == opcode && FieldsOf(word).rd == rd && ImmU(word) == UpperPart(imm)
  {
  }

  lemma FieldsOfJ(opcode: bv32, rd: Reg, imm: bv32)
    requires opcode < 128
    ensures var f := FieldsOf(EncodeJ(opcode, rd, imm)); f.opcode == opcode && f.rd == rd
  {
  }

  lemma ImmOfJ(opcode: bv32, rd: Reg, imm: bv32)
    requires opcode < 128 && imm & 1 == 0 && (imm & 0xFFF0_0000 == 0 || imm & 0xFFF0_0000 == 0xFFF0_0000)
    ensures ImmJ(EncodeJ(opcode, rd, imm)) == imm
  {
    hide JoinJ, EncodeJ;
    HighBitsOfJ(opcode, rd, imm);
    LowBitsOfJ(opcode, rd, imm);
    JoinedJ(imm);
  }

  lemma HighBitsOfJ(opcode: bv32, rd: Reg, imm: bv32)
    requires opcode < 128
    ensures var word := EncodeJ(opcode, rd, imm);
            (word >> 31) & 0x1 == (imm >> 20) & 0x1 && (word >> 12) & 0xFF == (imm >> 12) & 0xFF
  {
  }

  lemma LowBitsOfJ(opcode: bv32, rd: Reg, imm: bv32)
    requires opcode < 128
    ensures var word := EncodeJ(opcode, rd, imm);
            (word >> 20) & 0x1 == (imm >> 11) & 0x1 && (word >> 21) & 0x3FF == (imm >> 1) & 0x3FF
  {
  }

  lemma JoinedJ(imm: bv32)
    requires imm & 1 == 0 && (imm & 0xFFF0_0000 == 0 || imm & 0xFFF0_0000 == 0xFFF0_0000)
    ensures JoinJ((imm >> 20) & 0x1, (imm >> 12) & 0xFF, (imm >> 11) & 0x1, (imm >> 1) & 0x3FF) == imm
  {
    PartsOfJ(imm);
    SignExtend21(imm);
  }

  lemma PartsOfJ(imm: bv32)
    ensures (((imm >> 20) & 0x1) << 20) | (((imm >> 12) & 0xFF) << 12) | (((imm >> 11) & 0x1) << 11)
            | (((imm >> 1) & 0x3FF) << 1) == imm & 0x1F_FFFE
  {
  }

  lemma SignExtend21(imm: bv32)
    requires imm & 1 == 0 && (imm & 0xFFF0_0000 == 0 || imm & 0xFFF0_0000 == 0xFFF0_0000)
    ensures var low := imm & 0x1F_FFFE; (if low & 0x10_0000 != 0 then low | 0xFFE0_0000 else low) == imm
  {
  }

  lemma UpperShifted(imm: bv32)
    ensures PageOf(imm) << 12 == UpperPart(imm) && PageOf(UpperPart(imm)) == PageOf(imm)
  {
  }

  lemma ShiftFields(shamt: Reg)
    ensures (shamt & 0xFFF) >> 5 == 0 && (shamt & 0xFFF) & 0x1F == shamt
    ensures ((shamt | 0x400) & 0xFFF) >> 5 == 0x20 && ((shamt | 0x400) & 0xFFF) & 0x1F == shamt
  {
  }

  lemma LowFive(word: bv32)
    ensures (word >> 20) & 0x1F == ((word >> 20) & 0xFFF) & 0x1F
  {
  }

  lemma Field12(csr: bv32)
    requires csr <= 0xFFF
    ensures csr & 0xFFF == csr
  {
  }

  lemma ParityExtended(imm: bv32)
    ensures SignExtend12(imm & 0xFFF) & 1 == imm & 1
  {
  }

  /** A system word without CSR decodes by the parity of its immediate alone. So the
      machine-mode return (0x302) reads as an environment call, and the wait for
      interrupt (0x105) as a breakpoint. */
  lemma SystemByParity(imm: bv32)
    ensures Decode(EncodeI(0x73, 0, 0, 0, imm)) ==
            Decoded(if imm & 1 == 0 then Ecall else Ebreak, None, None, None, None)
  {
    hide EncodeI, FieldsOf, ImmI, SignExtend12;
    FieldsOfI(0x73, 0, 0, 0, imm);
    ImmOfI(0x73, 0, 0, 0, imm);
    ParityExtended(imm);
  }

  lemma DecodesImmediate(word: bv32)
    requires FieldsOf(word).opcode == 0x13
    ensures var f := FieldsOf(word);
            Decode(word) == Decoded(ImmMnemonic(f.funct3, f.funct7), Some(f.rd), Some(f.rs1), None,
                                    Some(if f.funct3 == 1 || f.funct3 == 5 then (word >> 20) & 0x1F else ImmI(word)))
  {
    hide FieldsOf, ImmMnemonic, ImmI;
  }

  lemma DecodeShift(op: ShiftOp, rd: Reg, rs1: Reg, shamt: Reg)
    ensures var i := ShiftI(op, rd, rs1, shamt); Decode(Encode(i)) == Meaning(i)
  {
    hide EncodeI, FieldsOf, ImmI, ShiftImm, Decode;
    ShiftWord(op, rd, if op.Slli? then 1 else 5, rs1, shamt);
    DecodesImmediate(Encode(ShiftI(op, rd, rs1, shamt)));
  }

  lemma ShiftWord(op: ShiftOp, rd: Reg, funct3: bv32, rs1: Reg, shamt: Reg)
    requires funct3 < 8
    ensures var word := EncodeI(0x13, rd, funct3, rs1, ShiftImm(op, shamt));
            FieldsOf(word) == Fields(0x13, rd, funct3, rs1, FieldsOf(word).rs2, if op.Srai? then 0x20 else 0)
            && (word >> 20) & 0x1F == shamt
  {
    ShiftFields(shamt);
    var imm := ShiftImm(op, shamt);
    FieldsOfI(0x13, rd, funct3, rs1, imm);
    RawImmOfI(0x13, rd, funct3, rs1, imm);
    hide EncodeI, FieldsOf;
    LowFive(EncodeI(0x13, rd, funct3, rs1, imm));
  }

  lemma DecodeImmediate(op: ImmOp, rd: Reg, rs1: Reg, imm: bv32)
    requires Signed12(imm)
    ensures var i := ImmediateI(op, rd, rs1, imm); Decode(Encode(i)) == Meaning(i)
  {
    hide EncodeI, FieldsOf, ImmI, Signed12;
    FieldsOfI(0x13, rd, ImmFunct3(op), rs1, imm);
    ImmOfI(0x13, rd, ImmFunct3(op), rs1, imm);
  }

  lemma DecodeLoad(op: LoadOp, rd: Reg, rs1: Reg, imm: bv32)
    requires Signed12(imm)
    ensures var i := LoadI(op, rd, rs1, imm); Decode(Encode(i)) == Meaning(i)
  {
    hide EncodeI, FieldsOf, ImmI, Signed12;
    FieldsOfI(0x03, rd, LoadFunct3(op), rs1, imm);
    ImmOfI(0x03, rd, LoadFunct3(op), rs1, imm);
  }

  lemma DecodeJalr(rd: Reg, rs1: Reg, imm: bv32)
    requires Signed12(imm)
    ensures var i := JalrI(rd, rs1, imm); Decode(Encode(i)) == Meaning(i)
  {
    hide EncodeI, FieldsOf, ImmI, Signed12;
    FieldsOfI(0x67, rd, 0, rs1, imm);
    ImmOfI(0x67, rd, 0, rs1, imm);
  }

  lemma DecodeCsr(op: CsrOp, rd: Reg, rs1: Reg, csr: bv32)
    requires csr <= 0xFFF
    ensures var i := CsrI(op, rd, rs1, csr); Decode(Encode(i)) == Meaning(i)
  {
    hide EncodeI, FieldsOf, ImmI;
    FieldsOfI(0x73, rd, CsrFunct3(op), rs1, csr);
    RawImmOfI(0x73, rd, CsrFunct3(op), rs1, csr);
    Field12(csr);
  }

  lemma RegisterCodes(op: RegOp)
    ensures RegFunct3(op) < 8 && RegFunct7(op) < 128
    ensures RegMnemonic(RegFunct3(op), RegFunct7(op)) == Register(op)
  {
  }

  lemma DecodeRegister(op: RegOp, rd: Reg, rs1: Reg, rs2: Reg)
    ensures var i := RegisterI(op, rd, rs1, rs2); Decode(Encode(i)) == Meaning(i)
  {
    RegisterCodes(op);
    hide EncodeR, FieldsOf, RegMnemonic, RegFunct3, RegFunct7;
    FieldsOfR(0x33, rd, RegFunct3(op), rs1, rs2, RegFunct7(op));
  }

  lemma DecodeStore(op: StoreOp, rs1: Reg, rs2: Reg, imm: bv32)
    requires Signed12(imm)
    ensures var i := StoreI(op, rs1, rs2, imm); Decode(Encode(i)) == Meaning(i)
  {
    hide EncodeS, FieldsOf, ImmS, Signed12;
    FieldsOfS(0x23, StoreFunct3(op), rs1, rs2, imm);
  }

  lemma DecodeBranch(op: BranchOp, rs1: Reg, rs2: Reg, imm: bv32)
    requires Legal(BranchI(op, rs1, rs2, imm))
    ensures var i := BranchI(op, rs1, rs2, imm); Decode(Encode(i)) == Meaning(i)
  {
    hide EncodeB, FieldsOf, ImmB;
    FieldsOfB(0x63, BranchFunct3(op), rs1, rs2, imm);
  }

  lemma DecodeUpper(op: UpperOp, rd: Reg, imm: bv32)
    ensures var i := UpperI(op, rd, imm); Decode(Encode(i)) == Meaning(i)
  {
    UpperShifted(imm);
    hide EncodeU, FieldsOf, ImmU, PageOf, UpperPart;
    if op.Lui? {
      FieldsOfU(0x37, rd, imm);
    } else {
      FieldsOfU(0x17, rd, imm);
    }
  }

  lemma DecodeJal(rd: Reg, imm: bv32)
    requires Legal(JalI(rd, imm))
    ensures var i := JalI(rd, imm); Decode(Encode(i)) == Meaning(i)
  {
    hide EncodeJ, FieldsOf, ImmJ;
    FieldsOfJ(0x6F, rd, imm);
    ImmOfJ(0x6F, rd, imm);
  }

  lemma DecodeFence()
    ensures Decode(Encode(FenceI)) == Meaning(FenceI)
  {
    assert FieldsOf(0x0FF0_000F).opcode == 0x0F;
  }

  /** Every legal encoding decodes to its mnemonic, registers and immediate. */
  lemma DecodeEncode(i: Instruction)
    requires Legal(i)
    ensures Decode(Encode(i)) == Meaning(i)
  {
    match i
    case RegisterI(op, rd, rs1, rs2) => hide Decode, EncodeR; DecodeRegister(op, rd, rs1, rs2);
    case ImmediateI(op, rd, rs1, imm) => hide Decode, EncodeI, Signed12; DecodeImmediate(op, rd, rs1, imm);
    case ShiftI(op, rd, rs1, shamt) => hide Decode, EncodeI; DecodeShift(op, rd, rs1, shamt);
    case LoadI(op, rd, rs1, imm) => hide Decode, EncodeI, Signed12; DecodeLoad(op, rd, rs1, imm);
    case StoreI(op, rs1, rs2, imm) => hide Decode, EncodeS, Signed12; DecodeStore(op, rs1, rs2, imm);
    case BranchI(op, rs1, rs2, imm) => hide Decode, EncodeB; DecodeBranch(op, rs1, rs2, imm);
    case UpperI(op, rd, imm) => hide Decode, EncodeU; DecodeUpper(op, rd, imm);
    case JalI(rd, imm) => hide Decode, EncodeJ; DecodeJal(rd, imm);
    case JalrI(rd, rs1, imm) => hide Decode, EncodeI, Signed12; DecodeJalr(rd, rs1, imm);
    case CsrI(op, rd, rs1, csr) => hide Decode, EncodeI; DecodeCsr(op, rd, rs1, csr);
    case FenceI => hide Decode; DecodeFence();
    case EcallI => hide Decode, EncodeI; SystemByParity(0);
    case EbreakI => hide Decode, EncodeI; SystemByParity(1);
  }

  /** The encoders keep the upper twenty bits of an upper immediate only. */
  function Canonical(i: Instruction): Instruction {
    match i
    case UpperI(op, rd, imm) => UpperI(op, rd, UpperPart(imm))
    case _ => i
  }

  /** So two legal encoder calls share a word if and only if they are the same, up to the
      ignored bits of an upper immediate. */
  lemma EncodeIsInjective(a: Instruction, b: Instruction)
    requires Legal(a) && Legal(b)
    ensures Encode(a) == Encode(b) <==> Canonical(a) == Canonical(b)
  {
    EncodesCanonical(a);
    EncodesCanonical(b);
    hide Encode, Decode, Meaning, Canonical;
    DecodeEncode(a);
    DecodeEncode(b);
    hide Legal;
    if Encode(a) == Encode(b) {
      MeaningIsInjective(a, b);
    }
  }

  lemma EncodesCanonical(i: Instruction)
    ensures Encode(Canonical(i)) == Encode(i)
  {
    hide EncodeU, UpperPart;
    if i.UpperI? {
      UpperMasked(if i.upperOp.Lui? then 0x37 else 0x17, i.rd, i.imm);
    } else {
      hide Encode;
      assert Canonical(i) == i;
    }
  }

  lemma UpperMasked(opcode: bv32, rd: Reg, imm: bv32)
    ensures EncodeU(opcode, rd, UpperPart(imm)) == EncodeU(opcode, rd, imm)
  {
    assert UpperPart(UpperPart(imm)) == UpperPart(imm);
    hide UpperPart;
  }

  lemma MeaningIsInjective(a: Instruction, b: Instruction)
    requires Meaning(a) == Meaning(b)
    ensures Canonical(a) == Canonical(b)
  {
    hide PageOf, UpperPart;
    if a.UpperI? {
      UpperShifted(a.imm);
      UpperShifted(b.imm);
    }
  }
}
