/** Encoder and decoder against the fixed bits of each instruction, and the places of its
    registers and immediate, as the tables of the chapter "RV32/64G Instruction Set
    Listings" of the RISC-V Unprivileged ISA specification give them. */
module InstructionLaws {
  import opened Prelude
  import opened Instructions

  // ---- The fixed bits -----------------------------------------------------------------

  function RegMatch(op: RegOp): bv32 {
    match op
    case Add => 0x0000_0033 case Sub => 0x4000_0033 case Sll => 0x0000_1033 case Slt => 0x0000_2033
    case Sltu => 0x0000_3033 case Xor => 0x0000_4033 case Srl => 0x0000_5033 case Sra => 0x4000_5033
    case Or => 0x0000_6033 case And => 0x0000_7033
    case Mul => 0x0200_0033 case Mulh => 0x0200_1033 case Mulhsu => 0x0200_2033 case Mulhu => 0x0200_3033
    case Div => 0x0200_4033 case Divu => 0x0200_5033 case Rem => 0x0200_6033 case Remu => 0x0200_7033
  }

  /** The match values of the formats whose fixed bits are opcode and funct3. */
  function Match3(m: Mnemonic): Option<bv32> {
    match m
    case Immediate(op) =>
      (match op
       case Addi => Some(0x0013) case Slti => Some(0x2013) case Sltiu => Some(0x3013)
       case Xori => Some(0x4013) case Ori => Some(0x6013) case Andi => Some(0x7013))
    case Load(op) =>
      (match op
       case Lb => Some(0x0003) case Lh => Some(0x1003) case Lw => Some(0x2003)
       case Lbu => Some(0x4003) case Lhu => Some(0x5003))
    case Store(op) => (match op case Sb => Some(0x0023) case Sh => Some(0x1023) case Sw => Some(0x2023))
    case Branch(op) =>
      (match op
       case Beq => Some(0x0063) case Bne => Some(0x1063) case Blt => Some(0x4063)
       case Bge => Some(0x5063) case Bltu => Some(0x6063) case Bgeu => Some(0x7063))
    case Csr(op) =>
      (match op
       case Csrrw => Some(0x1073) case Csrrs => Some(0x2073) case Csrrc => Some(0x3073)
       case Csrrwi => Some(0x5073) case Csrrsi => Some(0x6073) case Csrrci => Some(0x7073))
    case _ => None
  }

  /** Which words the decoder calls by which mnemonic. It looks at the fixed bits, but not
      at all of them: any upper seven bits make a left shift, any but zero an arithmetic
      right shift, any funct3 a jump through a register or a fence, and a system word with
      funct3 zero is a call or a breakpoint by bit 20 alone. */
  predicate IsWord(word: bv32, m: Mnemonic) {
    match m
    case Register(op) => word & 0xFE00_707F == RegMatch(op)
    case Shift(Slli) => word & 0x707F == 0x1013
    case Shift(Srli) => word & 0xFE00_707F == 0x5013
    case Shift(Srai) => word & 0x707F == 0x5013 && word & 0xFE00_0000 != 0
    case Upper(Lui) => word & 0x7F == 0x37
    case Upper(Auipc) => word & 0x7F == 0x17
    case Jal => word & 0x7F == 0x6F
    case Jalr => word & 0x7F == 0x67
    case Fence => word & 0x7F == 0x0F
    case Ecall => word & 0x707F == 0x73 && word & 0x0010_0000 == 0
    case Ebreak => word & 0x707F == 0x73 && word & 0x0010_0000 != 0
    case Unknown => false
    case _ => Match3(m).Some? && word & 0x707F == Match3(m).value
  }

  // ---- The decoder ----------------------------------------------------------------------

  /** Where the fixed fields and the register numbers are. */
  lemma FieldPlaces(word: bv32)
    ensures var f := FieldsOf(word);
            && f.opcode == word & 0x7F && f.rd == (word >> 7) & 0x1F && f.funct3 == (word >> 12) & 0x7
            && f.rs1 == (word >> 15) & 0x1F && f.rs2 == (word >> 20) & 0x1F && f.funct7 == (word >> 25) & 0x7F
  {
  }

  lemma ThreeFields(word: bv32, opcode: bv32, funct3: bv32)
    requires opcode < 128 && funct3 < 8
    ensures word & 0x707F == (funct3 << 12) | opcode <==>
            word & 0x7F == opcode && (word >> 12) & 0x7 == funct3
  {
  }

  lemma SevenFields(word: bv32, opcode: bv32, funct3: bv32, funct7: bv32)
    requires opcode < 128 && funct3 < 8 && funct7 < 128
    ensures word & 0xFE00_707F == (funct7 << 25) | (funct3 << 12) | opcode <==>
            word & 0x7F == opcode && (word >> 12) & 0x7 == funct3 && (word >> 25) & 0x7F == funct7
  {
  }

  lemma UpperSeven(word: bv32)
    ensures (word >> 25) & 0x7F == 0 <==> word & 0xFE00_0000 == 0
  {
  }

  lemma RegMatchFields(op: RegOp)
    ensures RegFunct3(op) < 8 && RegFunct7(op) < 128
    ensures RegMatch(op) == (RegFunct7(op) << 25) | (RegFunct3(op) << 12) | 0x33
  {
  }

  lemma RegisterCodesBack(funct3: bv32, funct7: bv32)
    ensures var m := RegMnemonic(funct3, funct7);
            m.Unknown? || (m.Register? && RegFunct3(m.regOp) == funct3 && RegFunct7(m.regOp) == funct7)
  {
  }

  lemma ImmediateCodesBack(funct3: bv32, funct7: bv32)
    ensures var m := ImmMnemonic(funct3, funct7);
            || m.Unknown?
            || (m.Immediate? && ImmFunct3(m.immOp) == funct3)
            || (m == Shift(Slli) && funct3 == 1)
            || (m == Shift(Srli) && funct3 == 5 && funct7 == 0)
            || (m == Shift(Srai) && funct3 == 5 && funct7 != 0)
  {
  }

  lemma OtherCodesBack(funct3: bv32)
    ensures var m := LoadMnemonic(funct3); m.Unknown? || (m.Load? && LoadFunct3(m.loadOp) == funct3)
    ensures var m := StoreMnemonic(funct3); m.Unknown? || (m.Store? && StoreFunct3(m.storeOp) == funct3)
    ensures var m := BranchMnemonic(funct3); m.Unknown? || (m.Branch? && BranchFunct3(m.branchOp) == funct3)
    ensures var m := CsrMnemonic(funct3); m.Unknown? || (m.Csr? && CsrFunct3(m.csrOp) == funct3)
  {
  }

  lemma OtherCodes(m: Mnemonic)
    ensures m.Immediate? ==> forall funct7 :: ImmMnemonic(ImmFunct3(m.immOp), funct7) == m
    ensures m.Load? ==> LoadMnemonic(LoadFunct3(m.loadOp)) == m
    ensures m.Store? ==> StoreMnemonic(StoreFunct3(m.storeOp)) == m
    ensures m.Branch? ==> BranchMnemonic(BranchFunct3(m.branchOp)) == m
    ensures m.Csr? ==> CsrMnemonic(CsrFunct3(m.csrOp)) == m && CsrFunct3(m.csrOp) != 0
    ensures ImmMnemonic(1, 0) == Shift(Slli)
    ensures forall funct7 :: ImmMnemonic(1, funct7) == Shift(Slli)
    ensures forall funct7 :: ImmMnemonic(5, funct7) == Shift(if funct7 == 0 then Srli else Srai)
  {
  }

  /** The mnemonic by opcode. */
  lemma OfOpcode(word: bv32)
    ensures var f := FieldsOf(word);
            var m := Decode(word).mnemonic;
            && (f.opcode == 0x33 ==> m == RegMnemonic(f.funct3, f.funct7))
            && (f.opcode == 0x13 ==> m == ImmMnemonic(f.funct3, f.funct7))
            && (f.opcode == 0x03 ==> m == LoadMnemonic(f.funct3))
            && (f.opcode == 0x23 ==> m == StoreMnemonic(f.funct3))
            && (f.opcode == 0x63 ==> m == BranchMnemonic(f.funct3))
            && (f.opcode == 0x37 ==> m == Upper(Lui)) && (f.opcode == 0x17 ==> m == Upper(Auipc))
            && (f.opcode == 0x6F ==> m == Jal) && (f.opcode == 0x67 ==> m == Jalr)
            && (f.opcode == 0x0F ==> m == Fence)
            && (f.opcode == 0x73 && f.funct3 != 0 ==> m == CsrMnemonic(f.funct3))
            && (f.opcode == 0x73 && f.funct3 == 0 ==> m == if ImmI(word) & 1 == 0 then Ecall else Ebreak)
            && (f.opcode !in {0x33, 0x13, 0x03, 0x23, 0x63, 0x37, 0x17, 0x6F, 0x67, 0x0F, 0x73} ==> m == Unknown)
  {
    hide FieldsOf, ImmI, ImmS, ImmB, ImmU, ImmJ, PageOf;
    hide RegMnemonic, ImmMnemonic, LoadMnemonic, StoreMnemonic, BranchMnemonic, CsrMnemonic;
  }

  /** The formats with one mnemonic an opcode, and the system words. */
  lemma ByOpcode(word: bv32)
    ensures var f := FieldsOf(word);
            var m := Decode(word).mnemonic;
            && (f.opcode == 0x37 <==> m == Upper(Lui)) && (f.opcode == 0x17 <==> m == Upper(Auipc))
            && (f.opcode == 0x6F <==> m == Jal) && (f.opcode == 0x67 <==> m == Jalr)
            && (f.opcode == 0x0F <==> m == Fence)
            && (f.opcode == 0x73 && f.funct3 == 0 && ImmI(word) & 1 == 0 <==> m == Ecall)
            && (f.opcode == 0x73 && f.funct3 == 0 && ImmI(word) & 1 != 0 <==> m == Ebreak)
  {
    var f := FieldsOf(word);
    OfOpcode(word);
    RegisterCodesBack(f.funct3, f.funct7);
    ImmediateCodesBack(f.funct3, f.funct7);
    OtherCodesBack(f.funct3);
    hide Decode, FieldsOf, ImmI, ImmS, ImmB, ImmU, ImmJ, PageOf;
    hide RegMnemonic, ImmMnemonic, LoadMnemonic, StoreMnemonic, BranchMnemonic, CsrMnemonic;
    hide RegFunct3, RegFunct7, ImmFunct3, LoadFunct3, StoreFunct3, BranchFunct3, CsrFunct3;
  }

  /** Of which kind the mnemonic of an opcode is. */
  lemma KindOfOpcode(word: bv32)
    ensures var f := FieldsOf(word);
            var m := Decode(word).mnemonic;
            && (m.Register? ==> f.opcode == 0x33) && (m.Immediate? || m.Shift? ==> f.opcode == 0x13)
            && (m.Load? ==> f.opcode == 0x03) && (m.Store? ==> f.opcode == 0x23) && (m.Branch? ==> f.opcode == 0x63)
            && (m.Csr? ==> f.opcode == 0x73 && f.funct3 != 0)
  {
    var f := FieldsOf(word);
    OfOpcode(word);
    RegisterCodesBack(f.funct3, f.funct7);
    ImmediateCodesBack(f.funct3, f.funct7);
    OtherCodesBack(f.funct3);
    hide Decode, FieldsOf, ImmI;
    hide RegMnemonic, ImmMnemonic, LoadMnemonic, StoreMnemonic, BranchMnemonic, CsrMnemonic;
    hide RegFunct3, RegFunct7, ImmFunct3, LoadFunct3, StoreFunct3, BranchFunct3, CsrFunct3;
  }

  lemma RegisterWord(word: bv32, op: RegOp)
    ensures Decode(word).mnemonic == Register(op) <==> IsWord(word, Register(op))
  {
    OfOpcode(word);
    KindOfOpcode(word);
    RegisterCodes(op);
    RegisterCodesBack(FieldsOf(word).funct3, FieldsOf(word).funct7);
    FieldPlaces(word);
    RegMatchFields(op);
    SevenFields(word, 0x33, RegFunct3(op), RegFunct7(op));
    hide Decode, FieldsOf, RegMnemonic, RegFunct3, RegFunct7, RegMatch;
  }

  /** Opcode and funct3 of the formats that have no more fixed bits. */
  function Code3(m: Mnemonic): (bv32, bv32) {
    match m
    case Immediate(op) => (0x13, ImmFunct3(op))
    case Load(op) => (0x03, LoadFunct3(op))
    case Store(op) => (0x23, StoreFunct3(op))
    case Branch(op) => (0x63, BranchFunct3(op))
    case Csr(op) => (0x73, CsrFunct3(op))
    case _ => (0, 0)
  }

  lemma Match3Fields(m: Mnemonic)
    ensures Code3(m).0 < 128 && Code3(m).1 < 8
    ensures Match3(m).Some? ==> Match3(m).value == (Code3(m).1 << 12) | Code3(m).0
    ensures Match3(m).Some? <==> m.Immediate? || m.Load? || m.Store? || m.Branch? || m.Csr?
  {
  }

  lemma CodedByFields(word: bv32, m: Mnemonic)
    requires m.Immediate? || m.Load? || m.Store? || m.Branch? || m.Csr?
    ensures Decode(word).mnemonic == m <==>
            FieldsOf(word).opcode == Code3(m).0 && FieldsOf(word).funct3 == Code3(m).1
  {
    var f := FieldsOf(word);
    OfOpcode(word);
    KindOfOpcode(word);
    OtherCodes(m);
    ImmediateCodesBack(f.funct3, f.funct7);
    OtherCodesBack(f.funct3);
    hide Decode, FieldsOf, ImmI;
    hide RegMnemonic, ImmMnemonic, LoadMnemonic, StoreMnemonic, BranchMnemonic, CsrMnemonic;
    hide RegFunct3, RegFunct7, ImmFunct3, LoadFunct3, StoreFunct3, BranchFunct3, CsrFunct3;
  }

  lemma CodedMeans(word: bv32, m: Mnemonic)
    requires m.Immediate? || m.Load? || m.Store? || m.Branch? || m.Csr?
    ensures IsWord(word, m) <==> Match3(m).Some? && word & 0x707F == Match3(m).value
  {
    hide Match3, RegMatch;
  }

  lemma CodedWord(word: bv32, m: Mnemonic)
    requires m.Immediate? || m.Load? || m.Store? || m.Branch? || m.Csr?
    ensures Decode(word).mnemonic == m <==> IsWord(word, m)
  {
    hide Decode, FieldsOf, Code3, Match3, IsWord;
    CodedMeans(word, m);
    FieldPlaces(word);
    Match3Fields(m);
    CodedByFields(word, m);
    ThreeFields(word, Code3(m).0, Code3(m).1);
  }

  lemma ShiftWord(word: bv32, op: ShiftOp)
    ensures Decode(word).mnemonic == Shift(op) <==> IsWord(word, Shift(op))
  {
    ShiftByFields(word, op);
    FieldPlaces(word);
    ThreeFields(word, 0x13, 1);
    ThreeFields(word, 0x13, 5);
    SevenFields(word, 0x13, 5, 0);
    UpperSeven(word);
    assert (1 as bv32 << 12) | 0x13 == 0x1013 && (5 as bv32 << 12) | 0x13 == 0x5013;
    assert (0 as bv32 << 25) | (5 as bv32 << 12) | 0x13 == 0x5013;
    hide Decode, FieldsOf;
  }

  lemma ShiftByFields(word: bv32, op: ShiftOp)
    ensures var f := FieldsOf(word);
            Decode(word).mnemonic == Shift(op) <==>
            f.opcode == 0x13 && match op
                                case Slli => f.funct3 == 1
                                case Srli => f.funct3 == 5 && f.funct7 == 0
                                case Srai => f.funct3 == 5 && f.funct7 != 0
  {
    var f := FieldsOf(word);
    OfOpcode(word);
    KindOfOpcode(word);
    OtherCodes(Unknown);
    ImmediateCodesBack(f.funct3, f.funct7);
    hide Decode, FieldsOf, ImmI, ImmMnemonic, ImmFunct3;
  }

  lemma BitTwenty(word: bv32)
    ensures ImmI(word) & 1 == 0 <==> word & 0x0010_0000 == 0
  {
  }

  lemma OtherByFields(word: bv32, m: Mnemonic)
    requires m.Upper? || m.Jal? || m.Jalr? || m.Fence? || m.Ecall? || m.Ebreak?
    ensures var f := FieldsOf(word);
            Decode(word).mnemonic == m <==>
            match m
            case Upper(Lui) => f.opcode == 0x37
            case Upper(Auipc) => f.opcode == 0x17
            case Jal => f.opcode == 0x6F
            case Jalr => f.opcode == 0x67
            case Fence => f.opcode == 0x0F
            case Ecall => f.opcode == 0x73 && f.funct3 == 0 && ImmI(word) & 1 == 0
            case _ => f.opcode == 0x73 && f.funct3 == 0 && ImmI(word) & 1 != 0
  {
    ByOpcode(word);
    hide Decode, FieldsOf, ImmI, RegMnemonic, ImmMnemonic, LoadMnemonic, StoreMnemonic, BranchMnemonic, CsrMnemonic;
  }

  lemma OtherWord(word: bv32, m: Mnemonic)
    requires m.Upper? || m.Jal? || m.Jalr? || m.Fence? || m.Ecall? || m.Ebreak?
    ensures Decode(word).mnemonic == m <==> IsWord(word, m)
  {
    OtherByFields(word, m);
    FieldPlaces(word);
    BitTwenty(word);
    ThreeFields(word, 0x73, 0);
    assert (0 as bv32 << 12) | 0x73 == 0x73;
    hide Decode, FieldsOf, ImmI;
  }

  /** Over all 2^32 words: the decoder reports a mnemonic if and only if the word has its
      fixed bits. */
  lemma DecoderExact(word: bv32, m: Mnemonic)
    requires m != Unknown
    ensures Decode(word).mnemonic == m <==> IsWord(word, m)
  {
    hide Decode, IsWord;
    match m
    case Register(op) => RegisterWord(word, op);
    case Shift(op) => ShiftWord(word, op);
    case Immediate(_) => CodedWord(word, m);
    case Load(_) => CodedWord(word, m);
    case Store(_) => CodedWord(word, m);
    case Branch(_) => CodedWord(word, m);
    case Csr(_) => CodedWord(word, m);
    case _ => OtherWord(word, m);
  }

  // ---- The encoders -----------------------------------------------------------------------

  /** The registers and the immediate of an encoder call, at the places of its format, and
      the fixed bits that the decoder does not look at. */
  predicate Operands(word: bv32, i: Instruction) {
    var rd, rs1, rs2 := (word >> 7) & 0x1F, (word >> 15) & 0x1F, (word >> 20) & 0x1F;
    match i
    case RegisterI(_, d, s1, s2) => rd == d && rs1 == s1 && rs2 == s2
    case ImmediateI(_, d, s1, imm) => rd == d && rs1 == s1 && (word >> 20) & 0xFFF == imm & 0xFFF
    case ShiftI(op, d, s1, shamt) =>
      rd == d && rs1 == s1 && rs2 == shamt && (word >> 25) & 0x7F == if op.Srai? then 0x20 else 0
    case LoadI(_, d, s1, imm) => rd == d && rs1 == s1 && (word >> 20) & 0xFFF == imm & 0xFFF
    case StoreI(_, s1, s2, imm) =>
      rs1 == s1 && rs2 == s2 && (word >> 25) & 0x7F == (imm >> 5) & 0x7F && rd == imm & 0x1F
    case BranchI(_, s1, s2, imm) =>
      && rs1 == s1 && rs2 == s2
      && (word >> 31) & 1 == (imm >> 12) & 1 && (word >> 25) & 0x3F == (imm >> 5) & 0x3F
      && (word >> 8) & 0xF == (imm >> 1) & 0xF && (word >> 7) & 1 == (imm >> 11) & 1
    case UpperI(_, d, imm) => rd == d && word & 0xFFFF_F000 == imm & 0xFFFF_F000
    case JalI(d, imm) =>
      && rd == d
      && (word >> 31) & 1 == (imm >> 20) & 1 && (word >> 21) & 0x3FF == (imm >> 1) & 0x3FF
      && (word >> 20) & 1 == (imm >> 11) & 1 && (word >> 12) & 0xFF == (imm >> 12) & 0xFF
    case JalrI(d, s1, imm) => (word >> 12) & 0x7 == 0 && rd == d && rs1 == s1 && (word >> 20) & 0xFFF == imm & 0xFFF
    case FenceI => word == 0x0FF0_000F
    case EcallI => word == 0x0000_0073
    case EbreakI => word == 0x0010_0073
    case CsrI(_, d, s1, csr) => rd == d && rs1 == s1 && (word >> 20) & 0xFFF == csr
  }

  lemma SplitOfS(opcode: bv32, funct3: bv32, rs1: Reg, rs2: Reg, imm: bv32)
    requires opcode < 128 && funct3 < 8
    ensures var word := EncodeS(opcode, funct3, rs1, rs2, imm);
            && (word >> 15) & 0x1F == rs1 && (word >> 20) & 0x1F == rs2
            && (word >> 25) & 0x7F == (imm >> 5) & 0x7F && (word >> 7) & 0x1F == imm & 0x1F
  {
  }

  lemma SplitOfB(opcode: bv32, funct3: bv32, rs1: Reg, rs2: Reg, imm: bv32)
    requires opcode < 128 && funct3 < 8
    ensures var word := EncodeB(opcode, funct3, rs1, rs2, imm);
            && (word >> 15) & 0x1F == rs1 && (word >> 20) & 0x1F == rs2
            && (word >> 31) & 1 == (imm >> 12) & 1 && (word >> 25) & 0x3F == (imm >> 5) & 0x3F
            && (word >> 8) & 0xF == (imm >> 1) & 0xF && (word >> 7) & 1 == (imm >> 11) & 1
  {
  }

  lemma PlacesOfR(op: RegOp, rd: Reg, rs1: Reg, rs2: Reg)
    ensures var i := RegisterI(op, rd, rs1, rs2); Operands(Encode(i), i)
  {
    RegMatchFields(op);
    FieldsOfR(0x33, rd, RegFunct3(op), rs1, rs2, RegFunct7(op));
    FieldPlaces(Encode(RegisterI(op, rd, rs1, rs2)));
    hide EncodeR, FieldsOf, RegFunct3, RegFunct7;
  }

  /** One instruction in immediate format. */
  lemma PlacesOfI(opcode: bv32, rd: Reg, funct3: bv32, rs1: Reg, imm: bv32)
    requires opcode < 128 && funct3 < 8
    ensures var word := EncodeI(opcode, rd, funct3, rs1, imm);
            && (word >> 7) & 0x1F == rd && (word >> 15) & 0x1F == rs1 && (word >> 12) & 0x7 == funct3
            && (word >> 20) & 0xFFF == imm & 0xFFF
  {
    FieldsOfI(opcode, rd, funct3, rs1, imm);
    RawImmOfI(opcode, rd, funct3, rs1, imm);
    FieldPlaces(EncodeI(opcode, rd, funct3, rs1, imm));
    hide EncodeI, FieldsOf;
  }

  lemma PlacesOfImmediate(op: ImmOp, rd: Reg, rs1: Reg, imm: bv32)
    ensures var i := ImmediateI(op, rd, rs1, imm); Operands(Encode(i), i)
  {
    hide EncodeI, ImmFunct3, Match3;
    Match3Fields(Immediate(op));
    PlacesOfI(0x13, rd, ImmFunct3(op), rs1, imm);
  }

  lemma PlacesOfLoad(op: LoadOp, rd: Reg, rs1: Reg, imm: bv32)
    ensures var i := LoadI(op, rd, rs1, imm); Operands(Encode(i), i)
  {
    hide EncodeI, LoadFunct3, Match3;
    Match3Fields(Load(op));
    PlacesOfI(0x03, rd, LoadFunct3(op), rs1, imm);
  }

  lemma PlacesOfJalr(rd: Reg, rs1: Reg, imm: bv32)
    ensures var i := JalrI(rd, rs1, imm); Operands(Encode(i), i)
  {
    hide EncodeI;
    PlacesOfI(0x67, rd, 0, rs1, imm);
  }

  lemma PlacesOfCsr(op: CsrOp, rd: Reg, rs1: Reg, csr: bv32)
    requires csr <= 0xFFF
    ensures var i := CsrI(op, rd, rs1, csr); Operands(Encode(i), i)
  {
    hide EncodeI, CsrFunct3, Match3;
    Match3Fields(Csr(op));
    PlacesOfI(0x73, rd, CsrFunct3(op), rs1, csr);
    Field12(csr);
  }

  lemma PlacesOfShift(op: ShiftOp, rd: Reg, rs1: Reg, shamt: Reg)
    ensures var i := ShiftI(op, rd, rs1, shamt); Operands(Encode(i), i)
  {
    Instructions.ShiftWord(op, rd, if op.Slli? then 1 else 5, rs1, shamt);
    FieldPlaces(Encode(ShiftI(op, rd, rs1, shamt)));
    hide EncodeI, FieldsOf, ShiftImm;
  }

  lemma PlacesOfS(op: StoreOp, rs1: Reg, rs2: Reg, imm: bv32)
    ensures var i := StoreI(op, rs1, rs2, imm); Operands(Encode(i), i)
  {
    SplitOfS(0x23, StoreFunct3(op), rs1, rs2, imm);
    hide EncodeS, StoreFunct3;
  }

  lemma PlacesOfB(op: BranchOp, rs1: Reg, rs2: Reg, imm: bv32)
    ensures var i := BranchI(op, rs1, rs2, imm); Operands(Encode(i), i)
  {
    SplitOfB(0x63, BranchFunct3(op), rs1, rs2, imm);
    hide EncodeB, BranchFunct3;
  }

  lemma UpperKept(word: bv32, imm: bv32)
    requires ImmU(word) == UpperPart(imm)
    ensures word & 0xFFFF_F000 == imm & 0xFFFF_F000
  {
  }

  lemma UpperOperands(word: bv32, op: UpperOp, rd: Reg, imm: bv32)
    requires (word >> 7) & 0x1F == rd && word & 0xFFFF_F000 == imm & 0xFFFF_F000
    ensures Operands(word, UpperI(op, rd, imm))
  {
  }

  lemma UpperWord(op: UpperOp, rd: Reg, imm: bv32)
    ensures var word := Encode(UpperI(op, rd, imm)); FieldsOf(word).rd == rd && ImmU(word) == UpperPart(imm)
  {
    hide EncodeU, FieldsOf, ImmU, UpperPart;
    match op
    case Lui => FieldsOfU(0x37, rd, imm);
    case Auipc => FieldsOfU(0x17, rd, imm);
  }

  lemma PlacesOfU(op: UpperOp, rd: Reg, imm: bv32)
    ensures var i := UpperI(op, rd, imm); Operands(Encode(i), i)
  {
    hide Encode, FieldsOf, ImmU, UpperPart, Operands;
    var word := Encode(UpperI(op, rd, imm));
    UpperWord(op, rd, imm);
    FieldPlaces(word);
    UpperKept(word, imm);
    UpperOperands(word, op, rd, imm);
  }

  lemma PlacesOfJ(rd: Reg, imm: bv32)
    ensures var i := JalI(rd, imm); Operands(Encode(i), i)
  {
    FieldsOfJ(0x6F, rd, imm);
    HighBitsOfJ(0x6F, rd, imm);
    LowBitsOfJ(0x6F, rd, imm);
    FieldPlaces(EncodeJ(0x6F, rd, imm));
    hide EncodeJ, FieldsOf;
  }

  lemma PlacesOfSystem()
    ensures Operands(Encode(FenceI), FenceI) && Operands(Encode(EcallI), EcallI) && Operands(Encode(EbreakI), EbreakI)
  {
  }

  /** Every legal encoder call gives a word with the fixed bits of its mnemonic and with its
      registers and immediate in their places. */
  lemma EncoderExact(i: Instruction)
    requires Legal(i)
    ensures IsWord(Encode(i), Meaning(i).mnemonic) && Operands(Encode(i), i)
  {
    DecodeEncode(i);
    DecoderExact(Encode(i), Meaning(i).mnemonic);
    hide Encode, Decode, IsWord, Operands;
    match i
    case RegisterI(op, rd, rs1, rs2) => PlacesOfR(op, rd, rs1, rs2);
    case ShiftI(op, rd, rs1, shamt) => PlacesOfShift(op, rd, rs1, shamt);
    case StoreI(op, rs1, rs2, imm) => PlacesOfS(op, rs1, rs2, imm);
    case BranchI(op, rs1, rs2, imm) => PlacesOfB(op, rs1, rs2, imm);
    case UpperI(op, rd, imm) => PlacesOfU(op, rd, imm);
    case JalI(rd, imm) => PlacesOfJ(rd, imm);
    case FenceI => PlacesOfSystem();
    case EcallI => PlacesOfSystem();
    case EbreakI => PlacesOfSystem();
    case ImmediateI(op, rd, rs1, imm) => PlacesOfImmediate(op, rd, rs1, imm);
    case LoadI(op, rd, rs1, imm) => PlacesOfLoad(op, rd, rs1, imm);
    case JalrI(rd, rs1, imm) => PlacesOfJalr(rd, rs1, imm);
    case CsrI(op, rd, rs1, csr) => PlacesOfCsr(op, rd, rs1, csr);
  }
}
