/** The vocabulary shared by the stages of the assembler in src/main.cpp:
    tokens, the three fields of a compute instruction, instructions, the
    predefined symbols and the fixed capacities. */
module Syntax {
  import opened Results

  const MaxU15: nat := 0x7FFF
  const OffsetVars: nat := 0x0010

  /** A 15-bit address: every address payload and every integer token. */
  type U15 = x: nat | x <= MaxU15

  /** The fixed capacities of the arena: characters of the source file,
      tokens, instructions, and slots of the label and variable tables. */
  datatype Limits = Limits(chars: nat, tokens: nat, insts: nat, labels: nat, vars: nat) {

    /** The variable addresses 16 .. 16 + vars stay within 15 bits (the
        source's static assertion), and so does every instruction count that a
        label can be bound to. */
    predicate Valid() {
      insts <= MaxU15 && vars <= MaxU15 - OffsetVars
    }
  }

  /** CAP_CHARS, CAP_TOKENS, CAP_INSTS, CAP_LABELS and CAP_VARS. */
  const Source: Limits := Limits(0x80000, 0x20000, MaxU15, 4513, 131)

  datatype Kind =
    | Int(value: U15)
    | Str(text: string)
    | LParen | RParen | At | Equals | SColon | Plus | Minus | Bang | Ampers | Pipe

  /** A token and the byte offset of its first character. */
  datatype Token = Token(kind: Kind, offset: nat)

  /** The kinds of a token sequence, offsets dropped. */
  function Kinds(toks: seq<Token>): (ks: seq<Kind>)
    ensures |ks| == |toks|
    ensures forall k :: 0 <= k < |toks| ==> ks[k] == toks[k].kind
  {
    seq(|toks|, k requires 0 <= k < |toks| => toks[k].kind)
  }

  /** The 28 computations of the ALU and their 7-bit codes (a-bit first). */
  datatype Comp =
    | Zero | One | NegativeOne
    | D | A | M
    | NotD | NotA | NotM
    | NegativeD | NegativeA | NegativeM
    | DPlus1 | APlus1 | MPlus1
    | DMinus1 | AMinus1 | MMinus1
    | DPlusA | DPlusM
    | DMinusA | DMinusM
    | AMinusD | MMinusD
    | DAndA | DAndM
    | DOrA | DOrM
  {
    function Code(): (c: nat)
      ensures c < 0x80
    {
      match this
      case Zero => 0x2A
      case One => 0x3F
      case NegativeOne => 0x3A
      case D => 0x0C
      case A => 0x30
      case M => 0x70
      case NotD => 0x0D
      case NotA => 0x31
      case NotM => 0x71
      case NegativeD => 0x0F
      case NegativeA => 0x33
      case NegativeM => 0x73
      case DPlus1 => 0x1F
      case APlus1 => 0x37
      case MPlus1 => 0x77
      case DMinus1 => 0x0E
      case AMinus1 => 0x32
      case MMinus1 => 0x72
      case DPlusA => 0x02
      case DPlusM => 0x42
      case DMinusA => 0x13
      case DMinusM => 0x53
      case AMinusD => 0x07
      case MMinusD => 0x47
      case DAndA => 0x00
      case DAndM => 0x40
      case DOrA => 0x15
      case DOrM => 0x55
    }
  }

  /** The destination: a mask of M = 1, D = 2, A = 4. */
  type Dest = x: nat | x < 8

  /** The jump condition; its code is its position in this list. */
  datatype Jump = NoJump | JGT | JEQ | JGE | JLT | JNE | JLE | JMP {
    function Code(): (c: nat)
      ensures c < 8
    {
      match this
      case NoJump => 0
      case JGT => 1
      case JEQ => 2
      case JGE => 3
      case JLT => 4
      case JNE => 5
      case JLE => 6
      case JMP => 7
    }
  }

  /** An instruction: a symbolic `@name` awaiting resolution, an `@address`,
      or a computation `dest=comp;jump`. */
  datatype Inst =
    | Unresolved(name: string)
    | Address(value: U15)
    | Compute(comp: Comp, dest: Dest, jump: Jump)

  /** get_predef: the fixed address of a predefined symbol. */
  function Predef(name: string): Option<U15>
  {
    if name == "R0" || name == "SP" then Some(0x0000)
    else if name == "R1" || name == "LCL" then Some(0x0001)
    else if name == "R2" || name == "ARG" then Some(0x0002)
    else if name == "R3" || name == "THIS" then Some(0x0003)
    else if name == "R4" || name == "THAT" then Some(0x0004)
    else if name == "R5" then Some(0x0005)
    else if name == "R6" then Some(0x0006)
    else if name == "R7" then Some(0x0007)
    else if name == "R8" then Some(0x0008)
    else if name == "R9" then Some(0x0009)
    else if name == "R10" then Some(0x000A)
    else if name == "R11" then Some(0x000B)
    else if name == "R12" then Some(0x000C)
    else if name == "R13" then Some(0x000D)
    else if name == "R14" then Some(0x000E)
    else if name == "R15" then Some(0x000F)
    else if name == "SCREEN" then Some(0x4000)
    else if name == "KBD" then Some(0x6000)
    else None
  }

  /** The predefined symbols of the Hack platform and their addresses, as the
      platform documents them. */
  const PredefList: seq<(string, U15)> := [
    ("SP", 0x0000), ("LCL", 0x0001), ("ARG", 0x0002), ("THIS", 0x0003), ("THAT", 0x0004),
    ("R0", 0), ("R1", 1), ("R2", 2), ("R3", 3), ("R4", 4), ("R5", 5), ("R6", 6), ("R7", 7),
    ("R8", 8), ("R9", 9), ("R10", 10), ("R11", 11), ("R12", 12), ("R13", 13), ("R14", 14),
    ("R15", 15), ("SCREEN", 0x4000), ("KBD", 0x6000)]

  /** get_predef recognises only names of the list, with their addresses. */
  lemma PredefOnlyListed(name: string)
    ensures Predef(name).Some? ==> (name, Predef(name).value) in PredefList
  {
  }

  /** get_predef recognises every entry of the list, with its address. */
  lemma PredefListed(k: nat)
    requires k < |PredefList|
    ensures Predef(PredefList[k].0) == Some(PredefList[k].1)
  {
    if k < 5 {
      PredefPointers(k);
    } else if k < 13 {
      PredefRegisters(k);
    } else if k < 18 {
      PredefHighRegisters(k);
    } else {
      PredefLast(k);
    }
  }

  /** SP, LCL, ARG, THIS and THAT. */
  lemma PredefPointers(k: nat)
    requires k < 5
    ensures Predef(PredefList[k].0) == Some(PredefList[k].1)
  {
  }

  /** R0 to R7. */
  lemma PredefRegisters(k: nat)
    requires 5 <= k < 13
    ensures Predef(PredefList[k].0) == Some(PredefList[k].1)
  {
  }

  /** R8 to R12. */
  lemma PredefHighRegisters(k: nat)
    requires 13 <= k < 18
    ensures Predef(PredefList[k].0) == Some(PredefList[k].1)
  {
  }

  /** R13 to R15, SCREEN and KBD. */
  lemma PredefLast(k: nat)
    requires 18 <= k < |PredefList|
    ensures Predef(PredefList[k].0) == Some(PredefList[k].1)
  {
  }
}
