/** emit and set_bytes of src/main.cpp: every resolved instruction becomes a
    16-bit word written as sixteen '0'/'1' characters, most significant bit
    first, and a newline. A decoder reading such text back is the partner of
    the encoder. */
module Encoder {
  import opened Results
  import opened Syntax
  import opened Arith

  /** The characters of one record: sixteen bits and a newline. */
  const RecordSize: nat := 17

  /** BYTES: the four binary digits of each nibble. */
  const Nibbles: seq<string> := [
    "0000", "0001", "0010", "0011", "0100", "0101", "0110", "0111",
    "1000", "1001", "1010", "1011", "1100", "1101", "1110", "1111"]

  /** The 16-bit word of a resolved instruction. An address keeps bit 15
      clear; a computation sets the top three bits and packs the 7-bit
      computation code, the 3-bit destination and the 3-bit jump below them.
      The fields occupy disjoint bits, so the bitwise or of the source is
      their sum. */
  function Word(inst: Inst): (w: nat)
    requires !inst.Unresolved?
    ensures w < 0x10000
    ensures inst.Address? <==> w < 0x8000
  {
    match inst
    case Address(a) => a
    case Compute(c, d, j) => 0xE000 + c.Code() * 64 + d * 8 + j.Code()
  }

  /** set_bytes: the nibbles of the word from the most significant one, then
      a newline. */
  function Bits(w: nat): (s: string)
    requires w < 0x10000
    ensures |s| == RecordSize && s[16] == '\n'
  {
    Nibbles[(w / 0x1000) % 16] + Nibbles[(w / 0x100) % 16] + Nibbles[(w / 0x10) % 16] + Nibbles[w % 16] + "\n"
  }

  /** The record of one instruction; a symbolic address left unresolved is
      an internal error. */
  function Record(inst: Inst): (r: Result<string>)
    ensures r.Success? <==> !inst.Unresolved?
  {
    if inst.Unresolved? then Failure else Success(Bits(Word(inst)))
  }

  /** The records of all instructions, in order; all must be resolved. */
  function Records(insts: seq<Inst>): (r: Result<string>)
    ensures r.Success? <==> forall k :: 0 <= k < |insts| ==> !insts[k].Unresolved?
    ensures r.Success? ==> |r.value| == RecordSize * |insts|
  {
    if |insts| == 0 then Success("")
    else
      var first :- Record(insts[0]);
      var rest :- Records(insts[1..]);
      Success(first + rest)
  }

  /** emit: the text written to the output file. The whole output must fit
      the character capacity before any instruction is encoded. */
  function Emit(lim: Limits, insts: seq<Inst>): (r: Result<string>)
    ensures r.Success? <==>
      RecordSize * |insts| < lim.chars && forall k :: 0 <= k < |insts| ==> !insts[k].Unresolved?
    ensures r.Success? ==> |r.value| == RecordSize * |insts|
  {
    if lim.chars <= RecordSize * |insts| then Failure else Records(insts)
  }

  // ---------------------------------------------------------------------------
  // The reading direction

  function BitValue(c: char): nat
  {
    if c == '1' then 1 else 0
  }

  predicate IsBit(c: char)
  {
    c == '0' || c == '1'
  }

  /** The value of four binary digits. */
  function NibbleValue(s: string): (v: nat)
    requires |s| == 4
    ensures v < 16
  {
    8 * BitValue(s[0]) + 4 * BitValue(s[1]) + 2 * BitValue(s[2]) + BitValue(s[3])
  }

  /** The value of sixteen binary digits, most significant first. */
  function WordValue(s: string): (v: nat)
    requires |s| >= 16
    ensures v < 0x10000
  {
    0x1000 * NibbleValue(s[0..4]) + 0x100 * NibbleValue(s[4..8])
      + 0x10 * NibbleValue(s[8..12]) + NibbleValue(s[12..16])
  }

  /** The computation whose code is c, if any. */
  function CompOf(c: nat): Option<Comp>
  {
    if c == 0x2A then Some(Zero)
    else if c == 0x3F then Some(One)
    else if c == 0x3A then Some(NegativeOne)
    else if c == 0x0C then Some(D)
    else if c == 0x30 then Some(A)
    else if c == 0x70 then Some(M)
    else if c == 0x0D then Some(NotD)
    else if c == 0x31 then Some(NotA)
    else if c == 0x71 then Some(NotM)
    else if c == 0x0F then Some(NegativeD)
    else if c == 0x33 then Some(NegativeA)
    else if c == 0x73 then Some(NegativeM)
    else if c == 0x1F then Some(DPlus1)
    else if c == 0x37 then Some(APlus1)
    else if c == 0x77 then Some(MPlus1)
    else if c == 0x0E then Some(DMinus1)
    else if c == 0x32 then Some(AMinus1)
    else if c == 0x72 then Some(MMinus1)
    else if c == 0x02 then Some(DPlusA)
    else if c == 0x42 then Some(DPlusM)
    else if c == 0x13 then Some(DMinusA)
    else if c == 0x53 then Some(DMinusM)
    else if c == 0x07 then Some(AMinusD)
    else if c == 0x47 then Some(MMinusD)
    else if c == 0x00 then Some(DAndA)
    else if c == 0x40 then Some(DAndM)
    else if c == 0x15 then Some(DOrA)
    else if c == 0x55 then Some(DOrM)
    else None
  }

  /** The jump condition whose code is j. */
  function JumpOf(j: nat): (r: Jump)
    requires j < 8
    ensures r.Code() == j
  {
    if j == 0 then NoJump
    else if j == 1 then JGT
    else if j == 2 then JEQ
    else if j == 3 then JGE
    else if j == 4 then JLT
    else if j == 5 then JNE
    else if j == 6 then JLE
    else JMP
  }

  /** The instruction a word stands for: an address below 0x8000, a
      computation with the top three bits set and a known code. */
  function Unword(w: nat): (r: Option<Inst>)
    ensures r.Some? ==> !r.value.Unresolved?
  {
    if w < 0x8000 then Some(Address(w))
    else if w < 0xE000 then None
    else
      var x := w - 0xE000;
      var c := CompOf((x / 8) / 8);
      if c.None? then None
      else Some(Compute(c.value, (x / 8) % 8, JumpOf(x % 8)))
  }

  /** One record read back: sixteen bits and a newline. */
  function Unrecord(s: string): (r: Option<Inst>)
    requires |s| == RecordSize
  {
    if s[16] != '\n' || exists k :: 0 <= k < 16 && !IsBit(s[k]) then None
    else Unword(WordValue(s))
  }

  /** A text read back as a sequence of records. */
  function Unrecords(s: string): (r: Option<seq<Inst>>)
    decreases |s|
  {
    if |s| == 0 then Some([])
    else if |s| < RecordSize then None
    else
      match Unrecord(s[..RecordSize])
      case None => None
      case Some(first) =>
        match Unrecords(s[RecordSize..])
        case None => None
        case Some(rest) => Some([first] + rest)
  }

  // ---------------------------------------------------------------------------
  // Round trips

  lemma CompOfCode(c: Comp)
    ensures CompOf(c.Code()) == Some(c)
  {
  }

  lemma NibbleRoundTrip(n: nat)
    requires n < 16
    ensures NibbleValue(Nibbles[n]) == n
    ensures forall k :: 0 <= k < 4 ==> IsBit(Nibbles[n][k])
  {
  }

  /** Every word comes back from its instruction's record. */
  lemma UnwordWord(inst: Inst)
    requires !inst.Unresolved?
    ensures Unword(Word(inst)) == Some(inst)
  {
    if inst.Compute? {
      Fields(inst.comp.Code(), inst.dest, inst.jump.Code());
      CompOfCode(inst.comp);
    }
  }

  /** The three fields of a computation word below its top bits. */
  lemma Fields(c: nat, d: nat, j: nat)
    requires d < 8 && j < 8
    ensures var x := c * 64 + d * 8 + j; x % 8 == j && (x / 8) % 8 == d && (x / 8) / 8 == c
  {
    var x := c * 64 + d * 8 + j;
    assert x == (c * 8 + d) * 8 + j;
    ModOfMultiplePlus(c * 8 + d, 8, j);
    DivOfMultiplePlus(c * 8 + d, 8, j);
    ModOfMultiplePlus(c, 8, d);
    DivOfMultiplePlus(c, 8, d);
  }

  /** The four nibbles of a record, in place. */
  lemma BitsNibbles(w: nat)
    requires w < 0x10000
    ensures Bits(w)[0..4] == Nibbles[(w / 0x1000) % 16]
    ensures Bits(w)[4..8] == Nibbles[(w / 0x100) % 16]
    ensures Bits(w)[8..12] == Nibbles[(w / 0x10) % 16]
    ensures Bits(w)[12..16] == Nibbles[w % 16]
  {
  }

  /** The nibbles of a word give the word back. */
  lemma WordValueBits(w: nat)
    requires w < 0x10000
    ensures WordValue(Bits(w)) == w
  {
    BitsNibbles(w);
    NibbleRoundTrip((w / 0x1000) % 16);
    NibbleRoundTrip((w / 0x100) % 16);
    NibbleRoundTrip((w / 0x10) % 16);
    NibbleRoundTrip(w % 16);
    NibbleSplit(w);
  }

  /** A record holds only binary digits before its newline. */
  lemma BitsAreBits(w: nat)
    requires w < 0x10000
    ensures forall k :: 0 <= k < 16 ==> IsBit(Bits(w)[k])
  {
    var s := Bits(w);
    BitsNibbles(w);
    NibbleRoundTrip((w / 0x1000) % 16);
    NibbleRoundTrip((w / 0x100) % 16);
    NibbleRoundTrip((w / 0x10) % 16);
    NibbleRoundTrip(w % 16);
    forall k | 0 <= k < 16
      ensures IsBit(s[k])
    {
      assert s[k] == s[4 * (k / 4)..4 * (k / 4) + 4][k % 4];
    }
  }

  /** A 16-bit word is the sum of its nibbles in place. */
  lemma NibbleSplit(w: nat)
    requires w < 0x10000
    ensures w == 0x1000 * ((w / 0x1000) % 16) + 0x100 * ((w / 0x100) % 16) + 0x10 * ((w / 0x10) % 16) + w % 16
  {
    var (q1, d) := (w / 16, w % 16);
    var (q2, c) := (q1 / 16, q1 % 16);
    var (q3, b) := (q2 / 16, q2 % 16);
    assert w == 16 * q1 + d;
    assert q1 == 16 * q2 + c;
    assert q2 == 16 * q3 + b;
    DivOfMultiplePlus(q2, 0x100, 16 * c + d);
    DivOfMultiplePlus(q3, 0x1000, 0x100 * b + 16 * c + d);
    ModBelow(q3, 16);
  }

  /** decode(encode(inst)) == inst for one record. */
  lemma RecordRoundTrip(inst: Inst)
    requires !inst.Unresolved?
    ensures Unrecord(Record(inst).value) == Some(inst)
  {
    WordValueBits(Word(inst));
    BitsAreBits(Word(inst));
    UnwordWord(inst);
  }

  /** decode(emit(insts)) == insts: the output text reads back as exactly the
      instructions emitted, in order. */
  lemma {:induction false} RecordsRoundTrip(insts: seq<Inst>)
    requires Records(insts).Success?
    ensures Unrecords(Records(insts).value) == Some(insts)
  {
    if |insts| != 0 {
      var first := Record(insts[0]).value;
      var rest := Records(insts[1..]).value;
      var s := first + rest;
      assert Records(insts).value == s;
      assert s[..RecordSize] == first && s[RecordSize..] == rest;
      RecordRoundTrip(insts[0]);
      RecordsRoundTrip(insts[1..]);
      assert [insts[0]] + insts[1..] == insts;
    }
  }

  lemma EmitRoundTrip(lim: Limits, insts: seq<Inst>)
    requires Emit(lim, insts).Success?
    ensures Unrecords(Emit(lim, insts).value) == Some(insts)
  {
    RecordsRoundTrip(insts);
  }

  // ---------------------------------------------------------------------------
  // The converse: every record the decoder accepts is the encoding of what it
  // reads, so the two are inverse bijections between resolved instructions
  // and well-formed records.

  /** A code the decoder knows is the code of the computation it names. */
  lemma CompOfSound(c: nat)
    requires CompOf(c).Some?
    ensures CompOf(c).value.Code() == c
  {
  }

  lemma WordUnword(w: nat)
    requires Unword(w).Some?
    ensures Word(Unword(w).value) == w
  {
    if w >= 0x8000 {
      var x := w - 0xE000;
      CompOfSound((x / 8) / 8);
    }
  }

  /** Four binary digits are the nibble of their value. */
  lemma NibbleOfValue(t: string)
    requires |t| == 4 && forall k :: 0 <= k < 4 ==> IsBit(t[k])
    ensures Nibbles[NibbleValue(t)] == t
  {
    assert IsBit(t[0]) && IsBit(t[1]) && IsBit(t[2]) && IsBit(t[3]);
    assert t == [t[0], t[1], t[2], t[3]];
  }

  /** The nibbles of the value of sixteen digits, each in its place. */
  lemma WordNibbles(s: string)
    requires |s| >= 16
    ensures var w := WordValue(s);
      && (w / 0x1000) % 16 == NibbleValue(s[0..4])
      && (w / 0x100) % 16 == NibbleValue(s[4..8])
      && (w / 0x10) % 16 == NibbleValue(s[8..12])
      && w % 16 == NibbleValue(s[12..16])
  {
    var (a, b, c, d) := (NibbleValue(s[0..4]), NibbleValue(s[4..8]), NibbleValue(s[8..12]), NibbleValue(s[12..16]));
    var w := WordValue(s);
    DivOfMultiplePlus(a, 0x1000, 0x100 * b + 0x10 * c + d);
    ModBelow(a, 16);
    DivOfMultiplePlus(0x10 * a + b, 0x100, 0x10 * c + d);
    ModOfMultiplePlus(a, 16, b);
    DivOfMultiplePlus(0x100 * a + 0x10 * b + c, 0x10, d);
    ModOfMultiplePlus(0x10 * a + b, 16, c);
    ModOfMultiplePlus(0x100 * a + 0x10 * b + c, 16, d);
  }

  /** Sixteen binary digits and a newline are the record of their value. */
  lemma BitsWordValue(s: string)
    requires |s| == RecordSize && s[16] == '\n'
    requires forall k :: 0 <= k < 16 ==> IsBit(s[k])
    ensures Bits(WordValue(s)) == s
  {
    WordNibbles(s);
    NibbleOfValue(s[0..4]);
    NibbleOfValue(s[4..8]);
    NibbleOfValue(s[8..12]);
    NibbleOfValue(s[12..16]);
    assert s == s[0..4] + s[4..8] + s[8..12] + s[12..16] + "\n";
  }

  /** encode(decode(s)) == s for one record. */
  lemma UnrecordRoundTrip(s: string)
    requires |s| == RecordSize && Unrecord(s).Some?
    ensures Record(Unrecord(s).value) == Success(s)
  {
    BitsWordValue(s);
    WordUnword(WordValue(s));
  }

  /** encode(decode(s)) == s for a whole text: a text the decoder reads
      completely is exactly the records of what it reads. */
  lemma {:induction false} UnrecordsRoundTrip(s: string)
    requires Unrecords(s).Some?
    ensures Records(Unrecords(s).value) == Success(s)
    decreases |s|
  {
    if |s| != 0 {
      var insts := Unrecords(s).value;
      UnrecordRoundTrip(s[..RecordSize]);
      UnrecordsRoundTrip(s[RecordSize..]);
      assert insts[1..] == Unrecords(s[RecordSize..]).value;
      assert s == s[..RecordSize] + s[RecordSize..];
    }
  }

  /** emit produces a text exactly when that text decodes to the program and
      fits the character capacity. */
  lemma EmitDecodes(lim: Limits, insts: seq<Inst>, s: string)
    ensures Emit(lim, insts) == Success(s) <==> Unrecords(s) == Some(insts) && |s| < lim.chars
  {
    if Emit(lim, insts) == Success(s) {
      RecordsRoundTrip(insts);
    }
    if Unrecords(s) == Some(insts) && |s| < lim.chars {
      UnrecordsRoundTrip(s);
    }
  }

  /** The records of a nonempty resolved program: the first, then the rest. */
  lemma RecordsCons(insts: seq<Inst>)
    requires |insts| != 0 && Records(insts).Success?
    ensures Records(insts[1..]).Success?
    ensures Records(insts).value == Bits(Word(insts[0])) + Records(insts[1..]).value
  {
  }

  /** Lines joined in order. */
  function Join(lines: seq<string>): (s: string)
  {
    if |lines| == 0 then "" else lines[0] + Join(lines[1..])
  }

  /** The program `@2 D=A @3 D=D+A @0 M=D`, which adds 2 and 3 into RAM[0]. */
  lemma AddExample()
    ensures Emit(Source, [Address(2), Compute(Comp.A, 2, NoJump), Address(3),
                          Compute(DPlusA, 2, NoJump), Address(0), Compute(Comp.D, 1, NoJump)])
      == Success(Join(["0000000000000010\n", "1110110000010000\n", "0000000000000011\n",
                       "1110000010010000\n", "0000000000000000\n", "1110001100001000\n"]))
  {
    var p := [Address(2), Compute(Comp.A, 2, NoJump), Address(3),
              Compute(DPlusA, 2, NoJump), Address(0), Compute(Comp.D, 1, NoJump)];
    var r := ["0000000000000010\n", "1110110000010000\n", "0000000000000011\n",
              "1110000010010000\n", "0000000000000000\n", "1110001100001000\n"];
    AddWord0();
    AddWord1();
    AddWord2();
    AddWord3();
    AddWord4();
    AddWord5();
    AddRecords(p, r, 5);
    AddRecords(p, r, 4);
    AddRecords(p, r, 3);
    AddRecords(p, r, 2);
    AddRecords(p, r, 1);
    AddRecords(p, r, 0);
    assert p[0..] == p && r[0..] == r;
  }

  /** One step of the example: the records from k on join the lines from k on. */
  lemma AddRecords(p: seq<Inst>, r: seq<string>, k: nat)
    requires k < |p| == |r|
    requires Record(p[k]) == Success(r[k])
    requires Records(p[k + 1..]) == Success(Join(r[k + 1..]))
    ensures Records(p[k..]) == Success(Join(r[k..]))
  {
    assert p[k..][1..] == p[k + 1..];
    assert r[k..][1..] == r[k + 1..];
  }

  lemma AddWord0()
    ensures Record(Address(2)) == Success("0000000000000010\n")
  {
    assert Word(Address(2)) == 2;
    assert Bits(2) == "0000" + "0000" + "0000" + "0010" + "\n";
    assert Bits(2) == "0000000000000010\n";
  }

  lemma AddWord1()
    ensures Record(Compute(Comp.A, 2, NoJump)) == Success("1110110000010000\n")
  {
    assert Word(Compute(Comp.A, 2, NoJump)) == 0xEC10;
    assert Bits(0xEC10) == "1110" + "1100" + "0001" + "0000" + "\n";
    assert Bits(0xEC10) == "1110110000010000\n";
  }

  lemma AddWord2()
    ensures Record(Address(3)) == Success("0000000000000011\n")
  {
    assert Word(Address(3)) == 3;
    assert Bits(3) == "0000" + "0000" + "0000" + "0011" + "\n";
    assert Bits(3) == "0000000000000011\n";
  }

  lemma AddWord3()
    ensures Record(Compute(DPlusA, 2, NoJump)) == Success("1110000010010000\n")
  {
    assert Word(Compute(DPlusA, 2, NoJump)) == 0xE090;
    assert Bits(0xE090) == "1110" + "0000" + "1001" + "0000" + "\n";
    assert Bits(0xE090) == "1110000010010000\n";
  }

  lemma AddWord4()
    ensures Record(Address(0)) == Success("0000000000000000\n")
  {
    assert Word(Address(0)) == 0;
    assert Bits(0) == "0000" + "0000" + "0000" + "0000" + "\n";
    assert Bits(0) == "0000000000000000\n";
  }

  lemma AddWord5()
    ensures Record(Compute(Comp.D, 1, NoJump)) == Success("1110001100001000\n")
  {
    assert Word(Compute(Comp.D, 1, NoJump)) == 0xE308;
    assert Bits(0xE308) == "1110" + "0011" + "0000" + "1000" + "\n";
    assert Bits(0xE308) == "1110001100001000\n";
  }
}
