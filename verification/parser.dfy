/** The parser of src/main.cpp: set_insts and the routines it calls.

  The parser walks the token kinds left to right. `@` starts an address,
  `(` starts a label, and a name or an integer starts a computation; any
  other token aborts. Labels go into a hash table bound to the number of
  instructions emitted so far; every other construct emits one instruction.
  Token offsets only serve the error messages, so the parser sees kinds. */
module Parser {
  import opened Results
  import opened Syntax
  import opened Hash

  /** get_token: the token at index i, or an abort past the end. */
  function TokenAt(ks: seq<Kind>, i: nat): (r: Result<Kind>)
    ensures r.Success? <==> i < |ks|
    ensures r.Success? ==> r.value == ks[i]
  {
    if i < |ks| then Success(ks[i]) else Failure
  }

  // ---------------------------------------------------------------------------
  // Addresses

  /** parse_address, for the token after `@`: a literal is an address, a
      predefined name is its fixed address, any other name awaits resolution. */
  function ParseAddress(ks: seq<Kind>, i: nat): (r: Result<(Inst, nat)>)
    ensures r.Success? <==> i < |ks| && (ks[i].Int? || ks[i].Str?)
    ensures r.Success? ==> r.value.1 == i + 1
    ensures r.Success? && ks[i].Int? ==> r.value.0 == Address(ks[i].value)
    ensures r.Success? && ks[i].Str? ==>
      (r.value.0.Unresolved? <==> Predef(ks[i].text).None?)
    ensures r.Success? && ks[i].Str? && Predef(ks[i].text).Some? ==>
      r.value.0 == Address(Predef(ks[i].text).value)
    ensures r.Success? && r.value.0.Unresolved? ==> ks[i] == Str(r.value.0.name)
  {
    var k :- TokenAt(ks, i);
    match k
    case Int(v) => Success((Address(v), i + 1))
    case Str(s) =>
      (match Predef(s)
       case Some(v) => Success((Address(v), i + 1))
       case None => Success((Unresolved(s), i + 1)))
    case _ => Failure
  }

  // ---------------------------------------------------------------------------
  // Destinations

  /** The dest bit of a letter, 0 for any other character. */
  function DestBit(c: char): nat
  {
    match c
    case 'M' => 1
    case 'D' => 2
    case 'A' => 4
    case _ => 0
  }

  /** `dest & bit` is nonzero: the letter's bit is already set in the mask. */
  predicate HasBit(dest: nat, c: char)
  {
    match c
    case 'M' => dest % 2 == 1
    case 'D' => (dest / 2) % 2 == 1
    case 'A' => (dest / 4) % 2 == 1
    case _ => false
  }

  /** The inner loop of get_dest over the letters of one name token: each
      must be M, D or A, and none may repeat. */
  function DestLetters(s: string, k: nat, dest: nat): (r: Result<nat>)
    requires dest < 8
    ensures r.Success? ==> r.value < 8
    decreases |s| - k
  {
    if |s| <= k then Success(dest)
    else if DestBit(s[k]) == 0 || HasBit(dest, s[k]) then Failure
    else DestLetters(s, k + 1, dest + DestBit(s[k]))
  }

  /** The outer loop of get_dest from token j: names contribute letters, `=`
      ends the loop and becomes the new position, anything else aborts; the
      position stays at i when no `=` follows. */
  function DestFrom(ks: seq<Kind>, i: nat, j: nat, dest: nat): (r: Result<(nat, nat)>)
    requires i <= j <= |ks| && dest < 8
    ensures r.Success? ==> r.value.0 < 8
    decreases |ks| - j
  {
    if j == |ks| then Success((dest, i))
    else match ks[j]
      case Str(s) =>
        var d :- DestLetters(s, 0, dest);
        DestFrom(ks, i, j + 1, d)
      case Equals => Success((dest, j))
      case _ => Failure
  }

  /** get_dest: the mask of destination letters before the `=`, which must
      name at least one register. */
  function GetDest(ks: seq<Kind>, i: nat): (r: Result<(Dest, nat)>)
    requires i <= |ks|
    ensures r.Success? ==> 0 < r.value.0
  {
    var (d, e) :- DestFrom(ks, i, i, 0);
    if d == 0 then Failure else Success((d, e))
  }

  // ---------------------------------------------------------------------------
  // Computations

  /** The register named by a token, picking one of three results. */
  function Pick(k: Kind, d: Comp, a: Comp, m: Comp): (r: Result<Comp>)
    ensures r.Success? <==> k == Str("D") || k == Str("A") || k == Str("M")
  {
    if k == Str("D") then Success(d)
    else if k == Str("A") then Success(a)
    else if k == Str("M") then Success(m)
    else Failure
  }

  /** The binary forms of get_comp, in the order the source tries them. */
  function Binary(s: string, op: Kind, right: Kind): Option<Comp>
  {
    if op == Plus && right == Int(1) && (s == "D" || s == "A" || s == "M") then
      Some(if s == "D" then DPlus1 else if s == "A" then APlus1 else MPlus1)
    else if op == Minus && right == Int(1) && (s == "D" || s == "A" || s == "M") then
      Some(if s == "D" then DMinus1 else if s == "A" then AMinus1 else MMinus1)
    else if op == Plus && s == "D" && right == Str("A") then Some(DPlusA)
    else if op == Plus && s == "D" && right == Str("M") then Some(DPlusM)
    else if op == Minus && s == "D" && right == Str("A") then Some(DMinusA)
    else if op == Minus && s == "D" && right == Str("M") then Some(DMinusM)
    else if op == Minus && s == "A" && right == Str("D") then Some(AMinusD)
    else if op == Minus && s == "M" && right == Str("D") then Some(MMinusD)
    else if op == Ampers && s == "D" && right == Str("A") then Some(DAndA)
    else if op == Ampers && s == "D" && right == Str("M") then Some(DAndM)
    else if op == Pipe && s == "D" && right == Str("A") then Some(DOrA)
    else if op == Pipe && s == "D" && right == Str("M") then Some(DOrM)
    else None
  }

  /** get_comp from index i: the computation and the index after it. A name
      not at the end always reads two more tokens; when they form no binary
      computation, the position falls back to just after the name. */
  function GetComp(ks: seq<Kind>, i: nat): (r: Result<(Comp, nat)>)
    ensures r.Success? ==> i < r.value.1 <= |ks|
  {
    var left :- TokenAt(ks, i);
    match left
    case Int(v) =>
      if v == 0 then Success((Zero, i + 1))
      else if v == 1 then Success((One, i + 1))
      else Failure
    case Minus =>
      var t :- TokenAt(ks, i + 1);
      if t == Int(1) then Success((NegativeOne, i + 2))
      else
        var c :- Pick(t, NegativeD, NegativeA, NegativeM);
        Success((c, i + 2))
    case Bang =>
      var t :- TokenAt(ks, i + 1);
      var c :- Pick(t, NotD, NotA, NotM);
      Success((c, i + 2))
    case Str(s) =>
      if i == |ks| - 1 then
        var c :- Pick(left, D, A, M);
        Success((c, i + 1))
      else
        var op := ks[i + 1];
        var right :- TokenAt(ks, i + 2);
        (match Binary(s, op, right)
         case Some(c) => Success((c, i + 3))
         case None =>
           var c :- Pick(left, D, A, M);
           Success((c, i + 1)))
    case _ => Failure
  }

  // ---------------------------------------------------------------------------
  // Jumps

  /** The mnemonic of a jump condition; the absent jump has none. */
  function JumpName(j: Jump): string
  {
    match j
    case NoJump => ""
    case JGT => "JGT"
    case JEQ => "JEQ"
    case JGE => "JGE"
    case JLT => "JLT"
    case JNE => "JNE"
    case JLE => "JLE"
    case JMP => "JMP"
  }

  /** get_jump: the token at i must be one of the seven mnemonics. The source
      compares the token's text without checking that it is a name; any other
      token aborts here. */
  function GetJump(ks: seq<Kind>, i: nat): (r: Result<(Jump, nat)>)
    ensures r.Success? ==> r.value.1 == i + 1 && i < |ks|
  {
    var t :- TokenAt(ks, i);
    if t == Str("JGT") then Success((JGT, i + 1))
    else if t == Str("JEQ") then Success((JEQ, i + 1))
    else if t == Str("JGE") then Success((JGE, i + 1))
    else if t == Str("JLT") then Success((JLT, i + 1))
    else if t == Str("JNE") then Success((JNE, i + 1))
    else if t == Str("JLE") then Success((JLE, i + 1))
    else if t == Str("JMP") then Success((JMP, i + 1))
    else Failure
  }

  // ---------------------------------------------------------------------------
  // Computation instructions

  predicate IsTerminator(k: Kind) {
    k == Equals || k == SColon
  }

  /** The first `=` or `;` at or after i, or the end of the tokens. */
  function FirstTerminator(ks: seq<Kind>, i: nat): (j: nat)
    requires i <= |ks|
    ensures i <= j <= |ks|
    ensures j < |ks| ==> IsTerminator(ks[j])
    ensures forall k :: i <= k < j ==> !IsTerminator(ks[k])
    decreases |ks| - i
  {
    if i == |ks| || IsTerminator(ks[i]) then i else FirstTerminator(ks, i + 1)
  }

  /** parse_compute from index i. With `=` first: the dest before it, the comp
      after it, and a jump if a `;` follows the comp. With `;` first: the comp
      must end exactly at the `;` and a jump follows. With neither anywhere
      ahead, the default computation is emitted and the position does not
      move. */
  function ParseCompute(ks: seq<Kind>, i: nat): (r: Result<(Inst, nat)>)
    requires i <= |ks|
    ensures r.Success? ==> r.value.0.Compute? && i <= r.value.1 <= |ks|
    ensures r.Success? && r.value.1 == i ==> FirstTerminator(ks, i) == |ks|
  {
    var j := FirstTerminator(ks, i);
    if j == |ks| then Success((Compute(Zero, 0, NoJump), i))
    else if i == j then Failure
    else if ks[j] == Equals then AssignCompute(ks, i, j)
    else JumpCompute(ks, i, j)
  }

  /** The `=` branch of parse_compute, the `=` being at j. */
  function AssignCompute(ks: seq<Kind>, i: nat, j: nat): (r: Result<(Inst, nat)>)
    requires i < j < |ks|
    ensures r.Success? ==> r.value.0.Compute? && j < r.value.1 <= |ks|
  {
    var (dest, d) :- GetDest(ks, i);
    if d != j then Failure
    else
      var (comp, e) :- GetComp(ks, j + 1);
      var (jump, f) :- OptionalJump(ks, e);
      Success((Compute(comp, dest, jump), f))
  }

  /** After the computation of an assignment: a jump when a `;` follows. */
  function OptionalJump(ks: seq<Kind>, e: nat): (r: Result<(Jump, nat)>)
    requires e <= |ks|
    ensures r.Success? ==> e <= r.value.1 <= |ks|
  {
    if e < |ks| && ks[e] == SColon then GetJump(ks, e + 1) else Success((NoJump, e))
  }

  /** The `;` branch of parse_compute, the `;` being at j. */
  function JumpCompute(ks: seq<Kind>, i: nat, j: nat): (r: Result<(Inst, nat)>)
    requires i < j < |ks|
    ensures r.Success? ==> r.value.0.Compute? && j < r.value.1 <= |ks|
  {
    var (comp, e) :- GetComp(ks, i);
    if e != j then Failure
    else
      var (jump, f) :- GetJump(ks, j + 1);
      Success((Compute(comp, 0, jump), f))
  }

  // ---------------------------------------------------------------------------
  // Labels and the instruction loop

  /** The instructions emitted so far and the label table. */
  datatype Program = Program(insts: seq<Inst>, labels: Table<U15>)

  /** parse_label, for the token after `(`: a name, bound to the instruction
      count n (the previous binding of the name is overwritten), then `)`. */
  function ParseLabel(ks: seq<Kind>, i: nat, labels: Table<U15>, n: U15): (r: Result<(Table<U15>, nat)>)
    ensures r.Success? ==>
      && i + 1 < |ks| && ks[i].Str? && ks[i + 1] == RParen
      && r.value.1 == i + 2
      && Insert(labels, ks[i].text, n) == Success(r.value.0)
  {
    var k :- TokenAt(ks, i);
    if !k.Str? then Failure
    else
      var labels' :- Insert(labels, k.text, n);
      var close :- TokenAt(ks, i + 1);
      if close != RParen then Failure else Success((labels', i + 2))
  }

  /** alloc_inst: append an instruction unless the capacity is reached. */
  function Alloc(lim: Limits, insts: seq<Inst>, inst: Inst): (r: Result<seq<Inst>>)
    ensures r.Success? <==> |insts| < lim.insts
    ensures r.Success? ==> r.value == insts + [inst]
  {
    if lim.insts <= |insts| then Failure else Success(insts + [inst])
  }

  /** The loop of set_insts from token i. */
  function SetInstsFrom(lim: Limits, ks: seq<Kind>, i: nat, p: Program): (r: Result<Program>)
    requires lim.Valid() && i <= |ks| && |p.insts| <= lim.insts
    ensures r.Success? ==> |p.insts| <= |r.value.insts| <= lim.insts
    ensures r.Success? ==> r.value.insts[..|p.insts|] == p.insts
    decreases |ks| - i, lim.insts - |p.insts|, 1
  {
    if i == |ks| then Success(p)
    else match ks[i]
      case At =>
        if |ks| <= i + 1 then Failure
        else
          var (inst, e) :- ParseAddress(ks, i + 1);
          var insts :- Alloc(lim, p.insts, inst);
          SetInstsFrom(lim, ks, e, Program(insts, p.labels))
      case LParen =>
        if |ks| <= i + 1 then Failure
        else
          var (labels, e) :- ParseLabel(ks, i + 1, p.labels, |p.insts|);
          SetInstsFrom(lim, ks, e, Program(p.insts, labels))
      case Str(_) => ComputeStep(lim, ks, i, p)
      case Int(_) => ComputeStep(lim, ks, i, p)
      case _ => Failure
  }

  /** A computation instruction inside the set_insts loop. */
  function ComputeStep(lim: Limits, ks: seq<Kind>, i: nat, p: Program): (r: Result<Program>)
    requires lim.Valid() && i < |ks| && |p.insts| <= lim.insts
    ensures r.Success? ==> |p.insts| < |r.value.insts| <= lim.insts
    ensures r.Success? ==> r.value.insts[..|p.insts|] == p.insts
    decreases |ks| - i, lim.insts - |p.insts|, 0
  {
    var (inst, e) :- ParseCompute(ks, i);
    var insts :- Alloc(lim, p.insts, inst);
    var r := SetInstsFrom(lim, ks, e, Program(insts, p.labels));
    if r.Success? then
      assert r.value.insts[..|p.insts|] == insts[..|p.insts|];
      r
    else r
  }

  /** set_insts: the instructions of a token sequence and its label table, of
      capacity `lim.labels`. */
  function Parse(lim: Limits, ks: seq<Kind>): (r: Result<Program>)
    requires lim.Valid()
    ensures r.Success? ==> |r.value.insts| <= lim.insts
  {
    SetInstsFrom(lim, ks, 0, Program([], Empty(lim.labels)))
  }

  // ---------------------------------------------------------------------------
  // Jump names

  /** get_jump accepts exactly the seven mnemonics, each giving its own
      condition and consuming one token. */
  lemma GetJumpNames(ks: seq<Kind>, i: nat, j: Jump)
    ensures GetJump(ks, i) == Success((j, i + 1)) <==>
      i < |ks| && j != NoJump && ks[i] == Str(JumpName(j))
    ensures GetJump(ks, i).Success? ==> GetJump(ks, i).value.0 != NoJump
  {
  }

  // ---------------------------------------------------------------------------
  // Computations without `=` or `;`

  /** A computation with no `=` or `;` anywhere after it emits the default
      instruction without moving, so the loop revisits it until the
      instruction capacity is exhausted: the parse fails. */
  lemma {:induction false} BareComputeFails(lim: Limits, ks: seq<Kind>, i: nat, p: Program)
    requires lim.Valid() && i < |ks| && |p.insts| <= lim.insts
    requires (ks[i].Str? || ks[i].Int?) && FirstTerminator(ks, i) == |ks|
    ensures SetInstsFrom(lim, ks, i, p) == Failure
    decreases lim.insts - |p.insts|
  {
    if |p.insts| < lim.insts {
      BareComputeFails(lim, ks, i, Program(p.insts + [Compute(Zero, 0, NoJump)], p.labels));
    }
  }

  // ---------------------------------------------------------------------------
  // Rejected and accepted computations

  /** A computation that starts with its `=` or `;` has no operand before it:
      it is rejected. */
  lemma ComputeNoOperand(ks: seq<Kind>, i: nat)
    requires i < |ks| && IsTerminator(ks[i])
    ensures ParseCompute(ks, i) == Failure
  {
  }

  /** With `=` first, a dest that does not end exactly at the `=` is
      rejected. */
  lemma ComputeDestMismatch(ks: seq<Kind>, i: nat, dest: Dest, d: nat)
    requires i <= |ks|
    requires FirstTerminator(ks, i) < |ks| && ks[FirstTerminator(ks, i)] == Equals
    requires GetDest(ks, i) == Success((dest, d)) && d != FirstTerminator(ks, i)
    ensures ParseCompute(ks, i) == Failure
  {
  }

  /** With `;` first, a comp that does not end exactly at the `;` is
      rejected. */
  lemma ComputeCompMismatch(ks: seq<Kind>, i: nat, comp: Comp, e: nat)
    requires i <= |ks|
    requires FirstTerminator(ks, i) < |ks| && ks[FirstTerminator(ks, i)] == SColon
    requires GetComp(ks, i) == Success((comp, e)) && e != FirstTerminator(ks, i)
    ensures ParseCompute(ks, i) == Failure
  {
  }

  /** With `;` first (at j), a comp ending at the `;` and a jump after it
      make the computation `comp;jump`, which stores nowhere. */
  lemma ComputeJump(ks: seq<Kind>, i: nat, j: nat, comp: Comp, jump: Jump, f: nat)
    requires i <= |ks| && j == FirstTerminator(ks, i) && j < |ks| && ks[j] == SColon
    requires GetComp(ks, i) == Success((comp, j))
    requires GetJump(ks, j + 1) == Success((jump, f))
    ensures ParseCompute(ks, i) == Success((Compute(comp, 0, jump), f))
  {
    assert i < j;
    assert JumpCompute(ks, i, j) == Success((Compute(comp, 0, jump), f));
    assert ParseCompute(ks, i) == JumpCompute(ks, i, j);
  }

  /** With `=` first (at j), a dest ending at the `=` and a comp after it make
      the computation `dest=comp`, with a jump exactly when a `;` follows the
      comp. */
  lemma ComputeAssign(ks: seq<Kind>, i: nat, j: nat, dest: Dest, comp: Comp, e: nat)
    requires i <= |ks| && j == FirstTerminator(ks, i) && j < |ks| && ks[j] == Equals
    requires GetDest(ks, i) == Success((dest, j))
    requires GetComp(ks, j + 1) == Success((comp, e))
    ensures e < |ks| && ks[e] == SColon ==>
      ParseCompute(ks, i) == (var (jump, f) :- GetJump(ks, e + 1); Success((Compute(comp, dest, jump), f)))
    ensures !(e < |ks| && ks[e] == SColon) ==> ParseCompute(ks, i) == Success((Compute(comp, dest, NoJump), e))
  {
    assert i < j;
    assert ParseCompute(ks, i) == AssignCompute(ks, i, j);
  }

  // ---------------------------------------------------------------------------
  // Instructions starting with an operator

  /** set_insts starts a computation only at a name or an integer: an
      instruction starting with any other token, `-` and `!` included, is
      rejected, so jump-only lines such as `-1;JMP` or `!D;JGT` never parse. */
  lemma LeadingTokenFails(lim: Limits, ks: seq<Kind>, i: nat, p: Program)
    requires lim.Valid() && i < |ks| && |p.insts| <= lim.insts
    requires !(ks[i].Str? || ks[i].Int? || ks[i] == At || ks[i] == LParen)
    ensures SetInstsFrom(lim, ks, i, p) == Failure
  {
  }

  /** The tokens of `-1;JMP` alone do not parse. */
  lemma NegatedJumpFails()
    ensures Parse(Source, [Minus, Int(1), SColon, Str("JMP")]) == Failure
  {
    LeadingTokenFails(Source, [Minus, Int(1), SColon, Str("JMP")], 0, Program([], Empty(Source.labels)));
  }
}

