/** Hack programs written line by line, and what set_insts of src/main.cpp
    makes of their tokens: for every program written in the forms the parser
    supports, parsing yields its instructions in order and binds each label
    to the number of instructions before it. */
module Written {
  import opened Results
  import opened Syntax
  import opened Hash
  import opened Parser
  import opened Dests
  import opened Comps

  /** One line of a program: an instruction or a `(label)`. */
  datatype Line = Instr(inst: Inst) | Label(name: string)

  /** The written destination, letters in the customary order A, M, D. */
  function DestName(d: Dest): string
  {
    (if (d / 4) % 2 == 1 then "A" else "")
    + (if d % 2 == 1 then "M" else "")
    + (if (d / 2) % 2 == 1 then "D" else "")
  }

  function DestTokens(d: Dest): seq<Kind>
  {
    if d == 0 then [] else [Str(DestName(d)), Equals]
  }

  function JumpTokens(j: Jump): seq<Kind>
  {
    if j == NoJump then [] else [SColon, Str(JumpName(j))]
  }

  /** The tokens of one line. */
  function LineTokens(l: Line): seq<Kind>
  {
    match l
    case Instr(Address(v)) => [At, Int(v)]
    case Instr(Unresolved(name)) => [At, Str(name)]
    case Instr(Compute(c, d, j)) => DestTokens(d) + Shape(c) + JumpTokens(j)
    case Label(name) => [LParen, Str(name), RParen]
  }

  /** The tokens of a program: its lines' tokens, one after the other. */
  function Tokens(lines: seq<Line>): seq<Kind>
  {
    if |lines| == 0 then [] else LineTokens(lines[0]) + Tokens(lines[1..])
  }

  /** The lines the parser reads back as written: a symbolic address must
      not be predefined (it would become its fixed address), a computation
      needs a destination or a jump (else it is never terminated), and one
      without destination must start with a name or an integer (set_insts
      rejects `-` and `!` at the start of an instruction). */
  predicate WritableLine(l: Line)
  {
    match l
    case Instr(Unresolved(name)) => Predef(name).None?
    case Instr(Compute(c, d, j)) =>
      && (d != 0 || j != NoJump)
      && (d == 0 ==> Shape(c)[0].Str? || Shape(c)[0].Int?)
    case _ => true
  }

  predicate Writable(lines: seq<Line>)
  {
    forall k :: 0 <= k < |lines| ==> WritableLine(lines[k])
  }

  /** The program the lines describe, from state p: each instruction appended
      within the capacity, each label inserted into the label table bound to
      the number of instructions before it. */
  function Place(lim: Limits, lines: seq<Line>, p: Program): (r: Result<Program>)
    requires lim.Valid() && |p.insts| <= lim.insts
    decreases |lines|
  {
    if |lines| == 0 then Success(p)
    else match lines[0]
      case Instr(inst) =>
        var insts :- Alloc(lim, p.insts, inst);
        Place(lim, lines[1..], Program(insts, p.labels))
      case Label(name) =>
        var labels :- Insert(p.labels, name, |p.insts|);
        Place(lim, lines[1..], Program(p.insts, labels))
  }

  /** The instructions among the lines, in order. */
  function Insts(lines: seq<Line>): seq<Inst>
  {
    if |lines| == 0 then []
    else (if lines[0].Instr? then [lines[0].inst] else []) + Insts(lines[1..])
  }

  // ---------------------------------------------------------------------------
  // Facts about the written forms

  /** Every destination other than none is written as a destination word
      whose letters give back the mask. */
  lemma DestNameSpec(d: Dest)
    requires d != 0
    ensures DestName(d) != "" && DestWord(DestName(d))
    ensures MaskOf(CharsOf(DestName(d))) == d
  {
    var w := DestName(d);
    if d == 1 { assert w == "M"; assert CharsOf(w) == {'M'} by { assert w[0] == 'M'; } }
    else if d == 2 { assert w == "D"; assert CharsOf(w) == {'D'} by { assert w[0] == 'D'; } }
    else if d == 3 { assert w == "MD"; assert CharsOf(w) == {'M', 'D'} by { assert w[0] == 'M' && w[1] == 'D'; } }
    else if d == 4 { assert w == "A"; assert CharsOf(w) == {'A'} by { assert w[0] == 'A'; } }
    else if d == 5 { assert w == "AM"; assert CharsOf(w) == {'A', 'M'} by { assert w[0] == 'A' && w[1] == 'M'; } }
    else if d == 6 { assert w == "AD"; assert CharsOf(w) == {'A', 'D'} by { assert w[0] == 'A' && w[1] == 'D'; } }
    else {
      assert w == "AMD";
      assert CharsOf(w) == {'A', 'M', 'D'} by { assert w[0] == 'A' && w[1] == 'M' && w[2] == 'D'; }
    }
  }

  /** Where a written line may start: the end of the tokens, or at least two
      tokens of which the first opens an instruction or a label. */
  predicate LineStart(ks: seq<Kind>, e: nat)
  {
    e == |ks| || (e + 1 < |ks| && (ks[e].At? || ks[e].LParen? || ks[e].Str? || ks[e].Int?))
  }

  lemma TokensStart(lines: seq<Line>)
    requires Writable(lines)
    ensures LineStart(Tokens(lines), 0)
  {
    if |lines| != 0 {
      assert WritableLine(lines[0]);
      var t := LineTokens(lines[0]);
      assert 2 <= |t|;
      assert Tokens(lines)[0] == t[0] && Tokens(lines)[1] == t[1];
    }
  }

  /** With no `=` or `;` in i..e and one at e, the first is at e. */
  lemma {:induction false} FirstTerminatorAt(ks: seq<Kind>, i: nat, e: nat)
    requires i <= e < |ks| && IsTerminator(ks[e])
    requires forall k :: i <= k < e ==> !IsTerminator(ks[k])
    ensures FirstTerminator(ks, i) == e
    decreases e - i
  {
    if i < e {
      FirstTerminatorAt(ks, i + 1, e);
    }
  }

  /** No computation is written with an `=` or a `;`. */
  lemma ShapeNoTerminator(c: Comp)
    ensures forall k :: 0 <= k < |Shape(c)| ==> !IsTerminator(Shape(c)[k])
  {
  }

  // ---------------------------------------------------------------------------
  // One line at a time

  lemma LettersOne(k: Kind)
    requires k.Str?
    ensures Letters([k]) == k.text && AllNames([k])
  {
    assert [k][1..] == [];
  }

  /** A slice equal to a concatenation splits into two slices. */
  lemma SplitSlice(ks: seq<Kind>, i: nat, u: seq<Kind>, v: seq<Kind>)
    requires i + |u| + |v| <= |ks| && ks[i..i + |u| + |v|] == u + v
    ensures ks[i..i + |u|] == u && ks[i + |u|..i + |u| + |v|] == v
  {
    assert ks[i..i + |u|] == (u + v)[..|u|];
    assert ks[i + |u|..i + |u| + |v|] == (u + v)[|u|..];
  }

  /** A written destination followed by `=`: get_dest reads the mask back
      and the first terminator is that `=`. */
  lemma DestAt(ks: seq<Kind>, i: nat, d: Dest)
    requires d != 0 && i + 1 < |ks| && ks[i] == Str(DestName(d)) && ks[i + 1] == Equals
    ensures FirstTerminator(ks, i) == i + 1
    ensures GetDest(ks, i) == Success((d, i + 1))
  {
    FirstTerminatorAt(ks, i, i + 1);
    assert ks[i..i + 1] == [Str(DestName(d))];
    LettersOne(Str(DestName(d)));
    DestNameSpec(d);
    GetDestSpec(ks, i, i + 1);
  }

  /** The tokens of a computation line at i: the destination up to a, the
      computation up to e, the jump up to f. */
  predicate ComputeAt(ks: seq<Kind>, i: nat, c: Comp, d: Dest, j: Jump, a: nat, e: nat, f: nat)
  {
    && a == i + |DestTokens(d)| && e == a + |Shape(c)| && f == e + |JumpTokens(j)| && f <= |ks|
    && ks[i..a] == DestTokens(d) && ks[a..e] == Shape(c) && ks[e..f] == JumpTokens(j)
  }

  /** The jump after an assignment's computation ending at e. */
  lemma OptionalJumpAt(ks: seq<Kind>, j: Jump, e: nat, f: nat)
    requires e <= f <= |ks| && ks[e..f] == JumpTokens(j)
    requires j == NoJump ==> LineStart(ks, e)
    ensures OptionalJump(ks, e) == Success((j, f))
  {
    if j != NoJump {
      assert ks[e] == ks[e..f][0] && ks[e + 1] == ks[e..f][1];
      GetJumpNames(ks, e + 1, j);
    }
  }

  /** parse_compute when the first terminator from i, at t, is `=`, the
      destination ends right before it and the computation and the optional
      jump follow it. */
  lemma AssignBranch(ks: seq<Kind>, i: nat, t: nat, c: Comp, d: Dest, j: Jump, e: nat, f: nat)
    requires i < t < |ks| && FirstTerminator(ks, i) == t && ks[t] == Equals
    requires GetDest(ks, i) == Success((d, t)) && GetComp(ks, t + 1) == Success((c, e))
    requires e <= |ks| && OptionalJump(ks, e) == Success((j, f))
    ensures ParseCompute(ks, i) == Success((Compute(c, d, j), f))
  {
  }

  /** parse_compute when the first terminator from i, at t, is `;`, the
      computation ends right before it and a jump name follows it. */
  lemma JumpBranch(ks: seq<Kind>, i: nat, t: nat, c: Comp, j: Jump)
    requires i < t < |ks| && FirstTerminator(ks, i) == t && ks[t] == SColon
    requires GetComp(ks, i) == Success((c, t)) && GetJump(ks, t + 1) == Success((j, t + 2))
    ensures ParseCompute(ks, i) == Success((Compute(c, 0, j), t + 2))
  {
  }

  /** The computation of a dest=comp line, read after the `=`. */
  lemma CompAfterDest(ks: seq<Kind>, i: nat, c: Comp, d: Dest, j: Jump, a: nat, e: nat, f: nat)
    requires ComputeAt(ks, i, c, d, j, a, e, f)
    requires j == NoJump ==> LineStart(ks, e)
    ensures GetComp(ks, a) == Success((c, e))
  {
    if j != NoJump {
      assert ks[e] == ks[e..f][0];
    }
    GetCompShape(ks, a, c, e);
  }

  /** dest=comp or dest=comp;jump at i. */
  lemma DestComputeAt(ks: seq<Kind>, i: nat, c: Comp, d: Dest, j: Jump, a: nat, e: nat, f: nat)
    requires d != 0 && ComputeAt(ks, i, c, d, j, a, e, f)
    requires j == NoJump ==> LineStart(ks, e)
    ensures ParseCompute(ks, i) == Success((Compute(c, d, j), f))
  {
    assert a == i + 2 && ks[i] == ks[i..a][0] && ks[i + 1] == ks[i..a][1];
    DestAt(ks, i, d);
    CompAfterDest(ks, i, c, d, j, a, e, f);
    OptionalJumpAt(ks, j, e, f);
    AssignBranch(ks, i, i + 1, c, d, j, e, f);
  }

  /** A written computation followed by `=` or `;` ends at the first
      terminator. */
  lemma ShapeTerminatorAt(ks: seq<Kind>, i: nat, c: Comp, e: nat)
    requires e == i + |Shape(c)| < |ks| && ks[i..e] == Shape(c) && IsTerminator(ks[e])
    ensures FirstTerminator(ks, i) == e
  {
    ShapeNoTerminator(c);
    assert forall k :: i <= k < e ==> ks[k] == ks[i..e][k - i];
    FirstTerminatorAt(ks, i, e);
  }

  /** The `;` and the jump of a comp;jump line at i. */
  lemma JumpTokensAt(ks: seq<Kind>, i: nat, c: Comp, j: Jump, e: nat, f: nat)
    requires j != NoJump && ComputeAt(ks, i, c, 0, j, i, e, f)
    ensures f == e + 2 && ks[e] == SColon && ks[e + 1] == Str(JumpName(j))
  {
    assert ks[e] == ks[e..f][0] && ks[e + 1] == ks[e..f][1];
  }

  /** comp;jump at i. */
  lemma JumpComputeAt(ks: seq<Kind>, i: nat, c: Comp, j: Jump, e: nat, f: nat)
    requires j != NoJump && ComputeAt(ks, i, c, 0, j, i, e, f)
    ensures ParseCompute(ks, i) == Success((Compute(c, 0, j), f))
  {
    JumpTokensAt(ks, i, c, j, e, f);
    ShapeTerminatorAt(ks, i, c, e);
    GetCompShape(ks, i, c, e);
    GetJumpNames(ks, e + 1, j);
    JumpBranch(ks, i, e, c, j);
  }

  /** The parts of a written computation line at i, of n tokens. */
  lemma ComputeLineParts(ks: seq<Kind>, i: nat, c: Comp, d: Dest, j: Jump, n: nat, a: nat, e: nat)
    requires n == |LineTokens(Instr(Compute(c, d, j)))|
    requires i + n <= |ks| && ks[i..i + n] == LineTokens(Instr(Compute(c, d, j)))
    requires a == i + |DestTokens(d)| && e == a + |Shape(c)|
    ensures ComputeAt(ks, i, c, d, j, a, e, i + n)
  {
    var ds, cs, js := DestTokens(d), Shape(c), JumpTokens(j);
    SplitSlice(ks, i, ds + cs, js);
    SplitSlice(ks, i, ds, cs);
  }

  /** A written computation line at i, up to f, followed by the start of a
      line: parse_compute reads it back and stops right after it. */
  lemma ComputeLine(ks: seq<Kind>, i: nat, c: Comp, d: Dest, j: Jump, a: nat, e: nat, f: nat)
    requires d != 0 || j != NoJump
    requires ComputeAt(ks, i, c, d, j, a, e, f) && LineStart(ks, f)
    ensures ParseCompute(ks, i) == Success((Compute(c, d, j), f))
  {
    if d != 0 {
      DestComputeAt(ks, i, c, d, j, a, e, f);
    } else {
      JumpComputeAt(ks, i, c, j, e, f);
    }
  }

  /** A written computation line opens with a name or an integer, so the
      loop of set_insts hands it to parse_compute. */
  lemma ComputeLineOpens(ks: seq<Kind>, i: nat, c: Comp, d: Dest, j: Jump, a: nat, e: nat, f: nat)
    requires WritableLine(Instr(Compute(c, d, j)))
    requires ComputeAt(ks, i, c, d, j, a, e, f)
    ensures i < |ks| && (ks[i].Str? || ks[i].Int?)
  {
    if d != 0 {
      assert ks[i] == ks[i..a][0];
    } else {
      assert ks[i] == ks[a..e][0];
    }
  }

  /** The tokens of line l, n of them, at i in ks, followed by the start of
      a line, l being a line the parser reads back. */
  predicate LineAt(ks: seq<Kind>, i: nat, l: Line, n: nat)
  {
    && WritableLine(l) && n == |LineTokens(l)|
    && i + n <= |ks| && ks[i..i + n] == LineTokens(l) && LineStart(ks, i + n)
  }

  /** The tokens of written lines, from i to the end of ks. */
  predicate WrittenAt(ks: seq<Kind>, i: nat, lines: seq<Line>)
  {
    i <= |ks| && ks[i..] == Tokens(lines) && Writable(lines)
  }

  /** parse_compute reads a written computation line back. */
  lemma ComputeLineReads(ks: seq<Kind>, i: nat, c: Comp, d: Dest, j: Jump, n: nat)
    requires LineAt(ks, i, Instr(Compute(c, d, j)), n)
    ensures i < |ks| && (ks[i].Str? || ks[i].Int?) && i + n <= |ks|
    ensures ParseCompute(ks, i) == Success((Compute(c, d, j), i + n))
  {
    var a := i + |DestTokens(d)|;
    var e := a + |Shape(c)|;
    ComputeLineParts(ks, i, c, d, j, n, a, e);
    ComputeLine(ks, i, c, d, j, a, e, i + n);
    ComputeLineOpens(ks, i, c, d, j, a, e, i + n);
  }

  /** The loop at a computation that parse_compute reads up to i + n. */
  lemma ComputeStepAt(lim: Limits, ks: seq<Kind>, i: nat, inst: Inst, n: nat, p: Program)
    requires lim.Valid() && |p.insts| <= lim.insts
    requires i < |ks| && (ks[i].Str? || ks[i].Int?) && i + n <= |ks|
    requires ParseCompute(ks, i) == Success((inst, i + n))
    ensures SetInstsFrom(lim, ks, i, p) ==
      if |p.insts| < lim.insts
      then SetInstsFrom(lim, ks, i + n, Program(p.insts + [inst], p.labels))
      else Failure
  {
    LoopAtCompute(lim, ks, i, p);
    ComputeStepOf(lim, ks, i, inst, i + n, p);
  }

  /** At a name or an integer the loop takes a computation step (ComputeStep). */
  lemma LoopAtCompute(lim: Limits, ks: seq<Kind>, i: nat, p: Program)
    requires lim.Valid() && |p.insts| <= lim.insts
    requires i < |ks| && (ks[i].Str? || ks[i].Int?)
    ensures SetInstsFrom(lim, ks, i, p) == ComputeStep(lim, ks, i, p)
  {
  }

  lemma ComputeStepOf(lim: Limits, ks: seq<Kind>, i: nat, inst: Inst, f: nat, p: Program)
    requires lim.Valid() && |p.insts| <= lim.insts
    requires i < |ks| && f <= |ks| && ParseCompute(ks, i) == Success((inst, f))
    ensures ComputeStep(lim, ks, i, p) ==
      if |p.insts| < lim.insts
      then SetInstsFrom(lim, ks, f, Program(p.insts + [inst], p.labels))
      else Failure
  {
  }

  /** An address line at i: parse_address reads it back. */
  lemma AddressLine(ks: seq<Kind>, i: nat, inst: Inst, n: nat)
    requires LineAt(ks, i, Instr(inst), n) && !inst.Compute?
    ensures n == 2 && ks[i] == At && ParseAddress(ks, i + 1) == Success((inst, i + 2))
  {
    assert ks[i] == ks[i..i + 2][0] && ks[i + 1] == ks[i..i + 2][1];
  }

  /** The loop at an `@` whose address parse_address reads from i + 1. */
  lemma AddressStepAt(lim: Limits, ks: seq<Kind>, i: nat, inst: Inst, p: Program)
    requires lim.Valid() && |p.insts| <= lim.insts
    requires i + 2 <= |ks| && ks[i] == At
    requires ParseAddress(ks, i + 1) == Success((inst, i + 2))
    ensures SetInstsFrom(lim, ks, i, p) ==
      if |p.insts| < lim.insts
      then SetInstsFrom(lim, ks, i + 2, Program(p.insts + [inst], p.labels))
      else Failure
  {
  }

  /** One instruction line at i, of n tokens: the loop appends the
      instruction, within the capacity, and carries on after the line. */
  lemma InstrLine(lim: Limits, ks: seq<Kind>, i: nat, inst: Inst, n: nat, p: Program)
    requires lim.Valid() && |p.insts| <= lim.insts
    requires LineAt(ks, i, Instr(inst), n)
    ensures SetInstsFrom(lim, ks, i, p) ==
      if |p.insts| < lim.insts
      then SetInstsFrom(lim, ks, i + n, Program(p.insts + [inst], p.labels))
      else Failure
  {
    if inst.Compute? {
      ComputeLineReads(ks, i, inst.comp, inst.dest, inst.jump, n);
      ComputeStepAt(lim, ks, i, inst, n, p);
    } else {
      AddressLine(ks, i, inst, n);
      AddressStepAt(lim, ks, i, inst, p);
    }
  }

  /** One label line at i: the loop binds the label to the number of
      instructions so far and carries on after the line. */
  lemma LabelLine(lim: Limits, ks: seq<Kind>, i: nat, name: string, n: nat, p: Program)
    requires lim.Valid() && |p.insts| <= lim.insts
    requires LineAt(ks, i, Label(name), n)
    ensures SetInstsFrom(lim, ks, i, p) ==
      match Insert(p.labels, name, |p.insts|)
      case Success(labels) => SetInstsFrom(lim, ks, i + n, Program(p.insts, labels))
      case Failure => Failure
  {
    assert ks[i] == ks[i..i + 3][0] && ks[i + 1] == ks[i..i + 3][1] && ks[i + 2] == ks[i..i + 3][2];
  }

  lemma LineStartShift(ks: seq<Kind>, e: nat)
    requires e <= |ks| && LineStart(ks[e..], 0)
    ensures LineStart(ks, e)
  {
    if e < |ks| {
      assert ks[e] == ks[e..][0];
    }
  }

  lemma WritableTail(lines: seq<Line>)
    requires |lines| != 0 && Writable(lines)
    ensures WritableLine(lines[0]) && Writable(lines[1..])
  {
    assert forall k :: 0 <= k < |lines| - 1 ==> lines[1..][k] == lines[k + 1];
  }

  // ---------------------------------------------------------------------------
  // The round trip

  /** The first of the written lines at i, of n tokens, and the rest after it. */
  lemma HeadLine(ks: seq<Kind>, i: nat, lines: seq<Line>, n: nat)
    requires |lines| != 0 && n == |LineTokens(lines[0])| && WrittenAt(ks, i, lines)
    ensures LineAt(ks, i, lines[0], n) && WrittenAt(ks, i + n, lines[1..])
  {
    var t, rest := LineTokens(lines[0]), lines[1..];
    WritableTail(lines);
    assert ks[i..] == t + Tokens(rest);
    assert ks[i..i + n] == t by {
      assert ks[i..i + n] == ks[i..][..n];
    }
    assert ks[i + n..] == Tokens(rest) by {
      assert ks[i + n..] == ks[i..][n..];
    }
    TokensStart(rest);
    LineStartShift(ks, i + n);
  }

  /** The loop of set_insts over the tokens of written lines, from any state,
      does what the lines describe. */
  lemma {:induction false} ParseWrittenFrom(lim: Limits, ks: seq<Kind>, i: nat, lines: seq<Line>, p: Program)
    requires lim.Valid() && |p.insts| <= lim.insts && WrittenAt(ks, i, lines)
    ensures SetInstsFrom(lim, ks, i, p) == Place(lim, lines, p)
    decreases |lines|
  {
    if |lines| == 0 {
      assert i == |ks|;
    } else {
      var n := |LineTokens(lines[0])|;
      HeadLine(ks, i, lines, n);
      if lines[0].Instr? {
        var p' := Program(p.insts + [lines[0].inst], p.labels);
        if |p.insts| < lim.insts {
          ParseWrittenFrom(lim, ks, i + n, lines[1..], p');
        }
        InstrCase(lim, ks, i, lines, n, p);
      } else {
        var r := Insert(p.labels, lines[0].name, |p.insts|);
        if r.Success? {
          ParseWrittenFrom(lim, ks, i + n, lines[1..], Program(p.insts, r.value));
        }
        LabelCase(lim, ks, i, lines, n, p);
      }
    }
  }

  /** The induction step at an instruction line, given the rest. */
  lemma InstrCase(lim: Limits, ks: seq<Kind>, i: nat, lines: seq<Line>, n: nat, p: Program)
    requires lim.Valid() && |p.insts| <= lim.insts
    requires |lines| != 0 && lines[0].Instr? && LineAt(ks, i, lines[0], n)
    requires |p.insts| < lim.insts ==>
      var p' := Program(p.insts + [lines[0].inst], p.labels);
      SetInstsFrom(lim, ks, i + n, p') == Place(lim, lines[1..], p')
    ensures SetInstsFrom(lim, ks, i, p) == Place(lim, lines, p)
  {
    InstrLine(lim, ks, i, lines[0].inst, n, p);
    PlaceInstr(lim, lines, lines[0].inst, p);
  }

  /** The induction step at a label line, given the rest. */
  lemma LabelCase(lim: Limits, ks: seq<Kind>, i: nat, lines: seq<Line>, n: nat, p: Program)
    requires lim.Valid() && |p.insts| <= lim.insts
    requires |lines| != 0 && lines[0].Label? && LineAt(ks, i, lines[0], n)
    requires Insert(p.labels, lines[0].name, |p.insts|).Success? ==>
      var p' := Program(p.insts, Insert(p.labels, lines[0].name, |p.insts|).value);
      SetInstsFrom(lim, ks, i + n, p') == Place(lim, lines[1..], p')
    ensures SetInstsFrom(lim, ks, i, p) == Place(lim, lines, p)
  {
    LabelLine(lim, ks, i, lines[0].name, n, p);
    PlaceLabel(lim, lines, lines[0].name, p);
  }

  lemma PlaceInstr(lim: Limits, lines: seq<Line>, inst: Inst, p: Program)
    requires lim.Valid() && |p.insts| <= lim.insts
    requires |lines| != 0 && lines[0] == Instr(inst)
    ensures Place(lim, lines, p) ==
      if |p.insts| < lim.insts
      then Place(lim, lines[1..], Program(p.insts + [inst], p.labels))
      else Failure
  {
  }

  lemma PlaceLabel(lim: Limits, lines: seq<Line>, name: string, p: Program)
    requires lim.Valid() && |p.insts| <= lim.insts
    requires |lines| != 0 && lines[0] == Label(name)
    ensures Place(lim, lines, p) ==
      match Insert(p.labels, name, |p.insts|)
      case Success(labels) => Place(lim, lines[1..], Program(p.insts, labels))
      case Failure => Failure
  {
  }

  /** set_insts on the tokens of written lines yields what the lines
      describe, from no instructions and an empty label table. */
  lemma ParseWritten(lim: Limits, lines: seq<Line>)
    requires lim.Valid() && Writable(lines)
    ensures Parse(lim, Tokens(lines)) == Place(lim, lines, Program([], Empty(lim.labels)))
  {
    ParseWrittenFrom(lim, Tokens(lines), 0, lines, Program([], Empty(lim.labels)));
  }
}
