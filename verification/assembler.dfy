/** The whole run of src/main.cpp on one source text: read it, lex it,
    parse it into instructions and labels, resolve the symbolic addresses
    and emit the binary text. Reading and writing files is left to the
    caller: the text comes in and the output text comes out. */
module Assembler {
  import opened Results
  import opened Syntax
  import opened Hash
  import opened Lexer
  import opened Parser
  import opened Written
  import opened Resolver
  import opened Encoder

  /** main: set_chars_from_file (the text and its terminating NUL must fit
      the character capacity), set_tokens, set_insts, resolve_labels and
      emit. */
  function Assemble(lim: Limits, text: string): (r: Result<string>)
    requires lim.Valid()
    ensures r.Success? ==> |text| + 1 < lim.chars
    ensures r.Success? ==> |r.value| < lim.chars && Unrecords(r.value).Some?
  {
    if lim.chars <= |text| + 1 then Failure
    else
      var toks :- Lex(lim, text);
      var p :- Parse(lim, Kinds(toks));
      var insts :- Resolve(lim, p.labels, p.insts);
      var out :- Emit(lim, insts);
      EmitRoundTrip(lim, insts);
      Success(out)
  }

  /** The instructions placed from written lines are the lines' own
      instructions, after those already there. */
  lemma {:induction false} PlaceInsts(lim: Limits, lines: seq<Line>, p: Program)
    requires lim.Valid() && |p.insts| <= lim.insts
    requires Place(lim, lines, p).Success?
    ensures Place(lim, lines, p).value.insts == p.insts + Insts(lines)
    decreases |lines|
  {
    if |lines| != 0 {
      match lines[0]
      case Instr(inst) =>
        var insts := p.insts + [inst];
        PlaceInsts(lim, lines[1..], Program(insts, p.labels));
        assert insts + Insts(lines[1..]) == p.insts + Insts(lines);
      case Label(name) =>
        var labels := Insert(p.labels, name, |p.insts|).value;
        PlaceInsts(lim, lines[1..], Program(p.insts, labels));
    }
  }

  /** What the parser builds from written lines. */
  function Placed(lim: Limits, lines: seq<Line>): Result<Program>
    requires lim.Valid()
  {
    Place(lim, lines, Program([], Empty(lim.labels)))
  }

  /** Line m is the last definition of the label `name`. */
  predicate LastLabel(lines: seq<Line>, name: string, m: nat)
  {
    && m < |lines|
    && lines[m] == Label(name)
    && forall k :: m < k < |lines| ==> lines[k] != Label(name)
  }

  /** A label is bound to the number of instructions before its last
      definition: a later definition of the same name overwrites an earlier
      one. */
  lemma PlacedLabels(lim: Limits, lines: seq<Line>, name: string, m: nat)
    requires lim.Valid() && Placed(lim, lines).Success? && LastLabel(lines, name, m)
    ensures var found := Lookup(Placed(lim, lines).value.labels, name);
      found.Success? && found.value.Some? && found.value.value == |Insts(lines[..m])|
  {
    EmptyValid<U15>(lim.labels);
    PlaceLabels(lim, lines, Program([], Empty(lim.labels)), name, m);
  }

  /** A name never defined as a label is not a label after placing. */
  lemma PlacedUnlabelled(lim: Limits, lines: seq<Line>, name: string)
    requires lim.Valid() && Placed(lim, lines).Success?
    requires forall k :: 0 <= k < |lines| ==> lines[k] != Label(name)
    ensures !IsLabel(Placed(lim, lines).value.labels, name)
  {
    EmptyValid<U15>(lim.labels);
    PlaceKeeps(lim, lines, Program([], Empty(lim.labels)), name);
  }

  lemma {:induction false} PlaceLabels(lim: Limits, lines: seq<Line>, p: Program, name: string, m: nat)
    requires lim.Valid() && |p.insts| <= lim.insts && Valid(p.labels)
    requires Place(lim, lines, p).Success? && LastLabel(lines, name, m)
    ensures var found := Lookup(Place(lim, lines, p).value.labels, name);
      found.Success? && found.value.Some? && found.value.value == |p.insts| + |Insts(lines[..m])|
    decreases |lines|
  {
    var result := Place(lim, lines, p).value;
    match lines[0]
    case Instr(inst) =>
      var q := Program(p.insts + [inst], p.labels);
      PlaceInstr(lim, lines, inst, p);
      InstsPrefix(lines, m);
      PlaceLabels(lim, lines[1..], q, name, m - 1);
    case Label(other) =>
      PlaceLabel(lim, lines, other, p);
      var labels := Insert(p.labels, other, |p.insts|).value;
      InsertValid(p.labels, other, |p.insts|);
      var q := Program(p.insts, labels);
      assert result == Place(lim, lines[1..], q).value;
      if m == 0 {
        InsertThenLookup(p.labels, other, |p.insts|);
        PlaceKeeps(lim, lines[1..], q, name);
        assert lines[..m] == [];
      } else {
        InstsPrefix(lines, m);
        PlaceLabels(lim, lines[1..], q, name, m - 1);
      }
  }

  /** The instructions before line m, counted from the first line. */
  lemma InstsPrefix(lines: seq<Line>, m: nat)
    requires 0 < m <= |lines|
    ensures Insts(lines[..m]) == (if lines[0].Instr? then [lines[0].inst] else []) + Insts(lines[1..][..m - 1])
  {
    assert lines[..m][1..] == lines[1..][..m - 1];
  }

  /** Placing lines that do not define `name` keeps what `name` looks up to,
      as far as it is a label. */
  lemma {:induction false} PlaceKeeps(lim: Limits, lines: seq<Line>, p: Program, name: string)
    requires lim.Valid() && |p.insts| <= lim.insts && Valid(p.labels)
    requires Place(lim, lines, p).Success?
    requires forall k :: 0 <= k < |lines| ==> lines[k] != Label(name)
    ensures IsLabel(p.labels, name) ==> Lookup(Place(lim, lines, p).value.labels, name) == Lookup(p.labels, name)
    ensures !IsLabel(p.labels, name) ==> !IsLabel(Place(lim, lines, p).value.labels, name)
    decreases |lines|
  {
    if |lines| != 0 {
      match lines[0]
      case Instr(inst) =>
        PlaceKeeps(lim, lines[1..], Program(p.insts + [inst], p.labels), name);
      case Label(other) =>
        var labels := Insert(p.labels, other, |p.insts|).value;
        InsertValid(p.labels, other, |p.insts|);
        InsertFrame(p.labels, other, |p.insts|, name);
        PlaceKeeps(lim, lines[1..], Program(p.insts, labels), name);
    }
  }

  /** The text of written lines: their tokens laid out with blanks and
      comments before, between and after them (see Lexer.Layout), within the
      token capacity. */
  predicate Rendered(lim: Limits, lines: seq<Line>, lead: string, gaps: seq<string>)
  {
    && Layout(Tokens(lines), gaps)
    && |gaps| <= lim.tokens
    && Gap(lead, |gaps| == 0)
  }

  /** End to end: assembling the text of written lines yields records that
      read back as the lines' instructions, each symbol replaced by its
      label's value or by the address of its variable (16 + its position in
      order of first use). */
  lemma AssembleWritten(lim: Limits, lines: seq<Line>, lead: string, gaps: seq<string>)
    requires lim.Valid() && Writable(lines) && Rendered(lim, lines, lead, gaps)
    requires Assemble(lim, lead + Render(Tokens(lines), gaps)).Success?
    ensures Placed(lim, lines).Success?
    ensures var labels := Placed(lim, lines).value.labels;
      && Unrecords(Assemble(lim, lead + Render(Tokens(lines), gaps)).value).Some?
      && var out := Unrecords(Assemble(lim, lead + Render(Tokens(lines), gaps)).value).value;
      && |out| == |Insts(lines)|
      && forall k :: 0 <= k < |out| ==>
           ResolvedAs(labels, VarNames(labels, Insts(lines)), Insts(lines)[k], out[k])
  {
    var text := lead + Render(Tokens(lines), gaps);
    LexRender(lim, lead, Tokens(lines), gaps);
    ParseWritten(lim, lines);
    var p := Parse(lim, Kinds(Lex(lim, text).value)).value;
    PlaceInsts(lim, lines, Program([], Empty(lim.labels)));
    assert p.insts == Insts(lines);
    var insts := Resolve(lim, p.labels, p.insts).value;
    ResolveSound(lim, p.labels, p.insts);
    EmitRoundTrip(lim, insts);
  }

  /** Resolution leaves a program without symbols as it is. */
  lemma {:induction false} ResolveNoSymbols(labels: Table<U15>, vars: Table<U15>, insts: seq<Inst>)
    requires Fits(vars)
    requires forall k :: 0 <= k < |insts| ==> !insts[k].Unresolved?
    ensures ResolveFrom(labels, vars, insts) == Success((insts, vars))
    decreases |insts|
  {
    if |insts| != 0 {
      ResolveNoSymbols(labels, vars, insts[1..]);
      assert [insts[0]] + insts[1..] == insts;
    }
  }

  /** Assembling the text of written lines without symbols, when it fits the
      capacities, emits exactly the lines' instructions. */
  lemma AssembleNoSymbols(lim: Limits, lines: seq<Line>, lead: string, gaps: seq<string>)
    requires lim.Valid() && Writable(lines) && Rendered(lim, lines, lead, gaps)
    requires |lead + Render(Tokens(lines), gaps)| + 1 < lim.chars
    requires Placed(lim, lines).Success?
    requires forall k :: 0 <= k < |Insts(lines)| ==> !Insts(lines)[k].Unresolved?
    ensures Assemble(lim, lead + Render(Tokens(lines), gaps)) == Emit(lim, Insts(lines))
  {
    var text := lead + Render(Tokens(lines), gaps);
    LexRender(lim, lead, Tokens(lines), gaps);
    ParseWritten(lim, lines);
    var p := Parse(lim, Kinds(Lex(lim, text).value)).value;
    PlaceInsts(lim, lines, Program([], Empty(lim.labels)));
    assert p.insts == Insts(lines);
    EmptyFits(lim);
    ResolveNoSymbols(p.labels, Empty(lim.vars), p.insts);
  }

  lemma EmptyFits(lim: Limits)
    requires lim.Valid()
    ensures Fits(Empty<U15>(lim.vars))
  {
  }

  /** The program `@2 D=A @3 D=D+A @0 M=D`, which adds 2 and 3 into RAM[0]. */
  const AddLines: seq<Line> := [
    Instr(Address(2)), Instr(Compute(Comp.A, 2, NoJump)),
    Instr(Address(3)), Instr(Compute(DPlusA, 2, NoJump)),
    Instr(Address(0)), Instr(Compute(Comp.D, 1, NoJump))]

  /** The lines of the program's text. */
  const AddText: seq<string> := ["@2\n", "D=A\n", "@3\n", "D=D+A\n", "@0\n", "M=D\n"]

  /** The tokens of each line of the program, and what follows each token:
      nothing inside a line, a newline at its end. */
  const AddKinds: seq<seq<Kind>> := [
    [At, Int(2)], [Str("D"), Equals, Str("A")], [At, Int(3)],
    [Str("D"), Equals, Str("D"), Plus, Str("A")], [At, Int(0)], [Str("M"), Equals, Str("D")]]
  const AddGaps: seq<seq<string>> := [
    ["", "\n"], ["", "", "\n"], ["", "\n"], ["", "", "", "", "\n"], ["", "\n"], ["", "", "\n"]]

  /** Sequences joined in order. */
  function Concat<T>(xs: seq<seq<T>>): seq<T>
  {
    if |xs| == 0 then [] else xs[0] + Concat(xs[1..])
  }

  /** Written one instruction per line with no blanks, the program assembles
      to the six records of its binary. */
  lemma AddProgram()
    ensures Assemble(Source, "@2\nD=A\n@3\nD=D+A\n@0\nM=D\n")
      == Success(Join(["0000000000000010\n", "1110110000010000\n", "0000000000000011\n",
                       "1110000010010000\n", "0000000000000000\n", "1110001100001000\n"]))
  {
    AddTokens(6);
    AddRendered();
    AddRender();
    AddWritable();
    AddPlaced();
    AddInsts();
    AddJoined();
    AssembleNoSymbols(Source, AddLines, "", Concat(AddGaps));
    assert "" + Join(AddText) == Join(AddText);
    AddExample();
  }

  /** The tokens of the last n lines. */
  lemma {:induction false} AddTokens(n: nat)
    requires n <= 6
    ensures Tokens(AddLines[6 - n..]) == Concat(AddKinds[6 - n..])
  {
    if n != 0 {
      AddTokens(n - 1);
      AddLineTokens(6 - n);
      assert AddLines[6 - n..][1..] == AddLines[6 - n + 1..];
      assert AddKinds[6 - n..][1..] == AddKinds[6 - n + 1..];
    }
  }

  lemma AddLineTokens(k: nat)
    requires k < 6
    ensures LineTokens(AddLines[k]) == AddKinds[k]
  {
    if k == 1 {
      assert DestName(2) == "" + "" + "D" == "D";
      assert LineTokens(AddLines[k]) == [Str("D"), Equals] + [Str("A")] + [];
    } else if k == 3 {
      assert DestName(2) == "" + "" + "D" == "D";
      assert LineTokens(AddLines[k]) == [Str("D"), Equals] + [Str("D"), Plus, Str("A")] + [];
    } else if k == 5 {
      assert DestName(1) == "" + "M" + "" == "M";
      assert LineTokens(AddLines[k]) == [Str("M"), Equals] + [Str("D")] + [];
    }
  }

  /** Lines rendered one by one and joined are the rendering of all their
      tokens with all their gaps. */
  lemma {:induction false} RenderConcat(ks: seq<seq<Kind>>, gs: seq<seq<string>>, ts: seq<string>)
    requires |ks| == |gs| == |ts|
    requires forall i :: 0 <= i < |ks| ==> |ks[i]| == |gs[i]| && Render(ks[i], gs[i]) == ts[i]
    ensures |Concat(ks)| == |Concat(gs)|
    ensures Render(Concat(ks), Concat(gs)) == Join(ts)
  {
    if |ks| != 0 {
      RenderConcat(ks[1..], gs[1..], ts[1..]);
      RenderAppend(ks[0], gs[0], Concat(ks[1..]), Concat(gs[1..]));
    }
  }

  /** The text of the program is the rendering of its tokens and gaps. */
  lemma AddRender()
    ensures |Concat(AddKinds)| == |Concat(AddGaps)|
    ensures Render(Concat(AddKinds), Concat(AddGaps)) == Join(AddText)
  {
    forall i | 0 <= i < 6
      ensures |AddKinds[i]| == |AddGaps[i]| && Render(AddKinds[i], AddGaps[i]) == AddText[i]
    {
      AddLineRender(i);
    }
    RenderConcat(AddKinds, AddGaps, AddText);
  }

  lemma AddLineRender(k: nat)
    requires k < 6
    ensures |AddKinds[k]| == |AddGaps[k]|
    ensures Render(AddKinds[k], AddGaps[k]) == AddText[k]
  {
    if k == 0 || k == 2 || k == 4 {
      AddAddressRender(AddKinds[k], AddGaps[k], if k == 0 then 2 else if k == 2 then 3 else 0);
    } else if k == 3 {
      AddSumRender();
    } else {
      AddAssignRender(AddKinds[k], AddGaps[k], if k == 1 then 'D' else 'M', if k == 1 then 'A' else 'D');
    }
  }

  lemma AddAddressRender(ks: seq<Kind>, gaps: seq<string>, v: nat)
    requires v < 10 && ks == [At, Int(v)] && gaps == ["", "\n"]
    ensures Render(ks, gaps) == ['@', ('0' as int + v) as char, '\n']
  {
    assert DecimalText(v) == [('0' as int + v) as char];
    assert Render(ks[2..], gaps[2..]) == [];
    assert Render(ks[1..], gaps[1..]) == DecimalText(v) + "\n";
    assert Render(ks, gaps) == "@" + "" + (DecimalText(v) + "\n");
  }

  lemma AddAssignRender(ks: seq<Kind>, gaps: seq<string>, x: char, y: char)
    requires ks == [Str([x]), Equals, Str([y])] && gaps == ["", "", "\n"]
    ensures Render(ks, gaps) == [x, '=', y, '\n']
  {
    assert Render(ks[3..], gaps[3..]) == [];
    assert Render(ks[2..], gaps[2..]) == [y] + "\n";
    assert Render(ks[1..], gaps[1..]) == "=" + "" + ([y] + "\n");
    assert Render(ks, gaps) == [x] + "" + ("=" + "" + ([y] + "\n"));
  }

  lemma AddSumRender()
    ensures Render(AddKinds[3], AddGaps[3]) == AddText[3]
  {
    assert Render(AddKinds[3], AddGaps[3]) == "D" + "" + ("=" + "" + ("D" + "" + ("+" + "" + ("A" + "\n" + ""))));
  }

  /** Rendering distributes over appending. */
  lemma {:induction false} RenderAppend(a: seq<Kind>, g: seq<string>, b: seq<Kind>, h: seq<string>)
    requires |a| == |g| && |b| == |h|
    ensures Render(a + b, g + h) == Render(a, g) + Render(b, h)
    decreases |a|
  {
    if |a| == 0 {
      assert a + b == b && g + h == h;
    } else {
      RenderAppend(a[1..], g[1..], b, h);
      assert (a + b)[0] == a[0] && (a + b)[1..] == a[1..] + b;
      assert (g + h)[0] == g[0] && (g + h)[1..] == g[1..] + h;
    }
  }

  /** A layout whose last gap is closed: a line that others may follow. */
  predicate LineLayout(ks: seq<Kind>, gaps: seq<string>)
  {
    && Layout(ks, gaps)
    && 0 < |ks|
    && gaps[|ks| - 1] != []
    && Gap(gaps[|ks| - 1], false)
  }

  /** A line followed by any layout is a layout. */
  lemma LayoutAppend(a: seq<Kind>, g: seq<string>, b: seq<Kind>, h: seq<string>)
    requires LineLayout(a, g) && Layout(b, h)
    ensures Layout(a + b, g + h)
  {
    var ks, gs := a + b, g + h;
    forall j | 0 <= j < |ks|
      ensures LaidOut(ks, gs, j)
    {
      if j + 1 < |a| {
        assert LaidOut(a, g, j);
        assert ks[j] == a[j] && ks[j + 1] == a[j + 1] && gs[j] == g[j];
      } else if j + 1 == |a| {
        assert LaidOut(a, g, j);
        assert ks[j] == a[j] && gs[j] == g[j];
        GapWeaken(g[j]);
      } else {
        assert LaidOut(b, h, j - |a|);
        assert ks[j] == b[j - |a|] && gs[j] == h[j - |a|];
        if j + 1 < |ks| {
          assert ks[j + 1] == b[j - |a| + 1];
        }
      }
    }
  }

  /** Lines laid out one after the other make one layout. */
  lemma {:induction false} LayoutConcat(ks: seq<seq<Kind>>, gs: seq<seq<string>>)
    requires |ks| == |gs|
    requires forall i :: 0 <= i < |ks| ==> LineLayout(ks[i], gs[i])
    ensures Layout(Concat(ks), Concat(gs))
  {
    if |ks| != 0 {
      LayoutConcat(ks[1..], gs[1..]);
      assert LineLayout(ks[0], gs[0]);
      LayoutAppend(ks[0], gs[0], Concat(ks[1..]), Concat(gs[1..]));
    }
  }

  /** Each line of the program is laid out with a closing newline. */
  lemma AddLineLayout(k: nat)
    requires k < 6
    ensures LineLayout(AddKinds[k], AddGaps[k])
  {
    var ks, gs := AddKinds[k], AddGaps[k];
    assert "\n"[1..] == [];
    assert Gap("\n", false) && Gap("\n", true);
    forall j | 0 <= j < |ks|
      ensures LaidOut(ks, gs, j)
    {
    }
  }

  lemma AddRendered()
    ensures Rendered(Source, AddLines, "", Concat(AddGaps))
  {
    AddTokens(6);
    AddRender();
    forall i | 0 <= i < 6
      ensures LineLayout(AddKinds[i], AddGaps[i])
    {
      AddLineLayout(i);
    }
    LayoutConcat(AddKinds, AddGaps);
    assert |Concat(AddKinds)| == 17;
  }

  lemma AddWritable()
    ensures Writable(AddLines)
  {
  }

  lemma AddPlaced()
    ensures Placed(Source, AddLines).Success?
  {
  }

  lemma AddInsts()
    ensures Insts(AddLines) == [Address(2), Compute(Comp.A, 2, NoJump), Address(3),
                                Compute(DPlusA, 2, NoJump), Address(0), Compute(Comp.D, 1, NoJump)]
    ensures forall k :: 0 <= k < |Insts(AddLines)| ==> !Insts(AddLines)[k].Unresolved?
  {
  }

  /** The lines joined are the program's text, and it fits the character
      capacity. */
  lemma AddJoined()
    ensures Join(AddText) == "@2\nD=A\n@3\nD=D+A\n@0\nM=D\n"
    ensures |Join(AddText)| + 1 < Source.chars
  {
    assert AddText[1..][1..] == AddText[2..] && AddText[2..][1..] == AddText[3..];
    assert AddText[3..][1..] == AddText[4..] && AddText[4..][1..] == AddText[5..];
    assert AddText[5..][1..] == [];
    assert Join(AddText) == "@2\n" + ("D=A\n" + ("@3\n" + ("D=D+A\n" + ("@0\n" + ("M=D\n" + "")))));
  }
}
