/** The written forms of the 28 computations, and get_comp of src/main.cpp
    read against them: it recognises a computation exactly by its written
    tokens. */
module Comps {
  import opened Results
  import opened Syntax
  import opened Parser

  /** The tokens a computation is written with in Hack assembly. */
  function Shape(c: Comp): (ts: seq<Kind>)
    ensures 1 <= |ts| <= 3
  {
    match c
    case Zero => [Int(0)]
    case One => [Int(1)]
    case NegativeOne => [Minus, Int(1)]
    case D => [Str("D")]
    case A => [Str("A")]
    case M => [Str("M")]
    case NotD => [Bang, Str("D")]
    case NotA => [Bang, Str("A")]
    case NotM => [Bang, Str("M")]
    case NegativeD => [Minus, Str("D")]
    case NegativeA => [Minus, Str("A")]
    case NegativeM => [Minus, Str("M")]
    case DPlus1 => [Str("D"), Plus, Int(1)]
    case APlus1 => [Str("A"), Plus, Int(1)]
    case MPlus1 => [Str("M"), Plus, Int(1)]
    case DMinus1 => [Str("D"), Minus, Int(1)]
    case AMinus1 => [Str("A"), Minus, Int(1)]
    case MMinus1 => [Str("M"), Minus, Int(1)]
    case DPlusA => [Str("D"), Plus, Str("A")]
    case DPlusM => [Str("D"), Plus, Str("M")]
    case DMinusA => [Str("D"), Minus, Str("A")]
    case DMinusM => [Str("D"), Minus, Str("M")]
    case AMinusD => [Str("A"), Minus, Str("D")]
    case MMinusD => [Str("M"), Minus, Str("D")]
    case DAndA => [Str("D"), Ampers, Str("A")]
    case DAndM => [Str("D"), Ampers, Str("M")]
    case DOrA => [Str("D"), Pipe, Str("A")]
    case DOrM => [Str("D"), Pipe, Str("M")]
  }

  /** A computation written as a single register name. */
  predicate Lone(c: Comp) {
    c == D || c == A || c == M
  }

  predicate IsOperator(k: Kind) {
    k == Plus || k == Minus || k == Ampers || k == Pipe
  }

  /** What may follow a lone register for get_comp to stop after it: the end
      of the tokens, or at least two more tokens of which the first is no
      operator. */
  predicate Follows(ks: seq<Kind>, e: nat) {
    e == |ks| || (e + 1 < |ks| && !IsOperator(ks[e]))
  }

  /** The binary forms are recognised exactly by their written tokens. */
  lemma BinaryShape(s: string, op: Kind, right: Kind, c: Comp)
    ensures Binary(s, op, right) == Some(c) ==> Shape(c) == [Str(s), op, right]
  {
  }

  lemma BinaryComplete(s: string, op: Kind, right: Kind, c: Comp)
    ensures Shape(c) == [Str(s), op, right] ==> Binary(s, op, right) == Some(c)
  {
  }

  /** A register name picks the computation written as that name, alone or
      after `!` or `-`. */
  lemma PickShape(k: Kind, c: Comp)
    ensures Pick(k, D, A, M) == Success(c) ==> Shape(c) == [k]
    ensures Pick(k, NotD, NotA, NotM) == Success(c) ==> Shape(c) == [Bang, k]
    ensures Pick(k, NegativeD, NegativeA, NegativeM) == Success(c) ==> Shape(c) == [Minus, k]
  {
  }

  /** get_comp reads back every written computation and stops right after
      it, provided that a lone register is followed as above. */
  lemma GetCompShape(ks: seq<Kind>, i: nat, c: Comp, e: nat)
    requires e == i + |Shape(c)| <= |ks| && ks[i..e] == Shape(c)
    requires Lone(c) ==> Follows(ks, e)
    ensures GetComp(ks, i) == Success((c, e))
  {
    var n := |Shape(c)|;
    assert ks[i] == Shape(c)[0];
    if n == 3 {
      assert ks[i + 1] == Shape(c)[1];
      assert ks[i + 2] == Shape(c)[2];
      BinaryComplete(ks[i].text, ks[i + 1], ks[i + 2], c);
    } else if n == 2 {
      assert ks[i + 1] == Shape(c)[1];
    }
  }

  /** Whatever get_comp accepts, it accepts as the written tokens of the
      computation it returns. */
  lemma GetCompSound(ks: seq<Kind>, i: nat)
    ensures GetComp(ks, i).Success? ==>
      var (c, e) := GetComp(ks, i).value;
      e == i + |Shape(c)| <= |ks| && ks[i..e] == Shape(c)
  {
    var r := GetComp(ks, i);
    if r.Success? {
      var (c, e) := r.value;
      var left := ks[i];
      if left.Minus? && ks[i + 1] != Int(1) {
        PickShape(ks[i + 1], c);
      } else if left.Bang? {
        PickShape(ks[i + 1], c);
      } else if left.Str? && i + 2 < |ks| && Binary(left.text, ks[i + 1], ks[i + 2]).Some? {
        BinaryShape(left.text, ks[i + 1], ks[i + 2], c);
      } else if left.Str? {
        PickShape(left, c);
      }
      assert e <= |ks|;
      assert forall k :: i <= k < e ==> ks[k] == Shape(c)[k - i];
    }
  }

  /** A register followed by two tokens that write no computation is read
      as the register alone: get_comp steps back over the two tokens, which
      are left to begin the next instruction. */
  lemma GetCompFallback(ks: seq<Kind>, i: nat, c: Comp)
    requires Lone(c) && i + 2 < |ks| && ks[i] == Shape(c)[0]
    requires forall b: Comp :: Shape(b) != ks[i..i + 3]
    ensures GetComp(ks, i) == Success((c, i + 1))
  {
    var s := ks[i].text;
    if Binary(s, ks[i + 1], ks[i + 2]).Some? {
      var b := Binary(s, ks[i + 1], ks[i + 2]).value;
      BinaryShape(s, ks[i + 1], ks[i + 2], b);
      assert false;
    }
  }

  /** `A+D` is not among the written computations, so `D=A+D` reads the
      computation A and then fails on the `+` that is left over. */
  lemma FallbackRejects()
    ensures Parse(Source, [Str("D"), Equals, Str("A"), Plus, Str("D")]).Failure?
  {
    var ks := [Str("D"), Equals, Str("A"), Plus, Str("D")];
    forall b: Comp ensures Shape(b) != ks[2..5] {
      assert ks[2..5] == [Str("A"), Plus, Str("D")];
    }
    GetCompFallback(ks, 2, A);
  }
}
