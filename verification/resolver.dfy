/** resolve_labels of src/main.cpp: every symbolic address becomes a number.

  A name bound in the label table takes the label's value. Any other name is a
  variable: the variable table gives it the next free address from 16 the
  first time it is met, and the same address every later time. */
module Resolver {
  import opened Results
  import opened Syntax
  import opened Hash

  /** A variable table whose every address 16 + len stays within 15 bits, as
      the source's static assertion on CAP_VARS guarantees. */
  predicate Fits(vars: Table<U15>)
  {
    |vars.slots| <= MaxU15 - OffsetVars
  }

  /** One instruction of the loop: labels first, then known variables, then a
      new variable at 16 + the number of variables so far. The source computes
      that address before insert refuses a full table, so the address only
      matters once the table has room. */
  function ResolveOne(labels: Table<U15>, vars: Table<U15>, inst: Inst): (r: Result<(Inst, Table<U15>)>)
    requires Fits(vars)
    ensures r.Success? ==> !r.value.0.Unresolved? && |r.value.1.slots| == |vars.slots|
    ensures r.Success? && !inst.Unresolved? ==> r.value == (inst, vars)
  {
    match inst
    case Unresolved(name) =>
      var byLabel :- Lookup(labels, name);
      if byLabel.Some? then Success((Address(byLabel.value), vars))
      else
        var known :- Lookup(vars, name);
        if known.Some? then Success((Address(known.value), vars))
        else if |vars.slots| <= vars.len then Failure
        else
          var a: U15 := vars.len + OffsetVars;
          (match Insert(vars, name, a)
           case Success(vars') => Success((Address(a), vars'))
           case Failure => Failure)
    case _ => Success((inst, vars))
  }

  /** The loop of resolve_labels over the instructions, first to last. */
  function ResolveFrom(labels: Table<U15>, vars: Table<U15>, insts: seq<Inst>): (r: Result<(seq<Inst>, Table<U15>)>)
    requires Fits(vars)
    ensures r.Success? ==> |r.value.0| == |insts| && |r.value.1.slots| == |vars.slots|
    ensures r.Success? ==> forall k :: 0 <= k < |insts| ==> !r.value.0[k].Unresolved?
    decreases |insts|
  {
    if |insts| == 0 then Success(([], vars))
    else
      var (first, vars') :- ResolveOne(labels, vars, insts[0]);
      var (rest, vars'') :- ResolveFrom(labels, vars', insts[1..]);
      Success(([first] + rest, vars''))
  }

  /** resolve_labels, starting from an empty variable table of capacity
      `lim.vars`. */
  function Resolve(lim: Limits, labels: Table<U15>, insts: seq<Inst>): (r: Result<seq<Inst>>)
    requires lim.Valid()
    ensures r.Success? ==> |r.value| == |insts|
    ensures r.Success? ==> forall k :: 0 <= k < |insts| ==> !r.value[k].Unresolved?
  {
    var (out, _) :- ResolveFrom(labels, Empty(lim.vars), insts);
    Success(out)
  }

  // ---------------------------------------------------------------------------
  // The reference reading: variables in order of first use

  /** The position of the first occurrence of n in s. */
  function IndexOf(s: seq<string>, n: string): (m: nat)
    requires n in s
    ensures m < |s| && s[m] == n
    ensures forall k :: 0 <= k < m ==> s[k] != n
  {
    if s[0] == n then 0 else 1 + IndexOf(s[1..], n)
  }

  /** The label bound to a name, if the label table has one. */
  predicate IsLabel(labels: Table<U15>, n: string)
  {
    Lookup(labels, n).Success? && Lookup(labels, n).value.Some?
  }

  /** The variables seen after one more instruction: a symbolic name that is
      no label and not yet a variable becomes the next one. */
  function Note(labels: Table<U15>, seen: seq<string>, inst: Inst): seq<string>
  {
    if inst.Unresolved? && Lookup(labels, inst.name) == Success(None) && inst.name !in seen
    then seen + [inst.name]
    else seen
  }

  function VarsFrom(labels: Table<U15>, insts: seq<Inst>, seen: seq<string>): seq<string>
    decreases |insts|
  {
    if |insts| == 0 then seen else VarsFrom(labels, insts[1..], Note(labels, seen, insts[0]))
  }

  /** The variables of a program, each once, in order of first use. */
  function VarNames(labels: Table<U15>, insts: seq<Inst>): seq<string>
  {
    VarsFrom(labels, insts, [])
  }

  /** What an instruction must become: a label's value, else the address of
      its variable, 16 + the variable's position in order of first use; an
      instruction that is no symbol stays as it is. */
  predicate ResolvedAs(labels: Table<U15>, names: seq<string>, inst: Inst, r: Inst)
  {
    if !inst.Unresolved? then r == inst
    else if IsLabel(labels, inst.name) then r == Address(Lookup(labels, inst.name).value.value)
    else inst.name in names && r.Address? && r.value == OffsetVars + IndexOf(names, inst.name)
  }

  /** The variable table holds exactly the names of `seen`, each bound to 16
      plus its position. */
  ghost predicate Holds(vars: Table<U15>, seen: seq<string>)
  {
    && Valid(vars) && vars.len == |seen|
    && (forall n :: n in seen ==> Bound(vars, n, OffsetVars + IndexOf(seen, n)))
    && (forall n :: n !in seen ==> Unbound(vars, n))
  }

  predicate Bound(t: Table<U15>, n: string, a: nat)
  {
    Lookup(t, n).Success? && Lookup(t, n).value.Some? && Lookup(t, n).value.value == a
  }

  predicate Unbound(t: Table<U15>, n: string)
  {
    Lookup(t, n).Success? ==> Lookup(t, n).value.None?
  }

  // ---------------------------------------------------------------------------
  // Facts about the reference

  /** The first occurrence in a prefix is the first occurrence overall. */
  lemma {:induction false} IndexOfPrefix(s: seq<string>, t: seq<string>, n: string)
    requires n in s
    ensures n in s + t && IndexOf(s + t, n) == IndexOf(s, n)
  {
    if s[0] != n {
      assert (s + t)[1..] == s[1..] + t;
      IndexOfPrefix(s[1..], t, n);
    }
  }

  lemma IndexOfLast(s: seq<string>, n: string)
    requires n !in s
    ensures n in s + [n] && IndexOf(s + [n], n) == |s|
  {
    assert (s + [n])[|s|] == n;
  }

  /** The variables only ever grow at the end. */
  lemma {:induction false} VarsFromExtends(labels: Table<U15>, insts: seq<Inst>, seen: seq<string>)
    ensures |seen| <= |VarsFrom(labels, insts, seen)|
    ensures VarsFrom(labels, insts, seen)[..|seen|] == seen
    decreases |insts|
  {
    if |insts| != 0 {
      var seen' := Note(labels, seen, insts[0]);
      VarsFromExtends(labels, insts[1..], seen');
      assert seen'[..|seen|] == seen;
    }
  }

  /** What holds of an instruction for the variables so far holds for any
      extension of them. */
  lemma ResolvedAsExtends(labels: Table<U15>, s: seq<string>, t: seq<string>, inst: Inst, r: Inst)
    requires ResolvedAs(labels, s, inst, r)
    ensures ResolvedAs(labels, s + t, inst, r)
  {
    if inst.Unresolved? && !IsLabel(labels, inst.name) {
      IndexOfPrefix(s, t, inst.name);
    }
  }

  // ---------------------------------------------------------------------------
  // The loop against the reference

  /** A name already known: the table holds it at its position. */
  lemma KnownVar(vars: Table<U15>, seen: seq<string>, n: string)
    requires Holds(vars, seen) && Lookup(vars, n).Success? && Lookup(vars, n).value.Some?
    ensures n in seen && Lookup(vars, n).value.value == OffsetVars + IndexOf(seen, n)
  {
  }

  /** Inserting a new variable at 16 + |seen| keeps the table holding the
      variables, the new one last. */
  lemma {:induction false} NewVar(vars: Table<U15>, seen: seq<string>, n: string, a: U15)
    requires Holds(vars, seen) && Lookup(vars, n) == Success(None)
    requires a == OffsetVars + |seen| && Insert(vars, n, a).Success?
    ensures n !in seen && Holds(Insert(vars, n, a).value, seen + [n])
  {
    var vars' := Insert(vars, n, a).value;
    var seen' := seen + [n];
    InsertValid(vars, n, a);
    InsertThenLookup(vars, n, a);
    IndexOfLast(seen, n);
    forall m | m in seen'
      ensures Bound(vars', m, OffsetVars + IndexOf(seen', m))
    {
      if m != n {
        InsertFrame(vars, n, a, m);
        IndexOfPrefix(seen, [n], m);
      }
    }
    forall m | m !in seen'
      ensures Unbound(vars', m)
    {
      InsertFrame(vars, n, a, m);
    }
  }

  /** One step of the loop keeps the table holding the variables, which
      grow as the reference says, and resolves the instruction as the
      reference says. */
  lemma OneSound(labels: Table<U15>, vars: Table<U15>, seen: seq<string>, inst: Inst)
    requires Fits(vars) && Holds(vars, seen)
    requires ResolveOne(labels, vars, inst).Success?
    ensures Holds(ResolveOne(labels, vars, inst).value.1, Note(labels, seen, inst))
    ensures ResolvedAs(labels, Note(labels, seen, inst), inst, ResolveOne(labels, vars, inst).value.0)
  {
    if !inst.Unresolved? {
    } else if IsLabel(labels, inst.name) {
      OneLabel(labels, vars, seen, inst.name);
    } else if Lookup(vars, inst.name).value.Some? {
      OneKnown(labels, vars, seen, inst.name);
    } else {
      OneNew(labels, vars, seen, inst.name);
    }
  }

  lemma OneLabel(labels: Table<U15>, vars: Table<U15>, seen: seq<string>, n: string)
    requires Fits(vars) && Holds(vars, seen) && IsLabel(labels, n)
    ensures ResolveOne(labels, vars, Unresolved(n)) == Success((Address(Lookup(labels, n).value.value), vars))
    ensures Note(labels, seen, Unresolved(n)) == seen
  {
  }

  lemma OneKnown(labels: Table<U15>, vars: Table<U15>, seen: seq<string>, n: string)
    requires Fits(vars) && Holds(vars, seen) && Lookup(labels, n) == Success(None)
    requires Lookup(vars, n).Success? && Lookup(vars, n).value.Some?
    ensures ResolveOne(labels, vars, Unresolved(n)) == Success((Address(Lookup(vars, n).value.value), vars))
    ensures n in seen && Lookup(vars, n).value.value == OffsetVars + IndexOf(seen, n)
    ensures Note(labels, seen, Unresolved(n)) == seen
  {
    KnownVar(vars, seen, n);
  }

  lemma OneNew(labels: Table<U15>, vars: Table<U15>, seen: seq<string>, n: string)
    requires Fits(vars) && Holds(vars, seen) && Lookup(labels, n) == Success(None)
    requires Lookup(vars, n) == Success(None)
    requires ResolveOne(labels, vars, Unresolved(n)).Success?
    ensures vars.len < |vars.slots|
    ensures Insert(vars, n, vars.len + OffsetVars).Success?
    ensures ResolveOne(labels, vars, Unresolved(n)) ==
      Success((Address(vars.len + OffsetVars), Insert(vars, n, vars.len + OffsetVars).value))
    ensures Note(labels, seen, Unresolved(n)) == seen + [n]
    ensures Holds(Insert(vars, n, vars.len + OffsetVars).value, seen + [n])
    ensures IndexOf(seen + [n], n) == |seen|
  {
    NewVar(vars, seen, n, vars.len + OffsetVars);
    IndexOfLast(seen, n);
  }

  lemma {:induction false} ResolveFromSound(labels: Table<U15>, vars: Table<U15>, seen: seq<string>, insts: seq<Inst>)
    requires Fits(vars) && Holds(vars, seen)
    requires ResolveFrom(labels, vars, insts).Success?
    ensures Holds(ResolveFrom(labels, vars, insts).value.1, VarsFrom(labels, insts, seen))
    ensures forall k :: 0 <= k < |insts| ==>
      ResolvedAs(labels, VarsFrom(labels, insts, seen), insts[k], ResolveFrom(labels, vars, insts).value.0[k])
    decreases |insts|
  {
    if |insts| != 0 {
      var (first, vars1) := ResolveOne(labels, vars, insts[0]).value;
      var (rest, varsN) := ResolveFrom(labels, vars1, insts[1..]).value;
      var seen1 := Note(labels, seen, insts[0]);
      var names := VarsFrom(labels, insts[1..], seen1);
      OneSound(labels, vars, seen, insts[0]);
      ResolveFromSound(labels, vars1, seen1, insts[1..]);
      VarsFromExtends(labels, insts[1..], seen1);
      assert ResolveFrom(labels, vars, insts) == Success(([first] + rest, varsN));
      assert VarsFrom(labels, insts, seen) == names;
      ResolvedCons(labels, seen1, names, insts, first, rest);
    }
  }

  /** The first instruction, resolved against the names known after it, and
      the rest, resolved against all names, together resolve the whole. */
  lemma ResolvedCons(labels: Table<U15>, seen1: seq<string>, names: seq<string>,
                     insts: seq<Inst>, first: Inst, rest: seq<Inst>)
    requires |insts| == |rest| + 1
    requires |seen1| <= |names| && names[..|seen1|] == seen1
    requires ResolvedAs(labels, seen1, insts[0], first)
    requires forall k :: 0 <= k < |rest| ==> ResolvedAs(labels, names, insts[1..][k], rest[k])
    ensures forall k :: 0 <= k < |insts| ==> ResolvedAs(labels, names, insts[k], ([first] + rest)[k])
  {
    assert names == seen1 + names[|seen1|..];
    ResolvedAsExtends(labels, seen1, names[|seen1|..], insts[0], first);
    forall k | 0 <= k < |insts|
      ensures ResolvedAs(labels, names, insts[k], ([first] + rest)[k])
    {
      if k != 0 {
        assert insts[k] == insts[1..][k - 1];
      }
    }
  }

  /** resolve_labels, when it succeeds, rewrites exactly the symbolic
      addresses: a label takes its value, every other name the address
      16 + its position among the variables in order of first use, and
      every other instruction stays. The variables fit the table. */
  lemma ResolveSound(lim: Limits, labels: Table<U15>, insts: seq<Inst>)
    requires lim.Valid()
    ensures Resolve(lim, labels, insts).Success? ==>
      && |VarNames(labels, insts)| <= lim.vars
      && forall k :: 0 <= k < |insts| ==>
           ResolvedAs(labels, VarNames(labels, insts), insts[k], Resolve(lim, labels, insts).value[k])
  {
    if Resolve(lim, labels, insts).Success? {
      var out := Resolve(lim, labels, insts).value;
      var run := ResolveFrom(labels, Empty(lim.vars), insts).value;
      var names := VarNames(labels, insts);
      assert out == run.0 && names == VarsFrom(labels, insts, []);
      EmptyHolds(lim.vars);
      ResolveFromSound(labels, Empty(lim.vars), [], insts);
      ValidShape(run.1);
      forall k | 0 <= k < |insts|
        ensures ResolvedAs(labels, names, insts[k], out[k])
      {
      }
    }
  }

  /** A fresh variable table holds no variables. */
  lemma EmptyHolds(n: nat)
    ensures Holds(Empty<U15>(n), [])
  {
    EmptyValid<U15>(n);
    forall m: string
      ensures Unbound(Empty<U15>(n), m)
    {
      EmptyLookup(n, m);
    }
  }

  /** Nothing is found in a fresh table. */
  lemma EmptyLookup(n: nat, m: string)
    ensures Unbound(Empty<U15>(n), m)
  {
    var t := Empty<U15>(n);
    if Lookup(t, m).Success? {
      assert !t.slots[FindSlot(t.slots, m).value].Alive?;
    }
  }

  /** Two uses of one name resolve to one address, wherever they stand. */
  lemma SameName(lim: Limits, labels: Table<U15>, insts: seq<Inst>, j: nat, k: nat)
    requires lim.Valid() && Resolve(lim, labels, insts).Success?
    requires j < |insts| && k < |insts| && insts[j].Unresolved? && insts[j] == insts[k]
    ensures Resolve(lim, labels, insts).value[j] == Resolve(lim, labels, insts).value[k]
  {
    ResolveSound(lim, labels, insts);
  }
}
