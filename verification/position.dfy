/** print in src/main.cpp: the line and column, both counted from 1, of a
    byte offset into the source text, used to locate every error message. */
module Position {
  import opened Results

  /** The number of newlines in s. */
  function Breaks(s: string): (n: nat)
    ensures n <= |s|
  {
    if |s| == 0 then 0
    else Breaks(s[..|s| - 1]) + (if s[|s| - 1] == '\n' then 1 else 0)
  }

  /** The characters of s after its last newline (all of s if it has none). */
  function LastLine(s: string): (n: nat)
    ensures n <= |s|
  {
    if |s| == 0 then 0
    else if s[|s| - 1] == '\n' then 0
    else LastLine(s[..|s| - 1]) + 1
  }

  /** The line/column pair of an offset: one more than the newlines before
      it, and one more than the characters since the last of them. */
  function Locate(text: string, offset: nat): (r: Result<(nat, nat)>)
  {
    if |text| <= offset then Failure
    else Success((1 + Breaks(text[..offset]), 1 + LastLine(text[..offset])))
  }

  /** The loop of print: one step per character before the offset. An offset
      outside the text is an internal error. */
  method Print(text: string, offset: nat) returns (r: Result<(nat, nat)>)
    ensures r.Success? <==> offset < |text|
    ensures r.Success? ==> r.value.0 >= 1 && r.value.1 >= 1
    ensures r == Locate(text, offset)
  {
    if |text| <= offset {
      return Failure;
    }
    var line, column := 1, 1;
    var i := 0;
    while i < offset
      invariant i <= offset
      invariant line == 1 + Breaks(text[..i])
      invariant column == 1 + LastLine(text[..i])
    {
      assert text[..i + 1][..i] == text[..i];
      if text[i] == '\n' {
        line := line + 1;
        column := 1;
      } else {
        column := column + 1;
      }
      i := i + 1;
    }
    return Success((line, column));
  }

  /** The line number counts the newlines of the prefix. */
  lemma {:induction false} BreaksCount(s: string)
    ensures Breaks(s) == multiset(s)['\n']
  {
    if |s| != 0 {
      BreaksCount(s[..|s| - 1]);
      assert s == s[..|s| - 1] + [s[|s| - 1]];
      assert multiset(s) == multiset(s[..|s| - 1]) + multiset{s[|s| - 1]};
    }
  }

  /** The column counts back to the last newline: none of the characters it
      counts is a newline, and the one before them is. */
  lemma {:induction false} LastLineSpec(s: string)
    ensures forall k :: |s| - LastLine(s) <= k < |s| ==> s[k] != '\n'
    ensures LastLine(s) < |s| ==> s[|s| - LastLine(s) - 1] == '\n'
  {
    if |s| != 0 && s[|s| - 1] != '\n' {
      var t := s[..|s| - 1];
      LastLineSpec(t);
      assert forall k :: 0 <= k < |t| ==> t[k] == s[k];
    }
  }

  /** Moving one character forward: past a newline the line grows and the
      column restarts, otherwise the column grows. */
  lemma LocateStep(text: string, offset: nat)
    requires offset + 1 < |text|
    ensures var (y, x) := Locate(text, offset).value;
      Locate(text, offset + 1) ==
        if text[offset] == '\n' then Success((y + 1, 1)) else Success((y, x + 1))
  {
    assert text[..offset + 1][..offset] == text[..offset];
  }

  /** The start of the text is line 1, column 1. */
  lemma LocateStart(text: string)
    requires |text| != 0
    ensures Locate(text, 0) == Success((1, 1))
  {
  }
}
