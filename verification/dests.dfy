/** A reference reading of get_dest in src/main.cpp: the names before `=`
    spell a word of distinct letters M, D and A, and the destination is the
    set of those letters. */
module Dests {
  import opened Results
  import opened Syntax
  import opened Parser

  /** The characters of a word. */
  function CharsOf(w: string): set<char>
  {
    set k | 0 <= k < |w| :: w[k]
  }

  /** A destination word: only the letters M, D and A, none twice. */
  predicate DestWord(w: string)
  {
    && (forall k :: 0 <= k < |w| ==> w[k] in "MDA")
    && (forall a, b :: 0 <= a < b < |w| ==> w[a] != w[b])
  }

  /** The mask of a set of letters: M = 1, D = 2, A = 4. */
  function MaskOf(s: set<char>): (m: nat)
    ensures m < 8
  {
    (if 'M' in s then 1 else 0) + (if 'D' in s then 2 else 0) + (if 'A' in s then 4 else 0)
  }

  /** The texts of the name tokens of a sequence, concatenated. */
  function Letters(ts: seq<Kind>): string
  {
    if |ts| == 0 then ""
    else (if ts[0].Str? then ts[0].text else "") + Letters(ts[1..])
  }

  predicate AllNames(ts: seq<Kind>)
  {
    forall k :: 0 <= k < |ts| ==> ts[k].Str?
  }

  // ---------------------------------------------------------------------------
  // Facts about masks and words

  lemma CharsOfSnoc(w: string, c: char)
    ensures CharsOf(w + [c]) == CharsOf(w) + {c}
  {
    assert (w + [c])[|w|] == c;
    forall x | x in CharsOf(w)
      ensures x in CharsOf(w + [c])
    {
      var k :| 0 <= k < |w| && w[k] == x;
      assert (w + [c])[k] == x;
    }
  }

  /** The bit test of the source reads membership in the set. */
  lemma HasBitOfMask(s: set<char>, c: char)
    requires c in "MDA"
    ensures HasBit(MaskOf(s), c) <==> c in s
  {
  }

  /** Setting the bit of a new letter adds the letter to the set. */
  lemma MaskAdd(s: set<char>, c: char)
    requires c in "MDA" && c !in s
    ensures MaskOf(s) + DestBit(c) == MaskOf(s + {c})
  {
  }

  lemma DestWordSnoc(w: string, c: char)
    requires DestWord(w) && c in "MDA" && c !in CharsOf(w)
    ensures DestWord(w + [c])
  {
    var v := w + [c];
    forall a, b | 0 <= a < b < |v|
      ensures v[a] != v[b]
    {
      if b == |w| {
        assert v[a] == w[a];
        assert w[a] in CharsOf(w);
      }
    }
  }

  lemma DestWordPrefix(u: string, v: string)
    requires DestWord(u + v)
    ensures DestWord(u)
  {
    assert forall k :: 0 <= k < |u| ==> u[k] == (u + v)[k];
  }

  /** A word whose next letter is not M, D or A, or repeats an earlier one,
      is no destination word whatever follows. */
  lemma NotDestWord(w: string, s: string, k: nat)
    requires k < |s|
    requires s[k] !in "MDA" || s[k] in CharsOf(w)
    ensures !DestWord(w + s[k..])
  {
    var v := w + s[k..];
    assert v[|w|] == s[k];
    if s[k] in CharsOf(w) {
      var a :| 0 <= a < |w| && w[a] == s[k];
      assert v[a] == w[a];
    }
  }

  // ---------------------------------------------------------------------------
  // The loops of get_dest

  /** The letter loop over s[k..], started on the mask of a destination word
      w, succeeds exactly when w followed by s[k..] is a destination word, and
      then yields the mask of all its letters. */
  lemma {:induction false} DestLettersSpec(s: string, k: nat, w: string)
    requires k <= |s| && DestWord(w)
    ensures DestLetters(s, k, MaskOf(CharsOf(w))) ==
      if DestWord(w + s[k..]) then Success(MaskOf(CharsOf(w + s[k..]))) else Failure
    decreases |s| - k
  {
    if k == |s| {
      assert w + s[k..] == w;
    } else {
      var c := s[k];
      if c !in "MDA" {
        NotDestWord(w, s, k);
      } else if c in CharsOf(w) {
        HasBitOfMask(CharsOf(w), c);
        NotDestWord(w, s, k);
      } else {
        HasBitOfMask(CharsOf(w), c);
        MaskAdd(CharsOf(w), c);
        CharsOfSnoc(w, c);
        DestWordSnoc(w, c);
        DestLettersSpec(s, k + 1, w + [c]);
        assert w + [c] + s[k + 1..] == w + s[k..];
      }
    }
  }

  lemma LettersCons(ts: seq<Kind>, j: nat, e: nat)
    requires j < e <= |ts|
    ensures Letters(ts[j..e]) == (if ts[j].Str? then ts[j].text else "") + Letters(ts[j + 1..e])
  {
    assert ts[j..e][1..] == ts[j + 1..e];
  }

  lemma AllNamesCons(ts: seq<Kind>, j: nat, e: nat)
    requires j < e <= |ts| && ts[j].Str?
    ensures AllNames(ts[j..e]) <==> AllNames(ts[j + 1..e])
  {
    var u := ts[j..e];
    assert ts[j + 1..e] == u[1..];
    assert u[0].Str?;
    assert AllNames(u[1..]) ==> forall k :: 0 < k < |u| ==> u[1..][k - 1] == u[k];
  }

  /** The token loop of get_dest from j up to the first `=` at e: it succeeds
      exactly when every token before e is a name and their letters extend
      the destination word w to a destination word. */
  lemma {:induction false} DestFromSpec(ks: seq<Kind>, i: nat, j: nat, e: nat, w: string)
    requires i <= j <= e < |ks| && ks[e] == Equals && DestWord(w)
    requires forall t :: j <= t < e ==> ks[t] != Equals
    ensures DestFrom(ks, i, j, MaskOf(CharsOf(w))) ==
      if AllNames(ks[j..e]) && DestWord(w + Letters(ks[j..e]))
      then Success((MaskOf(CharsOf(w + Letters(ks[j..e]))), e))
      else Failure
    decreases e - j
  {
    if j == e {
      assert w + Letters(ks[j..e]) == w;
    } else {
      assert ks[j..e][0] == ks[j];
      LettersCons(ks, j, e);
      if ks[j].Str? {
        var s := ks[j].text;
        DestLettersSpec(s, 0, w);
        assert s[0..] == s;
        if DestWord(w + s) {
          DestFromSpec(ks, i, j + 1, e, w + s);
          assert w + s + Letters(ks[j + 1..e]) == w + Letters(ks[j..e]);
          AllNamesCons(ks, j, e);
        } else {
          if DestWord(w + Letters(ks[j..e])) {
            assert w + Letters(ks[j..e]) == (w + s) + Letters(ks[j + 1..e]);
            DestWordPrefix(w + s, Letters(ks[j + 1..e]));
          }
        }
      } else {
        assert !AllNames(ks[j..e]);
      }
    }
  }

  /** get_dest at i, when the first `=` from i is at e: the tokens before it
      must all be names whose letters form a nonempty destination word, and
      the destination is its set of letters. */
  lemma GetDestSpec(ks: seq<Kind>, i: nat, e: nat)
    requires i <= e < |ks| && ks[e] == Equals
    requires forall t :: i <= t < e ==> ks[t] != Equals
    ensures GetDest(ks, i) ==
      var w := Letters(ks[i..e]);
      if AllNames(ks[i..e]) && DestWord(w) && w != ""
      then Success((MaskOf(CharsOf(w)), e))
      else Failure
  {
    var w := Letters(ks[i..e]);
    assert CharsOf("") == {};
    assert "" + w == w;
    DestFromSpec(ks, i, i, e, "");
    if w != "" && DestWord(w) {
      assert w[0] in CharsOf(w);
    }
  }
}
