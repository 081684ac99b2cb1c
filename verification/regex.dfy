/** `NFA::isValidRegex` (src/NFA.cpp:323-344). The regular expressions are strings over any
    characters, where `+` is choice, `*` is iteration, `(` and `)` group, and every other character
    stands for itself. */
module Regexes {

  /** A `+` needs an operand on each side: it is not first or last, does not follow `(` and is
      not followed by `+`, `)` or `*`. */
  predicate PlusOk(r: string, i: nat)
    requires i < |r|
  {
    i != 0 && i != |r| - 1 && r[i - 1] != '(' && r[i + 1] != '+' && r[i + 1] != ')' && r[i + 1] != '*'
  }

  /** A `*` needs an operand before it: it is not first and does not follow `(`. */
  predicate StarOk(r: string, i: nat)
    requires i < |r|
  {
    i != 0 && r[i - 1] != '('
  }

  /** The number of `(` minus the number of `)`. */
  function Depth(s: string): int
  {
    if s == [] then 0
    else Depth(s[..|s| - 1]) + (if s[|s| - 1] == '(' then 1 else if s[|s| - 1] == ')' then -1 else 0)
  }

  /** Every `)` closes an earlier `(` and none is left open. */
  predicate Balanced(r: string) {
    (forall k | 0 <= k <= |r| :: Depth(r[..k]) >= 0) && Depth(r) == 0
  }

  /** The validity condition, position by position. */
  predicate ValidRegex(r: string) {
    (forall i | 0 <= i < |r| && r[i] == '+' :: PlusOk(r, i)) &&
    (forall i | 0 <= i < |r| && r[i] == '*' :: StarOk(r, i)) &&
    Balanced(r)
  }

  lemma DepthSnoc(s: string, i: nat)
    requires i < |s|
    ensures Depth(s[..i + 1]) == Depth(s[..i]) + (if s[i] == '(' then 1 else if s[i] == ')' then -1 else 0)
  {
    assert s[..i + 1][..i] == s[..i];
  }

  /** `isValidRegex`: one left-to-right scan with a counter of unclosed brackets, answering false
      at the first misplaced operator or unmatched `)`. */
  method IsValidRegex(r: string) returns (ok: bool)
    ensures ok == ValidRegex(r)
  {
    var open := 0;
    var i := 0;
    while i < |r|
      invariant 0 <= i <= |r| && open == Depth(r[..i]) && open >= 0
      invariant forall j | 0 <= j < i && r[j] == '+' :: PlusOk(r, j)
      invariant forall j | 0 <= j < i && r[j] == '*' :: StarOk(r, j)
      invariant forall k | 0 <= k <= i :: Depth(r[..k]) >= 0
    {
      DepthSnoc(r, i);
      if r[i] == '+' {
        if i == 0 || i == |r| - 1 || r[i - 1] == '(' || r[i + 1] == '+' || r[i + 1] == ')' || r[i + 1] == '*' {
          return false;
        }
      } else if r[i] == '*' {
        if i == 0 || r[i - 1] == '(' {
          return false;
        }
      } else if r[i] == '(' {
        open := open + 1;
      } else if r[i] == ')' {
        if open == 0 {
          assert Depth(r[..i + 1]) < 0;
          return false;
        }
        open := open - 1;
      }
      i := i + 1;
    }
    assert r[..i] == r;
    ok := open == 0;
  }

  /** A string without brackets has depth 0. */
  lemma {:induction false} NoBracketsDepth(s: string)
    requires forall i | 0 <= i < |s| :: s[i] != '(' && s[i] != ')'
    ensures Depth(s) == 0
  {
    if s != [] {
      NoBracketsDepth(s[..|s| - 1]);
    }
  }

  /** Repeated stars are accepted: `a**` is valid. */
  lemma RepeatedStarValid()
    ensures ValidRegex("a**")
  {
    var r := "a**";
    forall k | 0 <= k <= |r| ensures Depth(r[..k]) >= 0 {
      NoBracketsDepth(r[..k]);
    }
    NoBracketsDepth(r);
  }

  /** A star right after an opening bracket is rejected. */
  lemma StarAfterOpenInvalid(r: string, i: nat)
    requires 0 < i < |r| && r[i] == '*' && r[i - 1] == '('
    ensures !ValidRegex(r)
  {
  }

  /** In a valid regex neither `(` nor `+` is followed by `*`. */
  lemma ValidNeighbours(r: string, i: nat)
    requires ValidRegex(r) && i + 1 < |r| && r[i + 1] == '*'
    ensures r[i] != '(' && r[i] != '+'
  {
    assert StarOk(r, i + 1);
  }
}
