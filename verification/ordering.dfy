/** Iteration order of the ordered containers the automata use. `std::map<char, _>` iterates its
    keys in increasing character order and `std::set<NFA*>` its members in increasing address
    order; the model lists a finite set in increasing order of an integer key (the code point of a
    character, the id of a state). */
module Ordering {

  /** The key tells the members of s apart. */
  ghost predicate Injective<T(!new)>(s: set<T>, key: T -> int) {
    forall a, b | a in s && b in s && key(a) == key(b) :: a == b
  }

  predicate Increasing<T>(r: seq<T>, key: T -> int) {
    forall i, j | 0 <= i < j < |r| :: key(r[i]) < key(r[j])
  }

  /** A nonempty finite set has a member of least key. */
  lemma {:induction false} LeastExists<T(!new)>(s: set<T>, key: T -> int)
    requires s != {}
    ensures exists m :: m in s && forall x | x in s :: key(m) <= key(x)
    decreases |s|
  {
    var a :| a in s;
    if s != {a} {
      LeastExists(s - {a}, key);
      var m :| m in s - {a} && forall x | x in s - {a} :: key(m) <= key(x);
      if key(a) < key(m) {
        assert forall x | x in s :: key(a) <= key(x);
      } else {
        assert forall x | x in s :: key(m) <= key(x);
      }
    } else {
      assert forall x | x in s :: key(a) <= key(x);
    }
  }

  /** The member of least key. */
  function Least<T(==,!new)>(s: set<T>, key: T -> int): (m: T)
    requires s != {} && Injective(s, key)
    ensures m in s && forall x | x in s :: key(m) <= key(x)
  {
    LeastExists(s, key);
    var m :| m in s && forall x | x in s :: key(m) <= key(x);
    m
  }

  /** The members of s in increasing key order, each once. */
  function Ascending<T(==,!new)>(s: set<T>, key: T -> int): (r: seq<T>)
    requires Injective(s, key)
    ensures Increasing(r, key)
    ensures forall x :: x in r <==> x in s
    ensures |r| == |s|
    decreases |s|
  {
    if s == {} then []
    else
      var m := Least(s, key);
      var rest := Ascending(s - {m}, key);
      PrependLeast(s, key, m, rest);
      [m] + rest
  }

  lemma PrependLeast<T(!new)>(s: set<T>, key: T -> int, m: T, rest: seq<T>)
    requires Injective(s, key) && m in s && forall x | x in s :: key(m) <= key(x)
    requires Increasing(rest, key) && (forall x :: x in rest <==> x in s - {m}) && |rest| == |s - {m}|
    ensures Increasing([m] + rest, key)
    ensures forall x :: x in [m] + rest <==> x in s
    ensures |[m] + rest| == |s|
  {
    forall i, j | 0 <= i < j < |[m] + rest| ensures key(([m] + rest)[i]) < key(([m] + rest)[j]) {
      if i == 0 {
        var y := rest[j - 1];
        assert y in s - {m};
      }
    }
  }

  function CharKey(c: char): int {
    c as int
  }

  function NatKey(n: nat): int {
    n
  }

  /** The labels of a transition map in the order `std::map<char, _>` visits them. */
  function SortedChars(s: set<char>): (r: seq<char>)
    ensures Increasing(r, CharKey)
    ensures forall c :: c in r <==> c in s
    ensures forall i | 0 <= i < |r| :: r[i] in s
    ensures |r| == |s|
  {
    Ascending(s, CharKey)
  }

  /** The members of a state set in the order `std::set<NFA*>` visits them. */
  function SortedNats(s: set<nat>): (r: seq<nat>)
    ensures Increasing(r, NatKey)
    ensures forall n :: n in r <==> n in s
    ensures forall i | 0 <= i < |r| :: r[i] in s
    ensures |r| == |s|
  {
    Ascending(s, NatKey)
  }

  /** An increasing sequence has no repeated member. */
  lemma IncreasingDistinct<T>(r: seq<T>, key: T -> int, i: int, j: int)
    requires Increasing(r, key) && 0 <= i < |r| && 0 <= j < |r| && i != j
    ensures r[i] != r[j]
  {
  }
}
