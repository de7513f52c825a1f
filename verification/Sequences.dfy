/** Laws of sequence concatenation, kept apart so that proofs can use them one at a time, and enumerations of sets. */
module Sequences {
  lemma AppendAssoc<T>(xs: seq<T>, ys: seq<T>, zs: seq<T>)
    ensures (xs + ys) + zs == xs + (ys + zs)
  {
  }

  lemma AppendCancel<T>(xs: seq<T>, ys: seq<T>, zs: seq<T>)
    requires xs + ys == xs + zs
    ensures ys == zs
  {
    assert (xs + ys)[|xs|..] == ys && (xs + zs)[|xs|..] == zs;
  }

  lemma ConsAppend<T>(xs: seq<T>, ys: seq<T>)
    requires xs != []
    ensures [xs[0]] + (xs[1..] + ys) == xs + ys
  {
  }

  lemma SplitInside<T>(xs: seq<T>, ys: seq<T>, i: nat, j: nat)
    requires i <= |xs| && j <= |ys|
    ensures xs[..i] + ((xs[i..] + ys[..j]) + ys[j..]) == xs + ys
  {
  }

  lemma DropFront<T>(xs: seq<T>, ys: seq<T>, n: nat)
    requires n <= |xs|
    ensures (xs + ys)[n..] == xs[n..] + ys
  {
  }

  lemma Reassemble<T>(all: seq<T>, n: nat, head: seq<T>, mid: seq<T>, rest: seq<T>)
    requires n <= |all| && head == all[..n] && mid + rest == all[n..]
    ensures (head + mid) + rest == all
  {
    AppendAssoc(head, mid, rest);
  }

  // ----- enumerations -----

  ghost predicate NoRepeats<T>(s: seq<T>) {
    forall i, j :: 0 <= i < j < |s| ==> s[i] != s[j]
  }

  /** Each element of the set once. */
  ghost predicate Enumerates<T(!new)>(s: seq<T>, all: set<T>) {
    NoRepeats(s) && forall x :: x in s <==> x in all
  }

  /** The elements of a set, each once. */
  method InAnyOrder(all: set<string>) returns (out: seq<string>)
    ensures Enumerates(out, all)
  {
    out := [];
    var todo := all;
    while todo != {}
      invariant todo <= all && Enumerates(out, all - todo)
      decreases todo
    {
      var x :| x in todo;
      todo := todo - {x};
      out := out + [x];
    }
  }

  lemma {:induction false} EnumerationExists<T(!new)>(all: set<T>) returns (s: seq<T>)
    ensures Enumerates(s, all)
    decreases all
  {
    if all == {} {
      return [];
    }
    var x :| x in all;
    s := EnumerationExists(all - {x});
    s := s + [x];
  }
}
