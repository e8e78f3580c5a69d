/** Facts about sequences and sets that the solver is given one at a time. */
module Sequences {
  lemma ConcatAssociates<A>(a: seq<A>, b: seq<A>, c: seq<A>)
    ensures a + b + c == a + (b + c)
  {
  }

  lemma SplitConcat<A>(a: seq<A>, b: seq<A>)
    ensures (a + b)[..|a|] == a && (a + b)[|a|..] == b
  {
  }

  lemma ReplaceHead<A>(done: seq<A>, todo: seq<A>, a: A)
    requires todo != []
    ensures (done + todo)[|done|] == todo[0]
    ensures (done + todo)[|done| := a] == done + [a] + todo[1..]
  {
  }

  lemma HeadAndTail<A>(s: seq<A>)
    requires s != []
    ensures s == [s[0]] + s[1..]
  {
  }

  lemma FrontAndLast<A>(s: seq<A>)
    requires s != []
    ensures s == s[..|s| - 1] + [s[|s| - 1]]
  {
  }

  function Reversed<A>(s: seq<A>): (r: seq<A>)
    ensures |r| == |s| && forall k :: 0 <= k < |s| ==> r[k] == s[|s| - 1 - k]
  {
    if s == [] then [] else [s[|s| - 1]] + Reversed(s[..|s| - 1])
  }

  lemma ReversedConcat<A>(s: seq<A>, t: seq<A>)
    ensures Reversed(s + t) == Reversed(t) + Reversed(s)
  {
  }

  lemma ReversedTwice<A>(s: seq<A>)
    ensures Reversed(Reversed(s)) == s
  {
  }

  lemma SomeElement<A>(s: set<A>) returns (a: A)
    requires s != {}
    ensures a in s
  {
    a :| a in s;
  }
}
