/**
 * The ranking step shared by `predictCollaborate` and `predictNew` in
 * src/linkpredictor.cpp: (name, priority) pairs are sorted with `compare`
 * (higher priority first, then the name that sorts first) and the names of
 * the first `TOP_RANK` are returned.
 *
 * The pairs come from an `unordered_map`, in an order nobody chooses. A
 * ranking is therefore characterised by the set of pairs alone
 * (`IsRanking`), and `RankingUnique` shows there is only one: the answer does
 * not depend on the order the pairs were produced in.
 */
module Ranking {
  import opened Lex

  /** `TOP_RANK`: how many names a prediction returns at most. */
  const TOP_RANK: nat := 4

  /** A `pair<string, int>` of `closest` / `allNoncollabs`: an actor's name and priority. */
  datatype Scored = Scored(name: string, priority: int)

  /** `compare(left, right)`: `left` ranks before `right`. */
  predicate Compare(left: Scored, right: Scored) {
    if left.priority != right.priority then left.priority > right.priority
    else LexLess(left.name, right.name)
  }

  /** A strict order: irreflexive, asymmetric and transitive. */
  lemma CompareStrictOrder(a: Scored, b: Scored, c: Scored)
    ensures !Compare(a, a)
    ensures Compare(a, b) ==> !Compare(b, a)
    ensures Compare(a, b) && Compare(b, c) ==> Compare(a, c)
  {
    LexIrreflexive(a.name);
    LexAsymmetric(a.name, b.name);
    if Compare(a, b) && Compare(b, c) && a.priority == b.priority == c.priority {
      LexTransitive(a.name, b.name, c.name);
    }
  }

  /** Total: two different pairs are always ranked one way or the other. */
  lemma CompareTotal(a: Scored, b: Scored)
    requires a != b
    ensures Compare(a, b) || Compare(b, a)
  {
    if a.priority == b.priority {
      LexTotal(a.name, b.name);
    }
  }

  /** `y` does not rank before `x`. */
  predicate NotAfter(x: Scored, y: Scored) {
    !Compare(y, x)
  }

  lemma NotAfterTransitive(a: Scored, b: Scored, c: Scored)
    requires NotAfter(a, b) && NotAfter(b, c)
    ensures NotAfter(a, c)
  {
    CompareStrictOrder(a, c, a);
    if a != b {
      CompareTotal(a, b);
    }
    if b != c {
      CompareTotal(b, c);
    }
    CompareStrictOrder(a, b, c);
  }

  predicate Sorted(s: seq<Scored>) {
    forall i, j :: 0 <= i < j < |s| ==> NotAfter(s[i], s[j])
  }

  predicate NoDup(s: seq<Scored>) {
    forall i, j :: 0 <= i < j < |s| ==> s[i] != s[j]
  }

  /** The pairs a sequence holds. */
  function Elems(s: seq<Scored>): set<Scored> {
    set i | 0 <= i < |s| :: s[i]
  }

  lemma ElemsPush(s: seq<Scored>, p: Scored)
    ensures Elems(s + [p]) == Elems(s) + {p}
  {
    var t := s + [p];
    assert forall i :: 0 <= i < |s| ==> t[i] == s[i];
    assert t[|s|] == p;
  }

  /** `s` lists the pairs of `S`, each once, in `compare` order. */
  ghost predicate IsRanking(s: seq<Scored>, S: set<Scored>) {
    Sorted(s) && NoDup(s) && Elems(s) == S
  }

  /** The names of the first `TOP_RANK` entries (all of them when there are fewer). */
  function TopNames(s: seq<Scored>): (top: seq<string>)
    ensures |top| == if |s| < TOP_RANK then |s| else TOP_RANK
    ensures forall k :: 0 <= k < |top| ==> top[k] == s[k].name
  {
    var n := if |s| < TOP_RANK then |s| else TOP_RANK;
    seq(n, k requires 0 <= k < n => s[k].name)
  }

  /** `top` is what a prediction over the pairs `S` returns. */
  ghost predicate IsTopRanking(top: seq<string>, S: set<Scored>) {
    exists s :: IsRanking(s, S) && top == TopNames(s)
  }

  /** The least pair of a ranking is its first entry. */
  lemma RankingHead(s: seq<Scored>, S: set<Scored>, x: Scored)
    requires IsRanking(s, S) && x in S && s != []
    ensures x == s[0] || Compare(s[0], x)
  {
    var k :| 0 <= k < |s| && s[k] == x;
    if k > 0 {
      CompareTotal(s[0], x);
    }
  }

  /** There is only one ranking of a set of pairs. */
  lemma {:induction false} RankingUnique(s1: seq<Scored>, s2: seq<Scored>, S: set<Scored>)
    requires IsRanking(s1, S) && IsRanking(s2, S)
    ensures s1 == s2
    decreases |s1|
  {
    ElemsCard(s1);
    ElemsCard(s2);
    if s1 != [] {
      var a, b := s1[0], s2[0];
      assert a in Elems(s2) && b in Elems(s1);
      RankingHead(s1, S, b);
      RankingHead(s2, S, a);
      CompareStrictOrder(a, b, a);
      assert a == b;
      var t1, t2 := s1[1..], s2[1..];
      assert Elems(t1) == S - {a} by {
        assert forall k :: 0 <= k < |t1| ==> t1[k] == s1[k + 1];
        assert forall x :: x in Elems(s1) && x != a ==> x in Elems(t1);
      }
      assert Elems(t2) == S - {a} by {
        assert forall k :: 0 <= k < |t2| ==> t2[k] == s2[k + 1];
        assert forall x :: x in Elems(s2) && x != a ==> x in Elems(t2);
      }
      RankingUnique(t1, t2, S - {a});
      assert s1 == [a] + t1 && s2 == [a] + t2;
    }
  }

  /** The answer is determined by the set of pairs: the order they arrived in plays no part. */
  lemma TopRankingUnique(top1: seq<string>, top2: seq<string>, S: set<Scored>)
    requires IsTopRanking(top1, S) && IsTopRanking(top2, S)
    ensures top1 == top2
  {
    var s1 :| IsRanking(s1, S) && top1 == TopNames(s1);
    var s2 :| IsRanking(s2, S) && top2 == TopNames(s2);
    RankingUnique(s1, s2, S);
  }

  /** A top ranking holds `TOP_RANK` names, or all when there are fewer pairs, each the name of a pair. */
  lemma TopRankingMembers(top: seq<string>, S: set<Scored>)
    requires IsTopRanking(top, S)
    ensures |top| == if |S| < TOP_RANK then |S| else TOP_RANK
    ensures forall k :: 0 <= k < |top| ==> exists x :: x in S && x.name == top[k]
  {
    var s :| IsRanking(s, S) && top == TopNames(s);
    ElemsCard(s);
    forall k | 0 <= k < |top|
      ensures exists x :: x in S && x.name == top[k]
    {
      assert s[k] in Elems(s);
    }
  }

  /** A sequence without repeats has one pair per entry. */
  lemma {:induction false} ElemsCard(s: seq<Scored>)
    requires NoDup(s)
    ensures |Elems(s)| == |s|
    decreases |s|
  {
    if s != [] {
      var init := s[..|s| - 1];
      ElemsCard(init);
      assert Elems(s) == Elems(init) + {s[|s| - 1]} by {
        assert forall k :: 0 <= k < |init| ==> init[k] == s[k];
        assert forall x :: x in Elems(s) ==> x in Elems(init) || x == s[|s| - 1];
      }
      assert s[|s| - 1] !in Elems(init);
    }
  }

  /** A sequence without repeats counts each pair at most once. */
  lemma {:induction false} NoDupCount(t: seq<Scored>, x: Scored)
    requires NoDup(t)
    ensures multiset(t)[x] <= 1
    decreases |t|
  {
    if t != [] {
      var init := t[..|t| - 1];
      assert t == init + [t[|t| - 1]];
      NoDupCount(init, x);
      if t[|t| - 1] == x {
        assert x !in init;
      }
    }
  }

  /** A permutation of a sequence without repeats has none either. */
  lemma PermutationNoDup(s: seq<Scored>, t: seq<Scored>)
    requires multiset(s) == multiset(t) && NoDup(t)
    ensures NoDup(s)
  {
    forall i, j | 0 <= i < j < |s|
      ensures s[i] != s[j]
    {
      if s[i] == s[j] {
        var x := s[i];
        assert s == s[..j] + s[j..];
        assert x in s[..j] && x in s[j..];
        assert multiset(s)[x] == multiset(s[..j])[x] + multiset(s[j..])[x];
        NoDupCount(t, x);
      }
    }
  }

  /**
   * `std::sort(v.begin(), v.end(), compare)`, done here as an insertion sort
   * in place: the array ends up in `compare` order, holding the same pairs.
   */
  method SortByCompare(a: array<Scored>)
    modifies a
    ensures Sorted(a[..])
    ensures multiset(a[..]) == multiset(old(a[..]))
  {
    var i := 0;
    while i < a.Length
      invariant 0 <= i <= a.Length
      invariant forall p, q :: 0 <= p < q < i ==> NotAfter(a[p], a[q])
      invariant multiset(a[..]) == multiset(old(a[..]))
    {
      InsertAt(a, i);
      i := i + 1;
    }
  }

  /** Exchanges `a[j - 1]` and `a[j]`, leaving every other entry as it was. */
  method SwapDown(a: array<Scored>, j: int)
    requires 0 < j < a.Length
    modifies a
    ensures a[j - 1] == old(a[j]) && a[j] == old(a[j - 1])
    ensures forall k :: 0 <= k < a.Length && k != j - 1 && k != j ==> a[k] == old(a[k])
    ensures multiset(a[..]) == multiset(old(a[..]))
  {
    a[j - 1], a[j] := a[j], a[j - 1];
  }

  /**
   * One insertion step: `a[i]` is swapped towards the front past every
   * entry it ranks before, so `a[..i + 1]` is in order afterwards.
   */
  method InsertAt(a: array<Scored>, i: int)
    requires 0 <= i < a.Length
    requires forall p, q :: 0 <= p < q < i ==> NotAfter(a[p], a[q])
    modifies a
    ensures forall p, q :: 0 <= p < q <= i ==> NotAfter(a[p], a[q])
    ensures multiset(a[..]) == multiset(old(a[..]))
    ensures a[i + 1..] == old(a[i + 1..])
  {
    var j := i;
    while j > 0 && Compare(a[j], a[j - 1])
      invariant 0 <= j <= i
      invariant forall p, q :: 0 <= p < q <= i && q != j ==> NotAfter(a[p], a[q])
      invariant multiset(a[..]) == multiset(old(a[..]))
      invariant forall k :: i < k < a.Length ==> a[k] == old(a[k])
    {
      CompareStrictOrder(a[j], a[j - 1], a[j]);
      SwapDown(a, j);
      j := j - 1;
    }
    if j > 0 {
      forall p | 0 <= p < j
        ensures NotAfter(a[p], a[j])
      {
        if p < j - 1 {
          NotAfterTransitive(a[p], a[j - 1], a[j]);
        }
      }
    }
  }

  /**
   * The end of both predictions (src/linkpredictor.cpp:93-101, 196-205):
   * sort the pairs, then collect names until `TOP_RANK` of them are taken.
   */
  method RankTop(closest: seq<Scored>) returns (top: seq<string>)
    requires NoDup(closest)
    ensures IsTopRanking(top, Elems(closest))
  {
    var a := new Scored[|closest|](k requires 0 <= k < |closest| => closest[k]);
    assert a[..] == closest;
    SortByCompare(a);
    PermutationNoDup(a[..], closest);
    assert Elems(a[..]) == Elems(closest) by {
      forall x ensures x in Elems(a[..]) <==> x in Elems(closest) {
        assert x in Elems(a[..]) <==> x in multiset(a[..]);
        assert x in Elems(closest) <==> x in multiset(closest);
      }
    }
    top := [];
    var rank := 0;
    while rank < a.Length
      invariant 0 <= rank <= a.Length && rank <= TOP_RANK
      invariant |top| == rank && forall k :: 0 <= k < rank ==> top[k] == a[k].name
    {
      if rank == TOP_RANK {
        break;
      }
      top := top + [a[rank].name];
      rank := rank + 1;
    }
    assert IsRanking(a[..], Elems(closest)) && top == TopNames(a[..]);
  }
}
