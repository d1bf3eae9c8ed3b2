/**
 * The parentage relationships a merger tree is built from, and the pure rules
 * the tree code applies to them (enzofof_merger_tree.py).
 *
 * relationships[cycle][halo] describes one halo of output `cycle`: its particle
 * count (the "NumberOfParticles" entry) and, for each halo `k` of the previous
 * output it shares particles with, the tuple (fraction of k's particles that come
 * from this halo, fraction of this halo's particles that go to k, k's particle
 * count).  Halo numbers are integers; the source skips every key whose text is not
 * all digits, which for an integer key means a negative one.
 */
module HaloRelations {
  /** One link (p1, p2, npart2) of a halo to a halo of the previous output. */
  datatype Relation = Relation(ofChild: real, ofMine: real, npart: int)

  /** relationships[cycle][halo]: the particle count and the links by halo number. */
  datatype Node = Node(npart: int, links: map<int, Relation>)

  /** relationships[cycle] and relationships. */
  type Level = map<int, Node>
  type Relationships = map<int, Level>

  /** A child entry (k, v[1], v[2]) of a branch. */
  datatype Child = Child(halo: int, relation: real, npart: int)

  /** str(k).isdigit() for an integer key. */
  predicate IsDigitKey(k: int) {
    k >= 0
  }

  predicate Ascending(s: seq<int>) {
    forall i, j | 0 <= i < j < |s| :: s[i] <= s[j]
  }

  predicate Increasing(s: seq<int>) {
    forall i, j | 0 <= i < j < |s| :: s[i] < s[j]
  }

  predicate Distinct(s: seq<int>) {
    forall i, j | 0 <= i < j < |s| :: s[i] != s[j]
  }

  /** Some element of a non-empty set. */
  lemma Member(keys: set<int>) returns (x: int)
    requires keys != {}
    ensures x in keys
  {
    if forall y :: y !in keys {
      assert false;
    }
    x :| x in keys;
  }

  /** A non-empty finite set of integers has a least element. */
  lemma {:induction false} LeastWitness(keys: set<int>) returns (m: int)
    requires keys != {}
    ensures m in keys && forall k | k in keys :: m <= k
    decreases |keys|
  {
    var x := Member(keys);
    if keys == {x} {
      m := x;
    } else {
      var m' := LeastWitness(keys - {x});
      m := if x < m' then x else m';
      forall k | k in keys
        ensures m <= k
      {
        if k != x {
          assert k in keys - {x};
        }
      }
    }
  }

  lemma LeastExists(keys: set<int>)
    requires keys != {}
    ensures exists m :: m in keys && forall k | k in keys :: m <= k
  {
    var m := LeastWitness(keys);
  }

  /** The least element of a non-empty set. */
  function Least(keys: set<int>): (m: int)
    requires keys != {}
    ensures m in keys && forall k | k in keys :: m <= k
  {
    LeastExists(keys);
    var m :| m in keys && forall k | k in keys :: m <= k;
    m
  }

  /** sorted(keys) for a set of integers: its elements in increasing order. */
  function Enumerate(keys: set<int>): (ks: seq<int>)
    ensures |ks| == |keys|
    decreases |keys|
  {
    if keys == {} then []
    else
      var m := Least(keys);
      [m] + Enumerate(keys - {m})
  }

  /** The enumeration holds exactly the set's elements. */
  lemma {:induction false} EnumerateMembers(keys: set<int>)
    ensures forall k :: k in Enumerate(keys) <==> k in keys
    decreases |keys|
  {
    if keys != {} {
      var m := Least(keys);
      EnumerateMembers(keys - {m});
      assert Enumerate(keys) == [m] + Enumerate(keys - {m});
    }
  }

  /** The enumeration increases. */
  lemma {:induction false} EnumerateIncreasing(keys: set<int>)
    ensures Increasing(Enumerate(keys))
    decreases |keys|
  {
    if keys != {} {
      var m := Least(keys);
      var rest := Enumerate(keys - {m});
      EnumerateIncreasing(keys - {m});
      EnumerateMembers(keys - {m});
      assert Enumerate(keys) == [m] + rest;
      forall i | 0 <= i < |rest|
        ensures m < rest[i]
      {
        assert rest[i] in rest;
      }
    }
  }

  /** `x` inserted before the first element of `s` that is not smaller. */
  function Insert(s: seq<int>, x: int): (r: seq<int>)
    ensures |r| == |s| + 1 && forall y :: y in r <==> y in s || y == x
    ensures multiset(r) == multiset(s) + multiset{x}
  {
    if s == [] || x <= s[0] then [x] + s
    else
      assert s == [s[0]] + s[1..];
      [s[0]] + Insert(s[1..], x)
  }

  /** Inserting into an ascending list keeps it ascending. */
  lemma {:induction false} InsertAscending(s: seq<int>, x: int)
    requires Ascending(s)
    ensures Ascending(Insert(s, x))
  {
    var r := Insert(s, x);
    if s == [] || x <= s[0] {
      forall i, j | 0 <= i < j < |r|
        ensures r[i] <= r[j]
      {
        if i > 0 {
          assert r[i] == s[i - 1] && r[j] == s[j - 1];
        } else {
          assert r[j] == s[j - 1];
        }
      }
    } else {
      var t := Insert(s[1..], x);
      InsertAscending(s[1..], x);
      forall i, j | 0 <= i < j < |r|
        ensures r[i] <= r[j]
      {
        assert r[j] == t[j - 1];
        if i > 0 {
          assert r[i] == t[i - 1];
        } else {
          assert t[j - 1] in t;
        }
      }
    }
  }

  /** sorted(xs) / xs.sort() for a list of integers: its elements in ascending order. */
  function SortedOf(xs: seq<int>): (ys: seq<int>)
    ensures Ascending(ys) && multiset(ys) == multiset(xs)
  {
    if xs == [] then []
    else
      var front := xs[..|xs| - 1];
      assert xs == front + [xs[|xs| - 1]];
      InsertAscending(SortedOf(front), xs[|xs| - 1]);
      Insert(SortedOf(front), xs[|xs| - 1])
  }

  /** A list without repeats holds each value at most once. */
  lemma {:induction false} DistinctCounts(s: seq<int>)
    ensures Distinct(s) <==> forall v :: multiset(s)[v] <= 1
  {
    if s != [] {
      var t := s[1..];
      assert s == [s[0]] + t;
      DistinctCounts(t);
      if Distinct(s) {
        assert s[0] !in t by {
          forall j | 0 <= j < |t|
            ensures t[j] != s[0]
          {
            assert t[j] == s[j + 1];
          }
        }
        assert Distinct(t) by {
          forall i, j | 0 <= i < j < |t|
            ensures t[i] != t[j]
          {
            assert t[i] == s[i + 1] && t[j] == s[j + 1];
          }
        }
      } else {
        var i, j :| 0 <= i < j < |s| && s[i] == s[j];
        if i == 0 {
          assert s[j] in t;
          assert multiset(s)[s[0]] >= 2;
        } else {
          assert t[i - 1] == t[j - 1];
          assert !Distinct(t);
          var v :| multiset(t)[v] > 1;
          assert multiset(s)[v] > 1;
        }
      }
    }
  }

  /** Sorting a list without repeats gives a strictly increasing list. */
  lemma SortedDistinct(xs: seq<int>)
    requires Distinct(xs)
    ensures Increasing(SortedOf(xs))
  {
    var ys := SortedOf(xs);
    DistinctCounts(xs);
    DistinctCounts(ys);
  }

  /** The first `n` elements of `s`, all of them when `n` exceeds its length, none
      when `n` is not positive. */
  function Take<T>(s: seq<T>, n: int): (r: seq<T>)
    ensures |r| == if n <= 0 then 0 else if n < |s| then n else |s|
    ensures forall i | 0 <= i < |r| :: r[i] == s[i]
  {
    if n <= 0 then [] else if n < |s| then s[..n] else s
  }

  /** Taking one more element than a list shorter than the cap has. */
  lemma TakeAppend<T>(s: seq<T>, x: T, n: int)
    ensures |Take(s, n)| < n ==> Take(s + [x], n) == Take(s, n) + [x]
    ensures |Take(s, n)| >= n ==> Take(s + [x], n) == Take(s, n)
  {
  }

  /** The child entry for link `k` of `node`. */
  function ChildOf(node: Node, k: int): Child
    requires k in node.links
  {
    Child(k, node.links[k].ofMine, node.links[k].npart)
  }

  /** Link `k` of `node` may be taken as a child: a digit key whose share of this
      halo's particles exceeds `minRelation`. */
  predicate Qualifies(node: Node, k: int, minRelation: real) {
    k in node.links && IsDigitKey(k) && node.links[k].ofMine > minRelation
  }

  /** The halo numbers of a list of children increase. */
  predicate HalosIncreasing(cs: seq<Child>) {
    forall i, j | 0 <= i < j < |cs| :: cs[i].halo < cs[j].halo
  }

  /** The qualifying links of `node`, visited in the order of `ks`. */
  function Qualifying(node: Node, ks: seq<int>, minRelation: real): (cs: seq<Child>)
    ensures |cs| <= |ks|
  {
    if ks == [] then []
    else
      var k := ks[|ks| - 1];
      var rest := Qualifying(node, ks[..|ks| - 1], minRelation);
      if Qualifies(node, k, minRelation) then rest + [ChildOf(node, k)] else rest
  }

  /** The qualifying links are exactly the links of `ks` that qualify. */
  lemma {:induction false} QualifyingMembers(node: Node, ks: seq<int>, minRelation: real)
    ensures forall c | c in Qualifying(node, ks, minRelation) ::
      c.halo in ks && Qualifies(node, c.halo, minRelation) && c == ChildOf(node, c.halo)
    ensures forall k | k in ks && Qualifies(node, k, minRelation) :: ChildOf(node, k) in Qualifying(node, ks, minRelation)
  {
    if ks != [] {
      var front := ks[..|ks| - 1];
      QualifyingMembers(node, front, minRelation);
      assert forall j | j in ks :: j in front || j == ks[|ks| - 1];
    }
  }

  /** Following increasing keys gives children with increasing halo numbers. */
  lemma {:induction false} QualifyingIncreasing(node: Node, ks: seq<int>, minRelation: real)
    requires Increasing(ks)
    ensures HalosIncreasing(Qualifying(node, ks, minRelation))
  {
    if ks != [] {
      var front := ks[..|ks| - 1];
      var last := ks[|ks| - 1];
      QualifyingIncreasing(node, front, minRelation);
      QualifyingMembers(node, front, minRelation);
      var rest := Qualifying(node, front, minRelation);
      forall i | 0 <= i < |rest|
        ensures rest[i].halo < last
      {
        assert rest[i] in rest;
        var p :| 0 <= p < |front| && front[p] == rest[i].halo;
        assert ks[p] == front[p];
      }
      if Qualifies(node, last, minRelation) {
        var cs := rest + [ChildOf(node, last)];
        forall i, j | 0 <= i < j < |cs|
          ensures cs[i].halo < cs[j].halo
        {
          assert cs[i] == rest[i];
        }
      }
    }
  }

  /** EnzoFOFMergerBranch's children (lines 183-189): in increasing key order, the
      qualifying links, at most `maxChildren` of them. */
  function Children(node: Node, maxChildren: int, minRelation: real): seq<Child> {
    Take(Qualifying(node, Enumerate(node.links.Keys), minRelation), maxChildren)
  }

  /** A prefix holds elements of the list, in its order; a prefix shorter than the
      cap is the whole list. */
  lemma TakeSpec<T>(s: seq<T>, n: int)
    ensures forall x | x in Take(s, n) :: x in s
    ensures |Take(s, n)| < n ==> Take(s, n) == s
  {
    forall x | x in Take(s, n)
      ensures x in s
    {
      var i :| 0 <= i < |Take(s, n)| && Take(s, n)[i] == x;
      assert s[i] == x;
    }
  }

  /** Every child is a qualifying link, and there are at most `maxChildren` of them. */
  lemma ChildrenQualify(node: Node, maxChildren: int, minRelation: real)
    ensures |Children(node, maxChildren, minRelation)| <= (if maxChildren <= 0 then 0 else maxChildren)
    ensures forall c | c in Children(node, maxChildren, minRelation) ::
      Qualifies(node, c.halo, minRelation) && c == ChildOf(node, c.halo)
  {
    EnumerateMembers(node.links.Keys);
    QualifyingMembers(node, Enumerate(node.links.Keys), minRelation);
    TakeSpec(Qualifying(node, Enumerate(node.links.Keys), minRelation), maxChildren);
  }

  /** The children come in increasing halo order. */
  lemma ChildrenIncreasing(node: Node, maxChildren: int, minRelation: real)
    ensures HalosIncreasing(Children(node, maxChildren, minRelation))
  {
    var q := Qualifying(node, Enumerate(node.links.Keys), minRelation);
    EnumerateIncreasing(node.links.Keys);
    QualifyingIncreasing(node, Enumerate(node.links.Keys), minRelation);
    var cs := Take(q, maxChildren);
    forall i, j | 0 <= i < j < |cs|
      ensures cs[i].halo < cs[j].halo
    {
      assert cs[i] == q[i] && cs[j] == q[j];
    }
  }

  /** A branch with room to spare took every qualifying link. */
  lemma ChildrenComplete(node: Node, maxChildren: int, minRelation: real, k: int)
    requires |Children(node, maxChildren, minRelation)| < maxChildren
    requires Qualifies(node, k, minRelation)
    ensures ChildOf(node, k) in Children(node, maxChildren, minRelation)
  {
    EnumerateMembers(node.links.Keys);
    QualifyingMembers(node, Enumerate(node.links.Keys), minRelation);
    TakeSpec(Qualifying(node, Enumerate(node.links.Keys), minRelation), maxChildren);
  }

  /** The progenitor and its share, as the branch's loop finds them: the running
      maximum starts at (-1, 0.0) and moves to a child only when its share is
      strictly larger (lines 179-192). */
  function Leader(cs: seq<Child>): (int, real) {
    if cs == [] then (-1, 0.0)
    else
      var best := Leader(cs[..|cs| - 1]);
      var c := cs[|cs| - 1];
      if c.relation > best.1 then (c.halo, c.relation) else best
  }

  /** Child `i` has a positive share, the largest of all, and every child before it
      has a strictly smaller one. */
  predicate FirstMaximum(cs: seq<Child>, i: int)
    requires 0 <= i < |cs|
  {
    && cs[i].relation > 0.0
    && (forall j | 0 <= j < |cs| :: cs[j].relation <= cs[i].relation)
    && (forall j | 0 <= j < i :: cs[j].relation < cs[i].relation)
  }

  /** The progenitor is -1 exactly when no child has a positive share; otherwise it
      is the first child with the largest share. */
  lemma {:induction false} LeaderIsFirstMaximum(cs: seq<Child>)
    requires forall c | c in cs :: IsDigitKey(c.halo)
    ensures Leader(cs).1 >= 0.0 && forall j | 0 <= j < |cs| :: cs[j].relation <= Leader(cs).1
    ensures Leader(cs).0 == -1 <==> forall j | 0 <= j < |cs| :: cs[j].relation <= 0.0
    ensures Leader(cs).0 == -1 ==> Leader(cs).1 == 0.0
    ensures Leader(cs).0 != -1 ==> exists i | 0 <= i < |cs| ::
      cs[i].halo == Leader(cs).0 && cs[i].relation == Leader(cs).1 && FirstMaximum(cs, i)
  {
    if cs != [] {
      var front := cs[..|cs| - 1];
      var c := cs[|cs| - 1];
      assert forall d | d in front :: d in cs;
      assert c in cs;
      LeaderIsFirstMaximum(front);
      var best := Leader(front);
      assert forall j | 0 <= j < |front| :: cs[j] == front[j];
      if c.relation > best.1 {
        assert FirstMaximum(cs, |cs| - 1);
      } else if best.0 != -1 {
        var i :| 0 <= i < |front| && front[i].halo == best.0 && front[i].relation == best.1 && FirstMaximum(front, i);
        assert FirstMaximum(cs, i);
      }
    }
  }

  /** With a non-negative threshold every child has a positive share, so a branch has
      a progenitor exactly when it has children. */
  lemma ProgenitorIffChildren(node: Node, maxChildren: int, minRelation: real)
    requires minRelation >= 0.0
    ensures Leader(Children(node, maxChildren, minRelation)).0 == -1 <==> Children(node, maxChildren, minRelation) == []
  {
    var cs := Children(node, maxChildren, minRelation);
    ChildrenQualify(node, maxChildren, minRelation);
    LeaderIsFirstMaximum(cs);
    if cs != [] {
      assert cs[0] in cs;
    }
  }

  /** filter_small_halos on one branch (lines 305-308): the children with more than
      `minParticles` particles, in their order. */
  function Heavy(cs: seq<Child>, minParticles: int): (r: seq<Child>)
    ensures |r| <= |cs|
    ensures forall c :: c in r <==> c in cs && c.npart > minParticles
  {
    if cs == [] then []
    else
      var c := cs[|cs| - 1];
      var rest := Heavy(cs[..|cs| - 1], minParticles);
      assert forall d | d in cs :: d in cs[..|cs| - 1] || d == c;
      if c.npart > minParticles then rest + [c] else rest
  }

  /** Filtering keeps the order: the filter of a concatenation is the concatenation
      of the filters. */
  lemma {:induction false} HeavyAppend(a: seq<Child>, b: seq<Child>, minParticles: int)
    ensures Heavy(a + b, minParticles) == Heavy(a, minParticles) + Heavy(b, minParticles)
    decreases |b|
  {
    if b != [] {
      var front := b[..|b| - 1];
      HeavyAppend(a, front, minParticles);
      assert (a + b)[..|a + b| - 1] == a + front;
    } else {
      assert a + b == a;
    }
  }

  /** Filtering twice is filtering once. */
  lemma {:induction false} HeavyIdempotent(cs: seq<Child>, minParticles: int)
    ensures Heavy(Heavy(cs, minParticles), minParticles) == Heavy(cs, minParticles)
  {
    if cs != [] {
      var front := cs[..|cs| - 1];
      HeavyIdempotent(front, minParticles);
      var c := cs[|cs| - 1];
      if c.npart > minParticles {
        HeavyAppend(Heavy(front, minParticles), [c], minParticles);
        assert Heavy([c], minParticles) == [c] by {
          assert [c][..0] == [];
        }
      }
    }
  }

  /** The halo numbers of a list of children, in order. */
  function Halos(cs: seq<Child>): (hs: seq<int>)
    ensures |hs| == |cs| && forall i | 0 <= i < |cs| :: hs[i] == cs[i].halo
  {
    seq(|cs|, i requires 0 <= i < |cs| => cs[i].halo)
  }

  /** The list with every value after its first occurrence dropped: the halos
      generate_tree creates branches for, checking `this_halos` (lines 317-325). */
  function FirstOccurrences(s: seq<int>): (r: seq<int>)
    ensures |r| <= |s|
  {
    if s == [] then []
    else
      var x := s[|s| - 1];
      var rest := FirstOccurrences(s[..|s| - 1]);
      if x in rest then rest else rest + [x]
  }

  /** The de-duplicated list has no repeats and the same members. */
  lemma {:induction false} FirstOccurrencesSpec(s: seq<int>)
    ensures Distinct(FirstOccurrences(s))
    ensures forall x :: x in FirstOccurrences(s) <==> x in s
  {
    if s != [] {
      var front := s[..|s| - 1];
      FirstOccurrencesSpec(front);
      assert forall y | y in s :: y in front || y == s[|s| - 1];
    }
  }

  /** De-duplicating one more value appends it exactly when it is new. */
  lemma FirstOccurrencesSnoc(s: seq<int>, x: int)
    ensures FirstOccurrences(s + [x]) ==
      if x in FirstOccurrences(s) then FirstOccurrences(s) else FirstOccurrences(s) + [x]
  {
    assert (s + [x])[..|s|] == s;
  }

  /** The halos of one more child. */
  lemma HalosSnoc(cs: seq<Child>, m: int)
    requires 0 <= m < |cs|
    ensures Halos(cs[..m + 1]) == Halos(cs[..m]) + [cs[m].halo]
  {
  }

  /** A value occurs once in the de-duplicated list, at the place of its first
      occurrence: values keep the order of their first appearance. */
  lemma {:induction false} FirstOccurrencesOrder(s: seq<int>, i: int, j: int)
    requires 0 <= i < j < |s| && s[i] !in s[..i] && s[j] !in s[..j]
    ensures exists p, q | 0 <= p < q < |FirstOccurrences(s)| ::
      FirstOccurrences(s)[p] == s[i] && FirstOccurrences(s)[q] == s[j]
  {
    var front := s[..|s| - 1];
    var rest := FirstOccurrences(front);
    if j < |s| - 1 {
      assert front[..i] == s[..i] && front[..j] == s[..j];
      FirstOccurrencesOrder(front, i, j);
      var p, q :| 0 <= p < q < |rest| && rest[p] == s[i] && rest[q] == s[j];
      assert FirstOccurrences(s)[p] == s[i] && FirstOccurrences(s)[q] == s[j];
    } else {
      assert s[j] !in front by {
        assert front == s[..j];
      }
      assert s[i] in front;
      FirstOccurrencesSpec(front);
      var p :| 0 <= p < |rest| && rest[p] == s[i];
      assert FirstOccurrences(s) == rest + [s[j]];
      assert FirstOccurrences(s)[p] == s[i];
      assert FirstOccurrences(s)[|rest|] == s[j];
    }
  }

  /** The values of `xs` between `lo` and `hi` inclusive, in their order: the numbers
      find_outputs keeps for a cycle range (lines 263-265). */
  function InRange(xs: seq<int>, lo: int, hi: int): (r: seq<int>)
    ensures |r| <= |xs|
    ensures forall x :: x in r <==> x in xs && lo <= x <= hi
    ensures multiset(r) <= multiset(xs)
  {
    if xs == [] then []
    else
      var x := xs[|xs| - 1];
      var front := xs[..|xs| - 1];
      assert xs == front + [x];
      var rest := InRange(front, lo, hi);
      if lo <= x <= hi then rest + [x] else rest
  }

  /** `s` backwards. */
  function Reverse(s: seq<int>): (r: seq<int>)
    ensures |r| == |s| && forall i | 0 <= i < |s| :: r[i] == s[|s| - 1 - i]
  {
    seq(|s|, i requires 0 <= i < |s| => s[|s| - 1 - i])
  }

  /** Lists with the same multiset have the same members. */
  lemma SameMembers(a: seq<int>, b: seq<int>)
    requires multiset(a) == multiset(b)
    ensures forall x :: x in a <==> x in b
  {
    forall x
      ensures x in a <==> x in b
    {
      assert x in a <==> x in multiset(a);
      assert x in b <==> x in multiset(b);
    }
  }

  /** Reversing keeps the members. */
  lemma ReverseMembers(s: seq<int>)
    ensures forall x :: x in Reverse(s) <==> x in s
  {
    var r := Reverse(s);
    forall x | x in s
      ensures x in r
    {
      var i :| 0 <= i < |s| && s[i] == x;
      assert r[|s| - 1 - i] == x;
    }
    forall x | x in r
      ensures x in s
    {
      var i :| 0 <= i < |r| && r[i] == x;
      assert s[|s| - 1 - i] == x;
    }
  }

  /** sorted(xs, reverse=True) for a list of integers: its elements, largest first. */
  function Descending(xs: seq<int>): (ys: seq<int>)
    ensures |ys| == |xs|
  {
    var s := SortedOf(xs);
    assert |s| == |multiset(s)| == |multiset(xs)| == |xs|;
    Reverse(s)
  }

  /** The descending order holds the list's values, largest first. */
  lemma DescendingSpec(xs: seq<int>)
    ensures forall i, j | 0 <= i < j < |Descending(xs)| :: Descending(xs)[i] >= Descending(xs)[j]
    ensures forall x :: x in Descending(xs) <==> x in xs
  {
    SameMembers(SortedOf(xs), xs);
    ReverseMembers(SortedOf(xs));
  }

  /** Without repeats in the list, the descending order is strict. */
  lemma DescendingDistinct(xs: seq<int>)
    requires Distinct(xs)
    ensures forall i, j | 0 <= i < j < |Descending(xs)| :: Descending(xs)[i] > Descending(xs)[j]
  {
    SortedDistinct(xs);
  }
}
