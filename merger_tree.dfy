/**
 * The merger tree of enzofof_merger_tree.py: EnzoFOFMergerBranch, which picks the
 * children and the progenitor of one halo, and the parts of EnzoFOFMergerTree that
 * select the outputs, grow the tree level by level, prune it and walk the most
 * massive progenitor line.
 *
 * The relationships and redshifts are taken as given: computing them from the halo
 * catalogues, and saving or loading them, is not part of this model.
 */
module MergerTree {
  import opened HaloRelations

  /** The default `min_relation` of a branch and of get_massive_progenitors. */
  const DefaultMinRelation: real := 0.25

  /** EnzoFOFMergerBranch (lines 173-192): one halo of one output with the halos of
      the previous output it takes as children. */
  class Branch {
    const outputNum: int
    const haloId: int
    const npart: int
    const progenitor: int
    var children: seq<Child>

    /** Builds the branch of halo `haloId` of output `outputNum`, visiting the links
        in increasing key order. */
    constructor (tree: MergerTree, outputNum: int, haloId: int, maxChildren: int, minRelation: real)
      requires outputNum in tree.relationships && haloId in tree.relationships[outputNum]
      ensures this.outputNum == outputNum && this.haloId == haloId
      ensures npart == tree.relationships[outputNum][haloId].npart
      ensures children == Children(tree.relationships[outputNum][haloId], maxChildren, minRelation)
      ensures progenitor == Leader(children).0
    {
      var node := tree.relationships[outputNum][haloId];
      var kids: seq<Child> := [];
      var prog := -1;
      var maxRelationship := 0.0;
      var haloCount := 0;
      var sortedKeys := Enumerate(node.links.Keys);
      EnumerateMembers(node.links.Keys);
      for n := 0 to |sortedKeys|
        invariant kids == Take(Qualifying(node, sortedKeys[..n], minRelation), maxChildren)
        invariant haloCount == |kids|
        invariant (prog, maxRelationship) == Leader(kids)
      {
        var k := sortedKeys[n];
        assert sortedKeys[..n + 1][..n] == sortedKeys[..n];
        TakeAppend(Qualifying(node, sortedKeys[..n], minRelation), ChildOf(node, k), maxChildren);
        if !IsDigitKey(k) {
          continue;
        }
        var v := node.links[k];
        if v.ofMine > minRelation && haloCount < maxChildren {
          haloCount := haloCount + 1;
          assert (kids + [ChildOf(node, k)])[..|kids|] == kids;
          kids := kids + [Child(k, v.ofMine, v.npart)];
          if v.ofMine > maxRelationship {
            prog := k;
            maxRelationship := v.ofMine;
          }
        }
      }
      assert sortedKeys[..|sortedKeys|] == sortedKeys;
      this.outputNum := outputNum;
      this.haloId := haloId;
      npart := node.npart;
      children := kids;
      progenitor := prog;
    }
  }

  /** The halo numbers of a list of branches, in order. */
  function HaloIds(bs: seq<Branch>): (ids: seq<int>)
    ensures |ids| == |bs| && forall i | 0 <= i < |bs| :: ids[i] == bs[i].haloId
  {
    seq(|bs|, i requires 0 <= i < |bs| => bs[i].haloId)
  }

  /** The halo numbers of the children of a list of branches, branch by branch. */
  function ChildHalos(bs: seq<Branch>): seq<int>
    reads bs
  {
    if bs == [] then []
    else ChildHalos(bs[..|bs| - 1]) + Halos(bs[|bs| - 1].children)
  }

  /** A halo number is among the children's exactly when some branch has a child
      with that number. */
  lemma {:induction false} ChildHalosMember(bs: seq<Branch>, x: int)
    ensures x in ChildHalos(bs) <==> exists b, c | b in bs && c in b.children :: c.halo == x
  {
    if bs != [] {
      var front := bs[..|bs| - 1];
      var last := bs[|bs| - 1];
      ChildHalosMember(front, x);
      assert forall b | b in bs :: b in front || b == last;
      if x in Halos(last.children) {
        var i :| 0 <= i < |last.children| && Halos(last.children)[i] == x;
        assert last.children[i] in last.children;
      }
      if exists c | c in last.children :: c.halo == x {
        var c :| c in last.children && c.halo == x;
        var i :| 0 <= i < |last.children| && last.children[i] == c;
        assert Halos(last.children)[i] == x;
      }
    }
  }

  /** Branch `b` is the branch of one of `cycle`'s halos, with the progenitor its
      constructor finds. */
  ghost predicate Branched(rels: Relationships, b: Branch, cycle: int, maxChildren: int) {
    && b.outputNum == cycle
    && cycle in rels
    && b.haloId in rels[cycle]
    && b.npart == rels[cycle][b.haloId].npart
    && b.progenitor == Leader(Children(rels[cycle][b.haloId], maxChildren, DefaultMinRelation)).0
  }

  /** Branch `b` is as its constructor leaves it for halo `b.haloId` of `cycle`. */
  ghost predicate Made(rels: Relationships, b: Branch, cycle: int, maxChildren: int)
    reads b
  {
    Branched(rels, b, cycle, maxChildren) &&
    b.children == Children(rels[cycle][b.haloId], maxChildren, DefaultMinRelation)
  }

  /** The halo numbers of one more branch. */
  lemma HaloIdsSnoc(bs: seq<Branch>, b: Branch)
    ensures HaloIds(bs + [b]) == HaloIds(bs) + [b.haloId]
  {
  }

  /** Every child of the branches of `level` is a halo of output `cycle`, unless
      that output has no relationships. */
  ghost predicate Reaches(rels: Relationships, level: seq<Branch>, cycle: int)
    requires cycle in rels
    reads level
  {
    rels[cycle] != map[] ==> forall b, c | b in level && c in b.children :: c.halo in rels[cycle]
  }

  /** The passes of generate_tree's loop before pass `i` built levels `lv` for
      the outputs `grown`, which are `on[1..i]`, and left the levels of `levels0`
      for the other outputs alone. */
  ghost predicate Kept(levels0: map<int, seq<Branch>>, lv: map<int, seq<Branch>>, on: seq<int>, grown: set<int>,
                       i: int)
  {
    && 1 <= i <= |on|
    && on[0] in levels0
    && grown == (set j | 1 <= j < i :: on[j])
    && lv.Keys == levels0.Keys + grown
    && forall k | k in levels0 && k !in grown :: lv[k] == levels0[k]
  }

  /** The outputs before pass `i` all have levels. */
  lemma KeptHas(levels0: map<int, seq<Branch>>, lv: map<int, seq<Branch>>, on: seq<int>, grown: set<int>, i: int)
    requires Kept(levels0, lv, on, grown, i)
    ensures forall j | 0 <= j < i :: on[j] in lv
  {
    forall j | 0 <= j < i
      ensures on[j] in lv
    {
      if j > 0 {
        assert on[j] in grown;
      }
    }
  }

  /** Pass `i` adds the level of output `on[i]`. */
  lemma KeptStep(levels0: map<int, seq<Branch>>, lv: map<int, seq<Branch>>, lv': map<int, seq<Branch>>,
                 on: seq<int>, grown: set<int>, i: int)
    requires Kept(levels0, lv, on, grown, i) && i < |on|
    requires on[i] in lv' && lv' == lv[on[i] := lv'[on[i]]]
    ensures Kept(levels0, lv', on, grown + {on[i]}, i + 1)
  {
  }

  /** The levels of the outputs `on[1..i]` are grown, each from the one before. */
  ghost predicate GrownTo(rels: Relationships, lv: map<int, seq<Branch>>, on: seq<int>, i: int, minParticles: int,
                          maxChildren: int)
    reads *
  {
    && i <= |on|
    && (forall j | 0 <= j < i :: on[j] in lv)
    && forall j | 1 <= j < i :: GrownAt(rels, lv, on, j, minParticles, maxChildren)
  }

  /** The level of output `on[j]` is grown from that of `on[j - 1]`. */
  ghost predicate GrownAt(rels: Relationships, lv: map<int, seq<Branch>>, on: seq<int>, j: int, minParticles: int,
                          maxChildren: int)
    reads *
  {
    && 1 <= j < |on|
    && on[j - 1] in lv && on[j] in lv
    && Grown(rels, lv[on[j - 1]], lv[on[j]], on[j], minParticles, maxChildren)
  }

  /** Pass `i` keeps the levels before it grown when it changes none of their
      branches, and adds a grown level. */
  twostate lemma GrownToStep(new rels: Relationships, new lv: map<int, seq<Branch>>, new lv': map<int, seq<Branch>>,
                             new on: seq<int>, new i: int, new minParticles: int, maxChildren: int)
    requires old(allocated(lv))
    requires old(GrownTo(rels, lv, on, i, minParticles, maxChildren))
    requires 1 <= i < |on| && Distinct(on)
    requires forall j, b | 0 <= j < i && b in lv[on[j]] :: unchanged(b)
    requires on[i] in lv' && lv' == lv[on[i] := lv'[on[i]]]
    requires GrownAt(rels, lv', on, i, minParticles, maxChildren)
    ensures GrownTo(rels, lv', on, i + 1, minParticles, maxChildren)
  {
    forall j | 1 <= j < i
      ensures GrownAt(rels, lv', on, j, minParticles, maxChildren)
    {
      assert old(GrownAt(rels, lv, on, j, minParticles, maxChildren));
      assert lv'[on[j - 1]] == lv[on[j - 1]] && lv'[on[j]] == lv[on[j]];
      GrownKept(rels, lv[on[j - 1]], lv[on[j]], on[j], minParticles, maxChildren);
    }
  }

  /** `thisHalos` lists the halos of the branches of `level`, which are the first
      occurrences in the child halos `seen` so far, or none when output `cycle`
      has no relationships. */
  ghost predicate Gathered(rels: Relationships, cycle: int, level: seq<Branch>, thisHalos: seq<int>, seen: seq<int>)
    requires cycle in rels
  {
    && thisHalos == HaloIds(level)
    && thisHalos == if rels[cycle] == map[] then [] else FirstOccurrences(seen)
  }

  /** A child halo already taken, or one of an output without relationships, adds
      no branch. */
  lemma GatherSkip(rels: Relationships, cycle: int, level: seq<Branch>, thisHalos: seq<int>, seen: seq<int>, x: int)
    requires cycle in rels && Gathered(rels, cycle, level, thisHalos, seen)
    requires x in thisHalos || rels[cycle] == map[]
    ensures Gathered(rels, cycle, level, thisHalos, seen + [x])
  {
    FirstOccurrencesSnoc(seen, x);
  }

  /** A child halo not taken yet adds its branch. */
  lemma GatherAdd(rels: Relationships, cycle: int, level: seq<Branch>, thisHalos: seq<int>, seen: seq<int>, b: Branch)
    requires cycle in rels && Gathered(rels, cycle, level, thisHalos, seen)
    requires b.haloId !in thisHalos && rels[cycle] != map[]
    ensures Gathered(rels, cycle, level + [b], thisHalos + [b.haloId], seen + [b.haloId])
  {
    FirstOccurrencesSnoc(seen, b.haloId);
    HaloIdsSnoc(level, b);
  }

  /** Level `level` of output `cycle` is what generate_tree makes of the previous
      level `prev`: one branch per distinct child halo, in the order the children
      are first met, none when the output has no relationships; each branch keeps
      only its children with more than `minParticles` particles. */
  ghost predicate Grown(rels: Relationships, prev: seq<Branch>, level: seq<Branch>, cycle: int,
                        minParticles: int, maxChildren: int)
    reads prev, level
  {
    && cycle in rels
    && HaloIds(level) == (if rels[cycle] == map[] then [] else FirstOccurrences(ChildHalos(prev)))
    && forall b | b in level ::
         && Branched(rels, b, cycle, maxChildren)
         && b.children == Heavy(Children(rels[cycle][b.haloId], maxChildren, DefaultMinRelation), minParticles)
  }

  /** A grown level stays grown while none of its branches, or those of the level
      before it, change. */
  twostate lemma GrownKept(new rels: Relationships, new prev: seq<Branch>, new level: seq<Branch>, new cycle: int,
                           new minParticles: int, maxChildren: int)
    requires old(allocated(prev)) && old(allocated(level))
    requires old(Grown(rels, prev, level, cycle, minParticles, maxChildren))
    requires forall b | b in prev || b in level :: unchanged(b)
    ensures Grown(rels, prev, level, cycle, minParticles, maxChildren)
  {
    ChildHalosKept(prev);
  }

  /** The child halos of branches none of which change stay the same. */
  twostate lemma {:induction false} ChildHalosKept(new bs: seq<Branch>)
    requires old(allocated(bs))
    requires forall b | b in bs :: unchanged(b)
    ensures ChildHalos(bs) == old(ChildHalos(bs))
    decreases |bs|
  {
    if bs != [] {
      var front, last := bs[..|bs| - 1], bs[|bs| - 1];
      assert forall b | b in front :: b in bs;
      ChildHalosKept(front);
      assert last in bs;
    }
  }

  /** What a grown level promises: no halo twice, none when the output has no
      relationships, and every branch a child halo of the previous level. */
  lemma GrownLevel(rels: Relationships, prev: seq<Branch>, level: seq<Branch>, cycle: int,
                   minParticles: int, maxChildren: int)
    requires Grown(rels, prev, level, cycle, minParticles, maxChildren)
    ensures Distinct(HaloIds(level))
    ensures rels[cycle] == map[] ==> level == []
    ensures forall b | b in level :: exists p, c | p in prev && c in p.children :: c.halo == b.haloId
  {
    assert rels[cycle] == map[] ==> |level| == |HaloIds(level)| == 0;
    FirstOccurrencesSpec(ChildHalos(prev));
    forall b | b in level
      ensures exists p, c | p in prev && c in p.children :: c.halo == b.haloId
    {
      var i :| 0 <= i < |level| && level[i] == b;
      assert HaloIds(level)[i] == b.haloId;
      ChildHalosMember(prev, b.haloId);
    }
  }

  /** When the output has relationships, every child halo of the previous level has
      a branch in the grown level. */
  lemma GrownCovers(rels: Relationships, prev: seq<Branch>, level: seq<Branch>, cycle: int,
                    minParticles: int, maxChildren: int, p: Branch, c: Child)
    requires Grown(rels, prev, level, cycle, minParticles, maxChildren)
    requires rels[cycle] != map[] && p in prev && c in p.children
    ensures exists b | b in level :: b.haloId == c.halo
  {
    ChildHalosMember(prev, c.halo);
    FirstOccurrencesSpec(ChildHalos(prev));
    assert c.halo in HaloIds(level);
    var i :| 0 <= i < |level| && HaloIds(level)[i] == c.halo;
    assert level[i] in level;
  }

  /** The output of get_massive_progenitors: redshifts, cycle numbers and halo
      numbers along the most massive progenitor line. */
  datatype Track = Track(redshift: seq<real>, cycle: seq<int>, halonum: seq<int>)

  /** Link `k` can take the walk: a digit key whose share of the halo's particles
      exceeds both `minRelation` and the starting maximum 0.0. */
  predicate Candidate(node: Node, k: int, minRelation: real) {
    Qualifies(node, k, minRelation) && node.links[k].ofMine > 0.0
  }

  /** One step of the walk from halo `from` with links `node`: to a candidate with
      the largest share when there is one, otherwise nowhere. */
  ghost predicate Followed(node: Node, from: int, to: int, minRelation: real) {
    || (&& Candidate(node, to, minRelation)
        && forall k | Candidate(node, k, minRelation) :: node.links[k].ofMine <= node.links[to].ofMine)
    || (to == from && forall k :: !Candidate(node, k, minRelation))
  }

  /** The inner loop of get_massive_progenitors (lines 356-362): the links in the
      dictionary's own order, which is not specified, keeping the first with the
      largest share above `minRelation`. */
  method MostMassive(node: Node, halo0: int, minRelation: real) returns (next: int)
    ensures Followed(node, halo0, next, minRelation)
  {
    next := halo0;
    var maxRel := 0.0;
    var rest := node.links.Keys;
    while rest != {}
      invariant rest <= node.links.Keys
      invariant forall k | Candidate(node, k, minRelation) && k !in rest :: node.links[k].ofMine <= maxRel
      invariant (next == halo0 && maxRel == 0.0) || (Candidate(node, next, minRelation) && node.links[next].ofMine == maxRel)
      decreases |rest|
    {
      if forall y :: y !in rest {
        assert false;
      }
      var k :| k in rest;
      rest := rest - {k};
      if !IsDigitKey(k) {
        continue;
      }
      var v := node.links[k];
      if v.ofMine > maxRel && v.ofMine > minRelation {
        next := k;
        maxRel := v.ofMine;
      }
    }
  }

  /** The walk and the branch agree: when the branch had room for every qualifying
      link and some link qualifies, the walk's step takes a link whose share is the
      progenitor's, and that link is one of the branch's children. */
  lemma WalkMatchesProgenitor(node: Node, from: int, to: int, maxChildren: int, minRelation: real)
    requires minRelation >= 0.0
    requires Followed(node, from, to, minRelation)
    requires |Children(node, maxChildren, minRelation)| < maxChildren
    requires exists k :: Qualifies(node, k, minRelation)
    ensures to in node.links && ChildOf(node, to) in Children(node, maxChildren, minRelation)
    ensures Leader(Children(node, maxChildren, minRelation)).1 == node.links[to].ofMine
  {
    var cs := Children(node, maxChildren, minRelation);
    var k :| Qualifies(node, k, minRelation);
    assert Candidate(node, k, minRelation);
    ChildrenComplete(node, maxChildren, minRelation, to);
    ChildrenQualify(node, maxChildren, minRelation);
    LeaderIsFirstMaximum(cs);
    var i :| 0 <= i < |cs| && cs[i] == ChildOf(node, to);
    assert cs[i].relation <= Leader(cs).1;
    assert Leader(cs).0 != -1;
    var j :| 0 <= j < |cs| && cs[j].halo == Leader(cs).0 && cs[j].relation == Leader(cs).1 && FirstMaximum(cs, j);
    assert cs[j] in cs;
    assert Candidate(node, cs[j].halo, minRelation);
  }

  /** Output `cycle` ends the walk at halo `halo`: it has no relationships, or none
      for that halo. */
  ghost predicate Stops(rels: Relationships, cycle: int, halo: int) {
    cycle !in rels || halo !in rels[cycle]
  }

  /** `t` is the start of a walk down the outputs `cycles` from halo `halonum`:
      the outputs in their order, each with one of its halos and its redshift,
      each step to the next halo a step of `Followed`; `next` is where the walk
      goes from the last halo. */
  ghost predicate Walked(rels: Relationships, redshifts: map<int, real>, cycles: seq<int>, halonum: int,
                         minRelation: real, t: Track, next: int)
  {
    && |t.redshift| == |t.cycle| == |t.halonum| <= |cycles|
    && t.cycle == cycles[..|t.cycle|]
    && (forall i | 0 <= i < |t.cycle| ::
          && t.cycle[i] in rels && t.halonum[i] in rels[t.cycle[i]]
          && t.cycle[i] in redshifts && t.redshift[i] == redshifts[t.cycle[i]])
    && (forall i | 0 <= i < |t.cycle| - 1 ::
          Followed(rels[t.cycle[i]][t.halonum[i]], t.halonum[i], t.halonum[i + 1], minRelation))
    && (|t.cycle| == 0 ==> next == halonum)
    && (|t.cycle| > 0 ==>
          && t.halonum[0] == halonum
          && Followed(rels[t.cycle[|t.cycle| - 1]][t.halonum[|t.cycle| - 1]], t.halonum[|t.cycle| - 1], next,
                      minRelation))
  }

  /** One more output on the walk: halo `halo` of the next output, then a step
      from it. */
  lemma WalkedStep(rels: Relationships, redshifts: map<int, real>, cycles: seq<int>, halonum: int,
                   minRelation: real, t: Track, halo: int, next: int)
    requires Walked(rels, redshifts, cycles, halonum, minRelation, t, halo)
    requires |t.cycle| < |cycles| && cycles[|t.cycle|] in rels && halo in rels[cycles[|t.cycle|]]
    requires cycles[|t.cycle|] in redshifts
    requires Followed(rels[cycles[|t.cycle|]][halo], halo, next, minRelation)
    ensures var c := cycles[|t.cycle|];
      Walked(rels, redshifts, cycles, halonum, minRelation,
             Track(t.redshift + [redshifts[c]], t.cycle + [c], t.halonum + [halo]), next)
  {
    var n := |t.cycle|;
    assert cycles[..n + 1] == cycles[..n] + [cycles[n]];
  }

  /** The outputs that have relationships, latest first: the order build_tree
      walks them in (line 295). */
  function Latest(keys: set<int>): (on: seq<int>)
    ensures |on| == |keys| && forall k :: k in on <==> k in keys
  {
    EnumerateMembers(keys);
    ReverseMembers(Enumerate(keys));
    Reverse(Enumerate(keys))
  }

  /** `Latest` lists the outputs in strictly decreasing order, each once. */
  lemma LatestSpec(keys: set<int>)
    ensures forall i, j | 0 <= i < j < |Latest(keys)| :: Latest(keys)[i] > Latest(keys)[j]
    ensures Distinct(Latest(keys))
  {
    EnumerateIncreasing(keys);
  }

  /** EnzoFOFMergerTree (lines 194-363) with its relationships already computed. */
  class MergerTree {
    /** Computed or loaded once when the tree is made, which is not part of this
        model. */
    const relationships: Relationships
    const redshifts: map<int, real>
    var numbers: seq<int>
    var outputNumbers: seq<int>
    var levels: map<int, seq<Branch>>
    var halonum: int

    /** A tree over the outputs numbered `files` (the numbers in the catalogue file
        names) that lie in `cycleRange`, with the given relationships and redshifts. */
    constructor (files: seq<int>, cycleRange: (int, int), relationships: Relationships, redshifts: map<int, real>)
      ensures this.relationships == relationships && this.redshifts == redshifts
      ensures numbers == SortedOf(InRange(files, cycleRange.0, cycleRange.1))
      ensures outputNumbers == [] && levels == map[]
    {
      this.relationships := relationships;
      this.redshifts := redshifts;
      numbers := [];
      outputNumbers := [];
      levels := map[];
      halonum := 0;
      new;
      FindOutputs(files, cycleRange);
    }

    /** find_outputs with a cycle range (lines 249-266): the output numbers in the
        range, sorted. */
    method FindOutputs(files: seq<int>, cycleRange: (int, int))
      modifies this
      ensures numbers == SortedOf(InRange(files, cycleRange.0, cycleRange.1))
      ensures Ascending(numbers)
      ensures forall x :: x in numbers <==> x in files && cycleRange.0 <= x <= cycleRange.1
      ensures outputNumbers == old(outputNumbers) && levels == old(levels) && halonum == old(halonum)
    {
      numbers := [];
      for i := 0 to |files|
        invariant numbers == InRange(files[..i], cycleRange.0, cycleRange.1)
        invariant outputNumbers == old(outputNumbers) && levels == old(levels) && halonum == old(halonum)
      {
        var num := files[i];
        assert files[..i + 1][..i] == files[..i];
        if num >= cycleRange.0 && num <= cycleRange.1 {
          numbers := numbers + [num];
        }
      }
      assert files[..|files|] == files;
      var found := numbers;
      numbers := SortedOf(found);
      SameMembers(numbers, found);
    }

    /** filter_small_halos (lines 302-309): every branch of the level keeps only
        its children with more than `minParticles` particles. */
    method FilterSmallHalos(lvl: int, minParticles: int)
      requires lvl in levels
      modifies set b | b in levels[lvl]
      ensures forall b | b in levels[lvl] :: b.children == Heavy(old(b.children), minParticles)
    {
      var hs := levels[lvl];
      for n := 0 to |hs|
        invariant forall b | b in hs ::
          b.children == if b in hs[..n] then Heavy(old(b.children), minParticles) else old(b.children)
      {
        var h := hs[n];
        var cs := h.children;
        var fil: seq<Child> := [];
        for m := 0 to |cs|
          invariant fil == Heavy(cs[..m], minParticles)
        {
          var c := cs[m];
          assert cs[..m + 1][..m] == cs[..m];
          if c.npart > minParticles {
            fil := fil + [c];
          }
        }
        assert cs[..|cs|] == cs;
        if h in hs[..n] {
          HeavyIdempotent(old(h.children), minParticles);
        }
        h.children := fil;
        assert forall b | b in hs[..n + 1] :: b in hs[..n] || b == h;
      }
      assert hs[..|hs|] == hs;
    }

    /** The body of generate_tree's loop for one output (lines 314-324): a branch
        for each child halo of the previous level not already taken, or none when
        the output has no relationships. */
    method NextLevel(prevLevel: seq<Branch>, cycle: int, maxChildren: int) returns (level: seq<Branch>)
      requires cycle in relationships && Reaches(relationships, prevLevel, cycle)
      ensures forall b | b in level :: fresh(b) && Made(relationships, b, cycle, maxChildren)
      ensures HaloIds(level) == if relationships[cycle] == map[] then [] else FirstOccurrences(ChildHalos(prevLevel))
    {
      level := [];
      var thisHalos: seq<int> := [];
      ghost var met: seq<int> := [];
      for j := 0 to |prevLevel|
        invariant met == ChildHalos(prevLevel[..j])
        invariant Gathered(relationships, cycle, level, thisHalos, met)
        invariant forall b | b in level :: fresh(b) && Made(relationships, b, cycle, maxChildren)
      {
        var h := prevLevel[j];
        assert prevLevel[..j + 1][..j] == prevLevel[..j];
        assert ChildHalos(prevLevel[..j + 1]) == met + Halos(h.children);
        level, thisHalos := BranchChildren(level, thisHalos, h.children, cycle, maxChildren, met);
        met := met + Halos(h.children);
      }
      assert prevLevel[..|prevLevel|] == prevLevel;
    }

    /** The inner loop of generate_tree (lines 318-324) over the children `kids` of
        one branch: a new branch for each child halo not in `thisHalos` yet, unless
        the output has no relationships.  `met` stands for the child halos seen
        before. */
    method BranchChildren(level: seq<Branch>, thisHalos: seq<int>, kids: seq<Child>, cycle: int, maxChildren: int,
                          ghost met: seq<int>)
      returns (level': seq<Branch>, thisHalos': seq<int>)
      requires cycle in relationships
      requires relationships[cycle] != map[] ==> forall c | c in kids :: c.halo in relationships[cycle]
      requires Gathered(relationships, cycle, level, thisHalos, met)
      ensures Gathered(relationships, cycle, level', thisHalos', met + Halos(kids))
      ensures forall b | b in level' :: b in level || (fresh(b) && Made(relationships, b, cycle, maxChildren))
    {
      level', thisHalos' := level, thisHalos;
      ghost var seen := met;
      assert met + Halos(kids[..0]) == met;
      for m := 0 to |kids|
        invariant seen == met + Halos(kids[..m])
        invariant Gathered(relationships, cycle, level', thisHalos', seen)
        invariant forall b | b in level' :: b in level || (fresh(b) && Made(relationships, b, cycle, maxChildren))
      {
        var c := kids[m];
        HalosSnoc(kids, m);
        assert met + Halos(kids[..m + 1]) == seen + [c.halo];
        if c.halo in thisHalos' || relationships[cycle] == map[] {
          GatherSkip(relationships, cycle, level', thisHalos', seen, c.halo);
          seen := seen + [c.halo];
          continue;
        }
        var branch := Adopt(cycle, c.halo, maxChildren);
        GatherAdd(relationships, cycle, level', thisHalos', seen, branch);
        seen := seen + [c.halo];
        level' := level' + [branch];
        thisHalos' := thisHalos' + [c.halo];
      }
      assert kids[..|kids|] == kids;
    }

    /** A new branch for halo `halo` of output `cycle` (line 321). */
    method Adopt(cycle: int, halo: int, maxChildren: int) returns (branch: Branch)
      requires cycle in relationships && halo in relationships[cycle]
      ensures fresh(branch) && branch.haloId == halo && Made(relationships, branch, cycle, maxChildren)
    {
      branch := new Branch(this, cycle, halo, maxChildren, DefaultMinRelation);
    }

    /** Every child that ANY halo of output `prev` keeps (not only the halos the tree
        reaches) is a halo of output `cycle`, when that output has relationships.
        Relationships computed by find_halo_relationships always meet this; it is what
        generate_tree needs to find each child's entry. */
    ghost predicate Resolves(prev: int, cycle: int, minParticles: int, maxChildren: int)
      requires prev in relationships && cycle in relationships
    {
      relationships[cycle] != map[] ==>
        forall h, c | h in relationships[prev] &&
                      c in Heavy(Children(relationships[prev][h], maxChildren, DefaultMinRelation), minParticles) ::
          c.halo in relationships[cycle]
    }

    /** The children one level keeps are halos of output `next`, when the level is
        grown for output `cycle` and every kept child of `cycle` resolves in `next`. */
    lemma ReachesNext(prev: seq<Branch>, level: seq<Branch>, cycle: int, next: int, minParticles: int,
                      maxChildren: int)
      requires cycle in relationships && next in relationships
      requires Grown(relationships, prev, level, cycle, minParticles, maxChildren)
      requires Resolves(cycle, next, minParticles, maxChildren)
      ensures Reaches(relationships, level, next)
    {
    }

    /** generate_tree (lines 311-326): prune the trunk level, then build and prune
        each later output's level from the one before. */
    method GenerateTree(minParticles: int, maxChildren: int)
      requires |outputNumbers| > 0 && Distinct(outputNumbers)
      requires forall c | c in outputNumbers :: c in relationships
      requires outputNumbers[0] in levels
      requires |outputNumbers| > 1 && relationships[outputNumbers[1]] != map[] ==>
        forall b, c | b in levels[outputNumbers[0]] && c in b.children && c.npart > minParticles ::
          c.halo in relationships[outputNumbers[1]]
      requires forall i | 1 <= i < |outputNumbers| - 1 ::
        Resolves(outputNumbers[i], outputNumbers[i + 1], minParticles, maxChildren)
      modifies this, set b | b in levels[outputNumbers[0]]
      ensures outputNumbers == old(outputNumbers) && numbers == old(numbers) && halonum == old(halonum)
      ensures levels.Keys == old(levels).Keys + set c | c in outputNumbers
      ensures forall k | k in old(levels) && k !in outputNumbers[1..] :: levels[k] == old(levels[k])
      ensures forall b | b in levels[outputNumbers[0]] :: b.children == Heavy(old(b.children), minParticles)
      ensures forall j | 1 <= j < |outputNumbers| ::
        Grown(relationships, levels[outputNumbers[j - 1]], levels[outputNumbers[j]], outputNumbers[j],
              minParticles, maxChildren)
    {
      FilterSmallHalos(outputNumbers[0], minParticles);
      GrowLevels(minParticles, maxChildren);
    }

    /** generate_tree's loop over the outputs after the trunk (lines 313-326). */
    method GrowLevels(minParticles: int, maxChildren: int)
      requires |outputNumbers| > 0 && Distinct(outputNumbers)
      requires forall c | c in outputNumbers :: c in relationships
      requires outputNumbers[0] in levels
      requires |outputNumbers| > 1 ==> Reaches(relationships, levels[outputNumbers[0]], outputNumbers[1])
      requires forall i | 1 <= i < |outputNumbers| - 1 ::
        Resolves(outputNumbers[i], outputNumbers[i + 1], minParticles, maxChildren)
      modifies this
      ensures outputNumbers == old(outputNumbers) && numbers == old(numbers) && halonum == old(halonum)
      ensures levels.Keys == old(levels).Keys + set c | c in outputNumbers[1..]
      ensures forall k | k in old(levels) && k !in outputNumbers[1..] :: levels[k] == old(levels[k])
      ensures forall j | 1 <= j < |outputNumbers| ::
        Grown(relationships, levels[outputNumbers[j - 1]], levels[outputNumbers[j]], outputNumbers[j],
              minParticles, maxChildren)
    {
      var on := outputNumbers;
      ghost var grown: set<int> := {};
      for i := 1 to |on|
        invariant outputNumbers == on && numbers == old(numbers) && halonum == old(halonum)
        invariant Progress(old(levels), grown, i, minParticles, maxChildren)
      {
        GrowNext(i, minParticles, maxChildren, old(levels), grown);
        grown := grown + {on[i]};
      }
      assert forall k :: k in grown <==> k in on[1..];
      forall j | 1 <= j < |on|
        ensures Grown(relationships, levels[on[j - 1]], levels[on[j]], on[j], minParticles, maxChildren)
      {
        assert GrownAt(relationships, levels, on, j, minParticles, maxChildren);
      }
    }

    /** The passes of generate_tree's loop before pass `i` have built levels for
        the outputs `grown`, starting from levels `levels0`, and left the others as
        they were; the children of the last level built are halos of the next
        output. */
    ghost predicate Progress(levels0: map<int, seq<Branch>>, grown: set<int>, i: int, minParticles: int,
                             maxChildren: int)
      reads *
    {
      && (forall c | c in outputNumbers :: c in relationships)
      && Kept(levels0, levels, outputNumbers, grown, i)
      && GrownTo(relationships, levels, outputNumbers, i, minParticles, maxChildren)
      && (i < |outputNumbers| ==> Reaches(relationships, levels[outputNumbers[i - 1]], outputNumbers[i]))
    }

    /** One pass of generate_tree's loop (lines 313-326), with what the passes
        before it built.  The earlier levels stay as they were. */
    method GrowNext(i: int, minParticles: int, maxChildren: int, ghost levels0: map<int, seq<Branch>>,
                    ghost grown: set<int>)
      requires Progress(levels0, grown, i, minParticles, maxChildren)
      requires i < |outputNumbers| && Distinct(outputNumbers)
      requires forall i | 1 <= i < |outputNumbers| - 1 ::
        Resolves(outputNumbers[i], outputNumbers[i + 1], minParticles, maxChildren)
      modifies this
      ensures outputNumbers == old(outputNumbers) && numbers == old(numbers) && halonum == old(halonum)
      ensures Progress(levels0, grown + {outputNumbers[i]}, i + 1, minParticles, maxChildren)
    {
      var on := outputNumbers;
      ghost var before := levels;
      KeptHas(levels0, levels, on, grown, i);
      label Before:
      GrowLevel(i, minParticles, maxChildren);
      KeptStep(levels0, before, levels, on, grown, i);
      GrownToStep@Before(relationships, before, levels, on, i, minParticles, maxChildren);
      if i + 1 < |on| {
        ReachesNext(levels[on[i - 1]], levels[on[i]], on[i], on[i + 1], minParticles, maxChildren);
      }
    }

    /** One pass of generate_tree's loop (lines 313-326): the level of output
        `outputNumbers[i]` built from the level before it, then pruned. */
    method GrowLevel(i: int, minParticles: int, maxChildren: int)
      requires 1 <= i < |outputNumbers| && Distinct(outputNumbers)
      requires outputNumbers[i - 1] in levels && outputNumbers[i] in relationships
      requires Reaches(relationships, levels[outputNumbers[i - 1]], outputNumbers[i])
      modifies this
      ensures outputNumbers == old(outputNumbers) && numbers == old(numbers) && halonum == old(halonum)
      ensures outputNumbers[i] in levels && levels == old(levels)[outputNumbers[i] := levels[outputNumbers[i]]]
      ensures forall b | b in levels[outputNumbers[i]] :: fresh(b)
      ensures Grown(relationships, levels[outputNumbers[i - 1]], levels[outputNumbers[i]], outputNumbers[i],
                    minParticles, maxChildren)
    {
      var prev := outputNumbers[i - 1];
      var cycle := outputNumbers[i];
      assert prev != cycle;
      ghost var prevLevel := levels[prev];
      var level := NextLevel(levels[prev], cycle, maxChildren);
      ghost var met := ChildHalos(prevLevel);
      assert forall b | b in prevLevel :: b !in level;
      levels := levels[cycle := level];
      assert levels[cycle] == level;
      assert forall b | b in levels[cycle] :: fresh(b);
      FilterSmallHalos(cycle, minParticles);
      assert ChildHalos(prevLevel) == met;
    }

    /** The outputs have relationships, the latest has halo `halonum`, and every
        child kept in one output is a halo of the next one down (unless that one
        has no relationships at all). */
    ghost predicate Traceable(halonum: int, minParticles: int, maxChildren: int) {
      var on := Latest(relationships.Keys);
      && |on| > 0 && halonum in relationships[on[0]]
      && (|on| > 1 && relationships[on[1]] != map[] ==>
            forall c | c in Children(relationships[on[0]][halonum], maxChildren, DefaultMinRelation) &&
                       c.npart > minParticles ::
              c.halo in relationships[on[1]])
      && forall i | 1 <= i < |on| - 1 :: Resolves(on[i], on[i + 1], minParticles, maxChildren)
    }

    /** build_tree (lines 282-300): the trunk is halo `halonum` of the latest
        output; the tree is then grown down through the earlier outputs.  The
        requirements are what the constructor calls need to find their halos. */
    method BuildTree(halonum: int, minParticles: int, maxChildren: int)
      requires Traceable(halonum, minParticles, maxChildren)
      modifies this
      ensures this.halonum == halonum && numbers == old(numbers)
      ensures outputNumbers == Latest(relationships.Keys)
      ensures levels.Keys == relationships.Keys
      ensures |levels[outputNumbers[0]]| == 1
      ensures var trunk := levels[outputNumbers[0]][0];
        && trunk.haloId == halonum
        && Branched(relationships, trunk, outputNumbers[0], maxChildren)
        && trunk.children == Heavy(Children(relationships[outputNumbers[0]][halonum], maxChildren, DefaultMinRelation),
                                   minParticles)
      ensures forall j | 1 <= j < |outputNumbers| ::
        Grown(relationships, levels[outputNumbers[j - 1]], levels[outputNumbers[j]], outputNumbers[j],
              minParticles, maxChildren)
    {
      PlantTrunk(halonum, maxChildren);
      LatestSpec(relationships.Keys);
      ghost var trunk := levels[outputNumbers[0]][0];
      ghost var kids := trunk.children;
      assert levels[outputNumbers[0]] == [trunk];
      GenerateTree(minParticles, maxChildren);
      assert outputNumbers[0] !in outputNumbers[1..];
      assert levels[outputNumbers[0]] == [trunk];
      assert trunk.children == Heavy(kids, minParticles);
    }

    /** The start of build_tree (lines 293-298): the outputs latest first, and a
        single level holding the trunk branch. */
    method PlantTrunk(halonum: int, maxChildren: int)
      requires relationships != map[] && halonum in relationships[Latest(relationships.Keys)[0]]
      modifies this
      ensures this.halonum == halonum && numbers == old(numbers)
      ensures outputNumbers == Latest(relationships.Keys)
      ensures levels.Keys == {outputNumbers[0]} && |levels[outputNumbers[0]]| == 1
      ensures var trunk := levels[outputNumbers[0]][0];
        fresh(trunk) && trunk.haloId == halonum && Made(relationships, trunk, outputNumbers[0], maxChildren)
    {
      this.halonum := halonum;
      outputNumbers := Latest(relationships.Keys);
      var trunk := outputNumbers[0];
      var branch := Adopt(trunk, halonum, maxChildren);
      levels := map[trunk := [branch]];
    }

    /** get_massive_progenitors (lines 328-363): from halo `halonum` of the latest
        output, step to the previous output by following the link with the largest
        share of the halo's particles; stop at the first output without the halo. */
    method GetMassiveProgenitors(halonum: int, minRelation: real) returns (output: Track)
      requires forall c | c in numbers && c in relationships :: c in redshifts
      ensures exists next ::
        && Walked(relationships, redshifts, Descending(numbers), halonum, minRelation, output, next)
        && (|output.cycle| < |numbers| ==> Stops(relationships, Descending(numbers)[|output.cycle|], next))
    {
      output := Track([], [], []);
      var halo0 := halonum;
      var cycles := Descending(numbers);
      DescendingSpec(numbers);
      for n := 0 to |cycles|
        invariant |output.cycle| == n
        invariant Walked(relationships, redshifts, cycles, halonum, minRelation, output, halo0)
      {
        var cycle := cycles[n];
        if cycle !in relationships || halo0 !in relationships[cycle] {
          assert Stops(relationships, cycles[n], halo0);
          return;
        }
        var node := relationships[cycle][halo0];
        var next := MostMassive(node, halo0, minRelation);
        WalkedStep(relationships, redshifts, cycles, halonum, minRelation, output, halo0, next);
        output := Track(output.redshift + [redshifts[cycle]], output.cycle + [cycle], output.halonum + [halo0]);
        halo0 := next;
      }
    }
  }
}
