/** Which CI step an inventory shows each file at. */
module StepReach {
  import opened Results
  import opened CallWalk
  import Lex

  /** A step of the workflow: its job, its id, and the files its command names. */
  datatype Step = Step(job: Name, ident: Option<Name>, roots: seq<Name>)

  const UNNAMED: Name := [32, 40, 117, 110, 110, 97, 109, 101, 100, 32, 115, 116, 101, 112, 41]

  /** The tree, and for each combining step the files it really runs. */
  datatype Setting = Setting(tree: Tree, combining: map<Name, seq<Name>>) {

    ghost predicate Valid() {
      tree.Valid() && [] !in tree.files
    }

    predicate Combines(s: Step) {
      s.ident.Some? && s.ident.value in combining
    }

    function Label(s: Step): (shown: Name) {
      if s.ident.Some? && s.ident.value != [] then s.ident.value else s.job + UNNAMED
    }

    ghost predicate IsStepWalk(s: Step, found: map<Name, Place>) {
      if Combines(s) then found == map f | f in combining[s.ident.value] :: Place(0, None)
      else IsWalk(tree, s.roots, found)
    }

    /** What one step runs. */
    method StepWalk(s: Step) returns (found: map<Name, Place>)
      requires Valid() && RootsIn(tree, s.roots)
      ensures IsStepWalk(s, found)
    {
      if Combines(s) {
        return map f | f in combining[s.ident.value] :: Place(0, None);
      }
      found := Walk(tree, s.roots);
    }
  }

  /** A step is shown by its id, or when that is missing or empty by its job's name and a phrase. */
  lemma LabelMeans(c: Setting, s: Step)
    ensures c.Label(s) == if s.ident.Some? && |s.ident.value| > 0 then s.ident.value else s.job + UNNAMED
    ensures UNNAMED == seq(15, i requires 0 <= i < 15 => " (unnamed step)"[i] as int)
  {
  }

  /** A step whose id is listed as combining runs the files listed for it and no others, each directly; any other runs
      what its walk finds. */
  lemma StepWalkMeans(c: Setting, s: Step, found: map<Name, Place>)
    ensures c.IsStepWalk(s, found) <==>
            match s.ident
            case Some(id) =>
              if id in c.combining then
                && (forall f :: f in found <==> f in c.combining[id])
                && (forall f :: f in found ==> found[f] == Place(0, None))
              else IsWalk(c.tree, s.roots, found)
            case None => IsWalk(c.tree, s.roots, found)
  {
    hide IsWalk;
  }

  // ---- which of two steps is shown

  datatype Rank = Rank(combines: bool, depth: nat, name: Name, via: Name)

  function RankOf(c: Setting, s: Step, place: Place): (r: Rank) {
    Rank(c.Combines(s), place.depth, c.Label(s), if place.via.Some? then place.via.value else [])
  }

  predicate Before(a: Rank, b: Rank) {
    if a.combines != b.combines then !a.combines
    else if a.depth != b.depth then a.depth < b.depth
    else if a.name != b.name then Lex.Less(a.name, b.name)
    else Lex.Less(a.via, b.via)
  }

  lemma BeforeOrder(a: Rank, b: Rank, c: Rank)
    ensures !Before(a, a)
    ensures Before(a, b) && Before(b, c) ==> Before(a, c)
    ensures a != b ==> Before(a, b) || Before(b, a)
  {
    hide Lex.Less;
    Lex.Irreflexive(a.name);
    Lex.Irreflexive(a.via);
    Lex.Total(a.name, b.name);
    Lex.Total(a.via, b.via);
    if Lex.Less(a.name, b.name) && Lex.Less(b.name, c.name) {
      Lex.Transitive(a.name, b.name, c.name);
    }
    if Lex.Less(a.via, b.via) && Lex.Less(b.via, c.via) {
      Lex.Transitive(a.via, b.via, c.via);
    }
  }

  /** What is shown for a file: the step's label and the calling file. */
  type Shown = (Name, Option<Name>)

  /** Step s runs f at this place. */
  ghost predicate Runs(c: Setting, s: Step, f: Name, place: Place) {
    exists found :: c.IsStepWalk(s, found) && f in found && found[f] == place
  }

  /** Step s is shown for f, among these steps: none that runs f comes before it. */
  ghost predicate Wins(c: Setting, steps: seq<Step>, f: Name, s: Step, place: Place) {
    && s in steps && Runs(c, s, f, place)
    && forall t, other :: t in steps && Runs(c, t, f, other) ==> !Before(RankOf(c, t, other), RankOf(c, s, place))
  }

  ghost predicate IsReach(c: Setting, steps: seq<Step>, reach: map<Name, Shown>) {
    && (forall f, s, place :: s in steps && Runs(c, s, f, place) ==> f in reach)
    && (forall f :: f in reach ==>
          exists s, place :: Wins(c, steps, f, s, place) && reach[f] == (c.Label(s), place.via))
  }

  // ---- the source's loops

  /** After the first steps: what is best so far for each file. */
  ghost predicate Best(c: Setting, steps: seq<Step>, best: map<Name, (Rank, Shown)>) {
    && (forall f, s, place :: s in steps && Runs(c, s, f, place) ==> f in best)
    && (forall f :: f in best ==> BestAt(c, steps, f, best[f]))
  }

  ghost predicate BestAt(c: Setting, steps: seq<Step>, f: Name, b: (Rank, Shown)) {
    exists s, place :: Wins(c, steps, f, s, place) && b == (RankOf(c, s, place), (c.Label(s), place.via))
  }

  lemma RunsOnce(c: Setting, s: Step, found: map<Name, Place>, f: Name, place: Place)
    requires c.IsStepWalk(s, found)
    ensures Runs(c, s, f, place) <==> f in found && found[f] == place
  {
    hide IsWalk;
    if Runs(c, s, f, place) {
      var other :| c.IsStepWalk(s, other) && f in other && other[f] == place;
      if !c.Combines(s) {
        WalkIsUnique(c.tree, s.roots, found, other);
      }
    }
  }

  /** One more step: where it runs f and comes before the best so far, or f had none, it is the best. */
  lemma BestNext(c: Setting, steps: seq<Step>, s: Step, found: map<Name, Place>, f: Name,
                 best: map<Name, (Rank, Shown)>)
    requires Best(c, steps, best) && c.IsStepWalk(s, found)
    ensures f !in found && f in best ==> BestAt(c, steps + [s], f, best[f])
    ensures f in found ==>
              var rank := RankOf(c, s, found[f]);
              if f !in best || Before(rank, best[f].0)
              then BestAt(c, steps + [s], f, (rank, (c.Label(s), found[f].via)))
              else BestAt(c, steps + [s], f, best[f])
  {
    hide RankOf, Before, Runs, Setting.IsStepWalk, Setting.Label;
    var all := steps + [s];
    assert forall t :: t in all <==> t in steps || t == s;
    forall place
      ensures Runs(c, s, f, place) <==> f in found && found[f] == place
    {
      RunsOnce(c, s, found, f, place);
    }
    if f in best {
      var t, at :| Wins(c, steps, f, t, at) && best[f] == (RankOf(c, t, at), (c.Label(t), at.via));
      var first := RankOf(c, t, at);
      if f in found && Before(RankOf(c, s, found[f]), first) {
        var rank := RankOf(c, s, found[f]);
        BeforeOrder(rank, rank, rank);
        forall u, other | u in all && Runs(c, u, f, other)
          ensures !Before(RankOf(c, u, other), rank)
        {
          BeforeOrder(RankOf(c, u, other), rank, first);
        }
        assert Wins(c, all, f, s, found[f]);
      } else {
        assert Wins(c, all, f, t, at);
      }
    } else if f in found {
      var rank := RankOf(c, s, found[f]);
      BeforeOrder(rank, rank, rank);
      assert Wins(c, all, f, s, found[f]);
    }
  }

  /** `best` after one step, over the files it runs that are not `left`. */
  ghost predicate Updated(c: Setting, s: Step, found: map<Name, Place>, left: set<Name>,
                          best: map<Name, (Rank, Shown)>, best': map<Name, (Rank, Shown)>) {
    forall f ::
      && (f in best' <==> f in best || (f in found && f !in left))
      && (f in best' ==>
            best'[f] == (if f in found && f !in left && (f !in best || Before(RankOf(c, s, found[f]), best[f].0))
                         then (RankOf(c, s, found[f]), (c.Label(s), found[f].via)) else best[f]))
  }

  method Improve(c: Setting, s: Step, found: map<Name, Place>, best: map<Name, (Rank, Shown)>)
    returns (best': map<Name, (Rank, Shown)>)
    ensures Updated(c, s, found, {}, best, best')
  {
    hide RankOf, Before, Setting.Label;
    best' := best;
    var left := found.Keys;
    while left != {}
      invariant left <= found.Keys
      invariant Updated(c, s, found, left, best, best')
      decreases |left|
    {
      var f :| f in left;
      left := left - {f};
      var rank := RankOf(c, s, found[f]);
      if f !in best' || Before(rank, best'[f].0) {
        best' := best'[f := (rank, (c.Label(s), found[f].via))];
      }
    }
  }

  lemma UpdatedIsBest(c: Setting, steps: seq<Step>, s: Step, found: map<Name, Place>,
                      best: map<Name, (Rank, Shown)>, best': map<Name, (Rank, Shown)>)
    requires Best(c, steps, best) && c.IsStepWalk(s, found) && Updated(c, s, found, {}, best, best')
    ensures Best(c, steps + [s], best')
  {
    hide RankOf, Before, Runs, Setting.IsStepWalk, Setting.Label, BestAt;
    forall f | f in best'
      ensures BestAt(c, steps + [s], f, best'[f])
    {
      BestNext(c, steps, s, found, f, best);
    }
    forall f, t, place | t in steps + [s] && Runs(c, t, f, place)
      ensures f in best'
    {
      if t == s {
        RunsOnce(c, s, found, f, place);
      }
    }
  }

  /** The best step for every file, over the steps in order. */
  method Reachability(c: Setting, steps: seq<Step>) returns (reach: map<Name, Shown>)
    requires c.Valid() && forall s :: s in steps ==> RootsIn(c.tree, s.roots)
    ensures IsReach(c, steps, reach)
  {
    hide RankOf, Before, Runs, Setting.IsStepWalk, Setting.Label, Updated, RootsIn, Wins;
    var best: map<Name, (Rank, Shown)> := map[];
    for k := 0 to |steps|
      invariant Best(c, steps[..k], best)
    {
      var found := c.StepWalk(steps[k]);
      ghost var before := best;
      best := Improve(c, steps[k], found, best);
      UpdatedIsBest(c, steps[..k], steps[k], found, before, best);
      assert steps[..k + 1] == steps[..k] + [steps[k]];
    }
    assert steps[..|steps|] == steps;
    reach := map f | f in best :: best[f].1;
    forall f | f in reach
      ensures exists s, place :: Wins(c, steps, f, s, place) && reach[f] == (c.Label(s), place.via)
    {
      assert BestAt(c, steps, f, best[f]);
    }
  }

  // ---- what does not matter, and what does

  lemma CallerIsFile(tree: Tree, roots: seq<Name>, f: Name, place: Place)
    requires tree.Valid() && RootsIn(tree, roots) && IsPlace(tree, roots, f, place)
    ensures place.via.Some? ==> place.via.value in tree.files
  {
    hide Lex.Less, Tree.Valid, RootsIn, Reaches;
    if place.via.Some? {
      ReachedIsFile(tree, roots, place.via.value, place.depth - 1);
    }
  }

  lemma ViaIsNamed(c: Setting, s: Step, f: Name, place: Place)
    requires c.Valid() && RootsIn(c.tree, s.roots) && Runs(c, s, f, place)
    ensures place.via.Some? ==> place.via.value != []
  {
    hide IsPlace, RootsIn, Tree.Valid;
    var found :| c.IsStepWalk(s, found) && f in found && found[f] == place;
    if !c.Combines(s) {
      CallerIsFile(c.tree, s.roots, f, place);
    }
  }

  lemma {:induction false} ReachedIsFile(tree: Tree, roots: seq<Name>, f: Name, d: nat)
    requires tree.Valid() && RootsIn(tree, roots) && Reaches(tree, roots, f, d)
    ensures f in tree.files
    decreases d
  {
    if d > 0 {
      var p :| Reaches(tree, roots, p, d - 1) && f in tree.calls(p);
      ReachedIsFile(tree, roots, p, d - 1);
    }
  }

  /** Two winners show the same. */
  lemma WinnersAgree(c: Setting, steps: seq<Step>, f: Name, s: Step, a: Place, t: Step, b: Place)
    requires c.Valid() && forall s :: s in steps ==> RootsIn(c.tree, s.roots)
    requires Wins(c, steps, f, s, a) && Wins(c, steps, f, t, b)
    ensures (c.Label(s), a.via) == (c.Label(t), b.via)
  {
    hide Runs, RootsIn, Setting.Label, Setting.Valid;
    BeforeOrder(RankOf(c, s, a), RankOf(c, t, b), RankOf(c, s, a));
    hide Before;
    ViaIsNamed(c, s, f, a);
    ViaIsNamed(c, t, f, b);
  }

  /** The inventory does not depend on the order of the steps, ties and repeats included. */
  lemma OrderDoesNotMatter(c: Setting, steps: seq<Step>, other: seq<Step>, a: map<Name, Shown>, b: map<Name, Shown>)
    requires c.Valid() && forall s :: s in steps ==> RootsIn(c.tree, s.roots)
    requires multiset(steps) == multiset(other) && IsReach(c, steps, a) && IsReach(c, other, b)
    ensures a == b
  {
    hide Runs, RootsIn, Setting.Label, Before, RankOf, Setting.Valid;
    SameSteps(steps, other);
    forall f
      ensures f in a <==> f in b
      ensures f in a && f in b ==> a[f] == b[f]
    {
      if f in a {
        var s, place :| Wins(c, steps, f, s, place) && a[f] == (c.Label(s), place.via);
        assert s in other && Runs(c, s, f, place);
      }
      if f in b {
        var s, place :| Wins(c, other, f, s, place) && b[f] == (c.Label(s), place.via);
        assert s in steps && Runs(c, s, f, place);
      }
      if f in a && f in b {
        var s, p :| Wins(c, steps, f, s, p) && a[f] == (c.Label(s), p.via);
        var t, q :| Wins(c, other, f, t, q) && b[f] == (c.Label(t), q.via);
        assert Wins(c, steps, f, t, q);
        WinnersAgree(c, steps, f, s, p, t, q);
      }
    }
  }

  lemma SameSteps(a: seq<Step>, b: seq<Step>)
    requires multiset(a) == multiset(b)
    ensures forall s :: s in a <==> s in b
  {
    forall s
      ensures s in a <==> s in b
    {
      assert s in a <==> s in multiset(a);
      assert s in b <==> s in multiset(b);
    }
  }

  /** A file that a step runs itself is never shown at one that only combines what others ran, nor at one further
      from it. */
  lemma DirectStepWins(c: Setting, steps: seq<Step>, f: Name, s: Step, place: Place, t: Step, other: Place)
    requires Wins(c, steps, f, s, place) && t in steps && Runs(c, t, f, other)
    ensures !c.Combines(t) ==> !c.Combines(s)
    ensures c.Combines(t) == c.Combines(s) ==> place.depth <= other.depth
    ensures c.Combines(t) == c.Combines(s) && place.depth == other.depth ==> !Lex.Less(c.Label(t), c.Label(s))
  {
    hide Runs, Lex.Less, Setting.Label, Setting.Combines;
    assert !Before(RankOf(c, t, other), RankOf(c, s, place));
    Lex.Irreflexive(c.Label(t));
  }
}
