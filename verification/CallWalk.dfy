/** Which scripts a command runs, directly or through the scripts it runs. */
module CallWalk {
  import opened Results
  import Lex
  import Sorting

  /** A path, as its code points. */
  type Name = seq<int>

  /** The tracked files, and those each one's text calls, in the order of the text. */
  datatype Tree = Tree(files: set<Name>, calls: Name -> seq<Name>) {

    ghost predicate Valid() {
      forall f, t :: f in files && t in calls(f) ==> t in files
    }
  }

  /** How far a file is from the command, and the file that calls it. */
  datatype Place = Place(depth: nat, via: Option<Name>)

  const BY_NAME: Name -> seq<int> := n => n

  // ---- what is to be found

  ghost predicate RootsIn(tree: Tree, roots: seq<Name>) {
    forall r :: r in roots ==> r in tree.files
  }

  /** A chain of d calls leads from the command to f. */
  ghost predicate Reaches(tree: Tree, roots: seq<Name>, f: Name, d: nat)
    decreases d
  {
    if d == 0 then f in roots else exists p :: Reaches(tree, roots, p, d - 1) && f in tree.calls(p)
  }

  /** No shorter chain does. */
  ghost predicate At(tree: Tree, roots: seq<Name>, f: Name, d: nat) {
    Reaches(tree, roots, f, d) && forall e: nat :: e < d ==> !Reaches(tree, roots, f, e)
  }

  ghost predicate Calls(tree: Tree, roots: seq<Name>, p: Name, d: nat, f: Name) {
    At(tree, roots, p, d) && f in tree.calls(p)
  }

  /** f is at its true depth, and its caller is the least of those one call nearer. */
  ghost predicate IsPlace(tree: Tree, roots: seq<Name>, f: Name, place: Place) {
    && At(tree, roots, f, place.depth)
    && if place.depth == 0 then place.via == None
       else
         && place.via.Some? && Calls(tree, roots, place.via.value, place.depth - 1, f)
         && forall q :: Calls(tree, roots, q, place.depth - 1, f) ==> !Lex.Less(q, place.via.value)
  }

  /** What a walk is to give: each file that a chain of calls leads to, and no other, with its place. */
  ghost predicate IsWalk(tree: Tree, roots: seq<Name>, found: map<Name, Place>) {
    && (forall f, d: nat :: Reaches(tree, roots, f, d) ==> f in found)
    && (forall f :: f in found ==> IsPlace(tree, roots, f, found[f]))
  }

  lemma PlaceIsUnique(tree: Tree, roots: seq<Name>, f: Name, a: Place, b: Place)
    requires IsPlace(tree, roots, f, a) && IsPlace(tree, roots, f, b)
    ensures a == b
  {
    hide Reaches;
    assert a.depth == b.depth;
    if a.depth > 0 {
      Lex.Total(a.via.value, b.via.value);
    }
  }

  /** There is one such walk. */
  lemma WalkIsUnique(tree: Tree, roots: seq<Name>, a: map<Name, Place>, b: map<Name, Place>)
    requires IsWalk(tree, roots, a) && IsWalk(tree, roots, b)
    ensures a == b
  {
    hide Reaches;
    forall f
      ensures f in a <==> f in b
      ensures f in a && f in b ==> a[f] == b[f]
    {
      if f in a {
        assert Reaches(tree, roots, f, a[f].depth);
      }
      if f in b {
        assert Reaches(tree, roots, f, b[f].depth);
      }
      if f in a && f in b {
        PlaceIsUnique(tree, roots, f, a[f], b[f]);
      }
    }
  }

  // ---- one round of the walk

  /** Add what one file calls. */
  method Visit(found: map<Name, Place>, following: seq<Name>, targets: seq<Name>, place: Place)
    returns (found': map<Name, Place>, following': seq<Name>)
    ensures forall f :: f in found' <==> f in found || f in targets
    ensures forall f :: f in found' ==> found'[f] == if f in found then found[f] else place
    ensures forall f :: f in following' <==> f in following || (f in targets && f !in found)
  {
    found', following' := found, following;
    for j := 0 to |targets|
      invariant forall f :: f in found' <==> f in found || f in targets[..j]
      invariant forall f :: f in found' ==> found'[f] == if f in found then found[f] else place
      invariant forall f :: f in following' <==> f in following || (f in targets[..j] && f !in found)
    {
      assert targets[..j + 1] == targets[..j] + [targets[j]];
      if targets[j] !in found' {
        found' := found'[targets[j] := place];
        following' := following' + [targets[j]];
      }
    }
    assert targets[..|targets|] == targets;
  }

  /** The first of the paths to call f. */
  function FirstCaller(calls: Name -> seq<Name>, paths: seq<Name>, f: Name): (r: Option<Name>)
    ensures r.Some? ==> r.value in paths && f in calls(r.value)
    ensures r.None? ==> forall p :: p in paths ==> f !in calls(p)
  {
    if paths == [] then None
    else if f in calls(paths[0]) then Some(paths[0])
    else FirstCaller(calls, paths[1..], f)
  }

  lemma {:induction false} FirstCallerNext(calls: Name -> seq<Name>, paths: seq<Name>, p: Name, f: Name)
    ensures FirstCaller(calls, paths + [p], f) ==
            var r := FirstCaller(calls, paths, f); if r.Some? then r else if f in calls(p) then Some(p) else None
  {
    if paths == [] {
      assert [] + [p] == [p];
    } else {
      assert (paths + [p])[1..] == paths[1..] + [p];
      FirstCallerNext(calls, paths[1..], p, f);
    }
  }

  /** In order of name, the first to call is the least that does. */
  lemma {:induction false} FirstIsLeast(calls: Name -> seq<Name>, paths: seq<Name>, p: Name, f: Name)
    requires Sorting.Ascending(BY_NAME, paths) && p in paths && f in calls(p)
    ensures var r := FirstCaller(calls, paths, f); r.Some? && !Lex.Less(p, r.value)
  {
    hide Lex.Less;
    if f in calls(paths[0]) {
      var i :| 0 <= i < |paths| && paths[i] == p;
      Lex.Irreflexive(p);
      assert i > 0 ==> !Lex.Less(BY_NAME(paths[i]), BY_NAME(paths[0]));
    } else {
      assert p in paths[1..] by {
        var i :| 0 <= i < |paths| && paths[i] == p;
        assert paths[1..][i - 1] == p;
      }
      forall i, j | 0 <= i < j < |paths[1..]|
        ensures !Lex.Less(BY_NAME(paths[1..][j]), BY_NAME(paths[1..][i]))
      {
        assert !Lex.Less(BY_NAME(paths[j + 1]), BY_NAME(paths[i + 1]));
      }
      FirstIsLeast(calls, paths[1..], p, f);
    }
  }

  /** What a round over the paths finds. */
  ghost predicate Found(calls: Name -> seq<Name>, paths: seq<Name>, depth: nat,
                        found: map<Name, Place>, found': map<Name, Place>) {
    forall f ::
      && (f in found' <==> f in found || FirstCaller(calls, paths, f).Some?)
      && (f in found' ==> found'[f] == if f in found then found[f] else Place(depth, FirstCaller(calls, paths, f)))
  }

  lemma FoundNone(calls: Name -> seq<Name>, depth: nat, found: map<Name, Place>)
    ensures Found(calls, [], depth, found, found)
  {
  }

  lemma FoundNext(calls: Name -> seq<Name>, paths: seq<Name>, p: Name, depth: nat,
                  found: map<Name, Place>, found': map<Name, Place>, found'': map<Name, Place>)
    requires Found(calls, paths, depth, found, found')
    requires forall f :: f in found'' <==> f in found' || f in calls(p)
    requires forall f :: f in found'' ==> found''[f] == if f in found' then found'[f] else Place(depth, Some(p))
    ensures Found(calls, paths + [p], depth, found, found'')
  {
    hide FirstCaller;
    forall f
      ensures f in found'' <==> f in found || FirstCaller(calls, paths + [p], f).Some?
      ensures f in found'' ==>
                found''[f] == if f in found then found[f] else Place(depth, FirstCaller(calls, paths + [p], f))
    {
      FirstCallerNext(calls, paths, p, f);
    }
  }

  method Round(tree: Tree, paths: seq<Name>, depth: nat, found: map<Name, Place>)
    returns (found': map<Name, Place>, following: seq<Name>)
    ensures Found(tree.calls, paths, depth, found, found')
    ensures forall f :: f in following <==> f in found' && f !in found
  {
    hide Found, FirstCaller;
    found', following := found, [];
    FoundNone(tree.calls, depth, found);
    assert paths[..0] == [];
    for k := 0 to |paths|
      invariant Found(tree.calls, paths[..k], depth, found, found')
      invariant forall f :: f in found ==> f in found'
      invariant forall f :: f in following <==> f in found' && f !in found
    {
      ghost var before := found';
      found', following := Visit(found', following, tree.calls(paths[k]), Place(depth, Some(paths[k])));
      FoundNext(tree.calls, paths[..k], paths[k], depth, found, before, found');
      assert paths[..k + 1] == paths[..k] + [paths[k]];
    }
    assert paths[..|paths|] == paths;
  }

  // ---- the whole walk

  /** Everything up to `depth` calls away is found, at its place, and the frontier is what is that far. */
  ghost predicate Complete(tree: Tree, roots: seq<Name>, depth: nat, found: map<Name, Place>, frontier: seq<Name>) {
    && (forall f :: f in found ==> IsPlace(tree, roots, f, found[f]) && found[f].depth <= depth && f in tree.files)
    && (forall f, d: nat :: d <= depth && Reaches(tree, roots, f, d) ==> f in found)
    && (forall f :: f in frontier <==> f in found && found[f].depth == depth)
  }

  /** What is not yet found and is called from the frontier is one call further, and from there comes all that is. */
  lemma NextAt(tree: Tree, roots: seq<Name>, depth: nat, found: map<Name, Place>, frontier: seq<Name>, f: Name)
    requires tree.Valid() && Complete(tree, roots, depth, found, frontier) && f !in found
    ensures Reaches(tree, roots, f, depth + 1) <==> exists p :: p in frontier && f in tree.calls(p)
    ensures Reaches(tree, roots, f, depth + 1) ==> At(tree, roots, f, depth + 1) && f in tree.files
    ensures forall p :: Calls(tree, roots, p, depth, f) <==> p in frontier && f in tree.calls(p)
  {
    hide IsPlace;
    forall p
      ensures At(tree, roots, p, depth) <==> p in frontier
    {
      FrontierAt(tree, roots, depth, found, frontier, p);
    }
    if Reaches(tree, roots, f, depth + 1) {
      var p :| Reaches(tree, roots, p, depth) && f in tree.calls(p);
      assert p in found;
      NearerCalls(tree, roots, found, p, f, depth);
      assert p in frontier && p in tree.files;
    }
    if p :| p in frontier && f in tree.calls(p) {
      assert At(tree, roots, p, depth);
    }
  }

  lemma FrontierAt(tree: Tree, roots: seq<Name>, depth: nat, found: map<Name, Place>, frontier: seq<Name>, p: Name)
    requires Complete(tree, roots, depth, found, frontier)
    ensures At(tree, roots, p, depth) <==> p in frontier
  {
    hide Reaches;
    if At(tree, roots, p, depth) {
      assert Reaches(tree, roots, p, depth);
      assert At(tree, roots, p, found[p].depth);
    }
  }

  /** A file not found is called by none nearer than the frontier. */
  lemma NearerCalls(tree: Tree, roots: seq<Name>, found: map<Name, Place>, p: Name, f: Name, depth: nat)
    requires p in found && f in tree.calls(p) && f !in found
    requires forall f, d: nat :: d <= depth && Reaches(tree, roots, f, d) ==> f in found
    requires IsPlace(tree, roots, p, found[p]) && found[p].depth <= depth
    ensures found[p].depth == depth
  {
    if found[p].depth < depth {
      assert Reaches(tree, roots, p, found[p].depth);
      assert Reaches(tree, roots, f, found[p].depth + 1);
    }
  }

  lemma RoundCompletes(tree: Tree, roots: seq<Name>, depth: nat, found: map<Name, Place>, frontier: seq<Name>,
                       paths: seq<Name>, found': map<Name, Place>, following: seq<Name>)
    requires tree.Valid() && Complete(tree, roots, depth, found, frontier)
    requires Sorting.Ascending(BY_NAME, paths) && forall p :: p in paths <==> p in frontier
    requires Found(tree.calls, paths, depth + 1, found, found')
    requires forall f :: f in following <==> f in found' && f !in found
    ensures Complete(tree, roots, depth + 1, found', following)
  {
    hide Reaches, FirstCaller, Sorting.Ascending, IsPlace, At, Calls;
    forall f | f !in found
      ensures f in found' <==> Reaches(tree, roots, f, depth + 1)
      ensures f in found' ==> IsPlace(tree, roots, f, found'[f]) && f in tree.files
    {
      NextAt(tree, roots, depth, found, frontier, f);
      var caller := FirstCaller(tree.calls, paths, f);
      if f in found' {
        NewPlace(tree, roots, depth, paths, f);
      }
    }
  }

  lemma NewPlace(tree: Tree, roots: seq<Name>, depth: nat, paths: seq<Name>, f: Name)
    requires Sorting.Ascending(BY_NAME, paths) && FirstCaller(tree.calls, paths, f).Some?
    requires At(tree, roots, f, depth + 1)
    requires forall p :: Calls(tree, roots, p, depth, f) <==> p in paths && f in tree.calls(p)
    ensures IsPlace(tree, roots, f, Place(depth + 1, FirstCaller(tree.calls, paths, f)))
  {
    hide Sorting.Ascending, At, Calls, FirstCaller;
    forall q | Calls(tree, roots, q, depth, f)
      ensures !Lex.Less(q, FirstCaller(tree.calls, paths, f).value)
    {
      FirstIsLeast(tree.calls, paths, q, f);
    }
  }

  /** With nothing one call further, nothing is further at all. */
  lemma {:induction false} NothingFurther(tree: Tree, roots: seq<Name>, depth: nat, found: map<Name, Place>,
                                        f: Name, d: nat)
    requires tree.Valid() && Complete(tree, roots, depth, found, []) && Reaches(tree, roots, f, d)
    ensures f in found
    decreases d
  {
    hide IsPlace;
    if d > depth {
      var p :| Reaches(tree, roots, p, d - 1) && f in tree.calls(p);
      NothingFurther(tree, roots, depth, found, p, d - 1);
      if f !in found {
        NearerCalls(tree, roots, found, p, f, depth);
      }
    }
  }

  lemma RootsComplete(tree: Tree, roots: seq<Name>, found: map<Name, Place>, frontier: seq<Name>)
    requires RootsIn(tree, roots)
    requires forall f :: f in found <==> f in roots
    requires forall f :: f in found ==> found[f] == Place(0, None)
    requires forall f :: f in frontier <==> f in roots
    ensures Complete(tree, roots, 0, found, frontier)
  {
  }

  /** The source's walk, breadth first. */
  method Walk(tree: Tree, roots: seq<Name>) returns (found: map<Name, Place>)
    requires tree.Valid() && RootsIn(tree, roots)
    ensures IsWalk(tree, roots, found)
  {
    hide Reaches, IsPlace, Found;
    var frontier;
    found, frontier := Visit(map[], [], roots, Place(0, None));
    RootsComplete(tree, roots, found, frontier);
    var depth := 0;
    while frontier != []
      invariant Complete(tree, roots, depth, found, frontier)
      decreases tree.files - found.Keys, |frontier|
    {
      ghost var before := found;
      var paths := Sorting.Sort(BY_NAME, frontier);
      Sorting.SortSorts(BY_NAME, frontier);
      Sorting.SameItems(BY_NAME, frontier);
      var following;
      found, following := Round(tree, paths, depth + 1, found);
      RoundCompletes(tree, roots, depth, before, frontier, paths, found, following);
      FoundMore(tree.calls, paths, depth + 1, before, found);
      if following == [] {
        assert found.Keys == before.Keys;
      } else {
        assert following[0] in tree.files - before.Keys && following[0] in found.Keys;
      }
      depth := depth + 1;
      frontier := following;
    }
    forall f, d: nat | Reaches(tree, roots, f, d)
      ensures f in found
    {
      NothingFurther(tree, roots, depth, found, f, d);
    }
  }

  lemma FoundMore(calls: Name -> seq<Name>, paths: seq<Name>, depth: nat, found: map<Name, Place>,
                  found': map<Name, Place>)
    requires Found(calls, paths, depth, found, found')
    ensures found.Keys <= found'.Keys
  {
  }
}
