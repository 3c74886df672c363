/** JSON.retrocycle (lib/decyclePolyfill.js). */
module Retrocycle {
  // The `{"$ref": PATH}` slots of a tree are overwritten in place with the objects their paths lead to. Objects of
  // the loaded tree are identified by their position; a reference to anywhere else is a value outside of the tree.

  import opened Wrappers
  import opened Decycle

  type Objects = map<Path, Obj<Path>>

  // ---------------------------------------------------------------- a tree as objects

  function LoadVal(kid: Tree, at: Path): Val<Path> {
    match kid
    case Leaf(p) => Prim(p)
    case Node(_, _) => Ref(at)
  }

  /** What a slot holds once it has been visited. */
  function LinkVal(kid: Tree, at: Path): Val<Path> {
    match RefTarget(kid)
    case Some(target) => Ref(target)
    case None => LoadVal(kid, at)
  }

  /** The object of a node of which the first `linked` slots have been visited. */
  function ObjOf(n: Tree, at: Path, linked: nat): Obj<Path>
    requires n.Node?
  {
    Obj(n.isArray, seq(|n.kids|, k requires 0 <= k < |n.kids| =>
      var pos := at + [n.kids[k].step];
      Slot(n.kids[k].step, if k < linked then LinkVal(n.kids[k].tree, pos) else LoadVal(n.kids[k].tree, pos))))
  }

  function Loaded(n: Tree, at: Path): Obj<Path>
    requires n.Node?
  {
    ObjOf(n, at, 0)
  }

  function Linked(n: Tree, at: Path): Obj<Path>
    requires n.Node?
  {
    ObjOf(n, at, |n.kids|)
  }

  ghost predicate DistinctTree(root: Tree) {
    forall q | IsNodeAt(root, q) :: DistinctKids(At(root, q).value.kids)
  }

  predicate CleanKids(n: Tree)
    requires n.Node?
  {
    forall k | 0 <= k < |n.kids| :: !IsLost(n.isArray, n.kids[k].step)
  }

  /** No array has a named slot and no plain object a `__proto__`. */
  ghost predicate CleanTree(root: Tree) {
    forall q | IsNodeAt(root, q) :: CleanKids(At(root, q).value)
  }

  /** A tree that decycle could have made: references hold nothing but the path, which leads to a plain node or
      through a `__proto__`. */
  ghost predicate Linkable(root: Tree) {
    && DistinctTree(root) && CleanTree(root)
    && forall q | IsNodeAt(root, q) && RefTarget(At(root, q).value).Some? ::
         var target := RefTarget(At(root, q).value).value;
         At(root, q).value == RefNode(target) && (PlainAt(root, target) || Hidden(target))
  }

  ghost predicate NoHiddenTargets(root: Tree) {
    forall q | IsNodeAt(root, q) && RefTarget(At(root, q).value).Some? :: !Hidden(RefTarget(At(root, q).value).value)
  }

  /** Exactly the objects of a tree, each loaded and perhaps partly linked. */
  ghost predicate Holds(objects: Objects, root: Tree) {
    && (forall q | q in objects :: IsNodeAt(root, q))
    && forall q | IsNodeAt(root, q) ::
         q in objects && exists linked :: objects[q] == ObjOf(At(root, q).value, q, linked)
  }

  // ---------------------------------------------------------------- eval(path)

  /** The index of the slot with that name; the number of slots if there is none. */
  function FindSlot(slots: seq<Slot<Path>>, step: Step): (k: nat)
    ensures k <= |slots| && (k < |slots| ==> slots[k].step == step)
    ensures forall j | 0 <= j < k :: slots[j].step != step
  {
    if slots == [] || slots[0].step == step then 0 else 1 + FindSlot(slots[1..], step)
  }

  /** `$[..][..]`, evaluated from the root object; None when the path leaves the tree. */
  function Eval(objects: Objects, path: Path): Option<Val<Path>> {
    if path == [] then Some(Ref([])) else
      var n := |path| - 1;
      match Eval(objects, path[..n])
      case Some(Ref(id)) =>
        if id !in objects then None else
          var k := FindSlot(objects[id].slots, path[n]);
          if k < |objects[id].slots| then Some(objects[id].slots[k].val) else None
      case _ => None
  }

  lemma SlotOfKid(n: Tree, at: Path, linked: nat, k: nat)
    requires n.Node? && DistinctKids(n.kids) && k < |n.kids|
    ensures FindSlot(ObjOf(n, at, linked).slots, n.kids[k].step) == k
  {
    var slots := ObjOf(n, at, linked).slots;
    assert slots[k].step == n.kids[k].step;
    var j := FindSlot(slots, n.kids[k].step);
    assert j <= k;
    assert slots[j].step == n.kids[j].step;
  }

  /** The path of a plain node leads to its object, whichever slots have been overwritten so far. */
  lemma {:induction false} EvalPlain(objects: Objects, root: Tree, q: Path)
    requires DistinctTree(root) && Holds(objects, root) && PlainAt(root, q)
    ensures Eval(objects, q) == Some(Ref(q))
    decreases |q|
  {
    if q != [] {
      var p, step := q[..|q| - 1], q[|q| - 1];
      assert q == p + [step];
      EvalPlain(objects, root, p);
      AtConcat(root, p, [step]);
      var parent := At(root, p).value;
      var k := AtKidInverse(parent.kids, step);
      var linked :| objects[p] == ObjOf(parent, p, linked);
      SlotOfKid(parent, p, linked, k);
      assert objects[p].slots[k].val == Ref(q);
    }
  }

  /** A path through `__proto__` leaves the tree: no object has a slot of that name. */
  lemma {:induction false} EvalHidden(objects: Objects, root: Tree, path: Path)
    requires CleanTree(root) && Holds(objects, root) && Hidden(path)
    ensures Eval(objects, path).None?
    decreases |path|
  {
    var n := |path| - 1;
    if path[n] != ProtoKey {
      var i :| 0 <= i < |path| && path[i] == ProtoKey;
      assert path[..n][i] == ProtoKey;
      EvalHidden(objects, root, path[..n]);
    } else {
      match Eval(objects, path[..n])
      case Some(Ref(id)) =>
        if id in objects {
          var node := At(root, id).value;
          var linked :| objects[id] == ObjOf(node, id, linked);
          assert CleanKids(node);
          assert forall k | 0 <= k < |objects[id].slots| :: objects[id].slots[k].step == node.kids[k].step != ProtoKey;
        }
      case _ =>
    }
  }

  // ---------------------------------------------------------------- retrocycle

  /** Everything strictly below the first `linked` kids of the node at `at`, and nothing else, is linked. */
  ghost predicate Progress(before: Objects, objects: Objects, root: Tree, at: Path, linked: nat)
    requires IsNodeAt(root, at)
  {
    var n := At(root, at).value;
    && objects.Keys == before.Keys && at in objects
    && objects[at] == ObjOf(n, at, linked)
    && forall q | q in objects && q != at ::
         objects[q] == if IsNodeAt(root, q) && Under(n.kids, at, linked, q)
                       then Linked(At(root, q).value, q) else before[q]
  }

  /** `q` lies at or below one of the first `linked` kids of the node at `at`. */
  predicate Under(kids: seq<Kid>, at: Path, linked: nat, q: Path) {
    exists k | 0 <= k < |kids| :: k < linked && Below(at + [kids[k].step], q)
  }

  /** `item.$ref`, when it is a well-formed path. */
  function RefPath(o: Obj<Path>): Option<Path> {
    var k := FindSlot(o.slots, RefKey);
    if k == |o.slots| then None else
      match o.slots[k].val
      case Prim(PathText(path)) => Some(path)
      case _ => None
  }

  lemma RefPathLoaded(n: Tree, at: Path)
    requires n.Node? && DistinctKids(n.kids)
    ensures RefPath(Loaded(n, at)) == RefTarget(n)
  {
    var slots := Loaded(n, at).slots;
    var k := FindSlot(slots, RefKey);
    if k < |slots| {
      assert slots[k].step == n.kids[k].step;
      AtKid(n.kids, k);
    } else {
      forall j | 0 <= j < |n.kids| ensures n.kids[j].step != RefKey { assert slots[j].step != RefKey; }
      NoKid(n.kids, RefKey);
    }
  }

  /** What stands below a kid stands below the node. */
  lemma AtBelowKid(root: Tree, at: Path, k: nat, q: Path)
    requires DistinctTree(root) && IsNodeAt(root, at) && k < |At(root, at).value.kids|
    requires Below(at + [At(root, at).value.kids[k].step], q)
    ensures At(root, at + [At(root, at).value.kids[k].step]) == Some(At(root, at).value.kids[k].tree)
    ensures At(root, q) == At(At(root, at).value.kids[k].tree, q[|at| + 1..])
  {
    var kids := At(root, at).value.kids;
    var pos := at + [kids[k].step];
    AtConcat(root, at, [kids[k].step]);
    AtKid(kids, k);
    assert At(root, pos) == Some(kids[k].tree);
    assert q == pos + q[|at| + 1..];
    AtConcat(root, pos, q[|at| + 1..]);
  }

  lemma UnderNext(kids: seq<Kid>, at: Path, i: nat, q: Path)
    requires i < |kids|
    ensures Under(kids, at, i + 1, q) <==> Under(kids, at, i, q) || Below(at + [kids[i].step], q)
  {
  }

  /** A kid that is a leaf: nothing to do. */
  lemma PassLeaf(before: Objects, objects: Objects, root: Tree, at: Path, i: nat)
    requires DistinctTree(root) && IsNodeAt(root, at) && i < |At(root, at).value.kids|
    requires Progress(before, objects, root, at, i) && At(root, at).value.kids[i].tree.Leaf?
    ensures Progress(before, objects, root, at, i + 1)
  {
    var n := At(root, at).value;
    assert ObjOf(n, at, i + 1) == ObjOf(n, at, i);
    forall q | q in objects && q != at
      ensures IsNodeAt(root, q) ==> (Under(n.kids, at, i + 1, q) <==> Under(n.kids, at, i, q))
    {
      UnderNext(n.kids, at, i, q);
      if Below(at + [n.kids[i].step], q) { AtBelowKid(root, at, i, q); }
    }
  }

  /** The only node at or below a kid that is a reference is the kid. */
  lemma OnlyTheReference(root: Tree, at: Path, i: nat, target: Path, q: Path)
    requires DistinctTree(root) && IsNodeAt(root, at) && i < |At(root, at).value.kids|
    requires At(root, at).value.kids[i].tree == RefNode(target)
    requires IsNodeAt(root, q) && Below(at + [At(root, at).value.kids[i].step], q)
    ensures q == at + [At(root, at).value.kids[i].step] && At(root, q).value == RefNode(target)
  {
    var pos := at + [At(root, at).value.kids[i].step];
    AtBelowKid(root, at, i, q);
    RefNodeHasOneNode(target, q[|pos|..]);
    assert q == pos + q[|pos|..];
  }

  lemma OverwriteReference(n: Tree, at: Path, i: nat, target: Path)
    requires n.Node? && i < |n.kids| && RefTarget(n.kids[i].tree) == Some(target)
    ensures var o := ObjOf(n, at, i);
            |o.slots| == |n.kids| && ObjOf(n, at, i + 1) == o.(slots := o.slots[i := Slot(n.kids[i].step, Ref(target))])
  {
  }

  lemma KidIsReference(root: Tree, at: Path, i: nat, target: Path)
    requires Linkable(root) && IsNodeAt(root, at) && i < |At(root, at).value.kids|
    requires RefTarget(At(root, at).value.kids[i].tree) == Some(target)
    ensures DistinctTree(root) && At(root, at).value.kids[i].tree == RefNode(target)
  {
    AtBelowKid(root, at, i, at + [At(root, at).value.kids[i].step]);
  }

  /** A kid that is a reference: its slot is overwritten. */
  lemma PassReference(before: Objects, objects: Objects, root: Tree, at: Path, i: nat, target: Path)
    requires Linkable(root) && IsNodeAt(root, at) && i < |At(root, at).value.kids|
    requires Progress(before, objects, root, at, i)
    requires RefTarget(At(root, at).value.kids[i].tree) == Some(target)
    requires forall q | IsNodeAt(root, q) && Below(at, q) :: q in before && before[q] == Loaded(At(root, q).value, q)
    ensures var o, step := objects[at], At(root, at).value.kids[i].step;
            var next := objects[at := o.(slots := o.slots[i := Slot(step, Ref(target))])];
            Progress(before, next, root, at, i + 1)
  {
    hide Linked, Loaded, Linkable, DistinctTree, RefNode, RefTarget, ObjOf, At, Below, Under;
    var n := At(root, at).value;
    var o, step := objects[at], n.kids[i].step;
    var pos := at + [step];
    KidIsReference(root, at, i, target);
    OverwriteReference(n, at, i, target);
    var next := objects[at := o.(slots := o.slots[i := Slot(step, Ref(target))])];
    forall q | q in next && q != at
      ensures next[q] == if IsNodeAt(root, q) && Under(n.kids, at, i + 1, q) then Linked(At(root, q).value, q)
                         else before[q]
    {
      UnderNext(n.kids, at, i, q);
      if IsNodeAt(root, q) && Below(pos, q) {
        OnlyTheReference(root, at, i, target, q);
        BelowStep(at, step, q);
        RefNodeLinked(target, pos);
      }
    }
  }

  lemma RefNodeHasOneNode(target: Path, q: Path)
    ensures q != [] ==> !IsNodeAt(RefNode(target), q)
  {
    if q != [] {
      var kids := RefNode(target).kids;
      assert At(RefNode(target), q) == AtKids(kids, q) && kids[1..] == [];
      assert AtKids(kids, q) == if kids[0].step == q[0] then At(kids[0].tree, q[1..]) else AtKids(kids[1..], q);
      assert kids[0].tree.Leaf? && AtKids([], q) == None;
    }
  }

  lemma RefNodeLinked(target: Path, at: Path)
    ensures Linked(RefNode(target), at) == Loaded(RefNode(target), at)
  {
  }

  /** A kid that is an object: everything at and below it has been linked by the recursive call. */
  lemma PassObject(before: Objects, middle: Objects, objects: Objects, root: Tree, at: Path, i: nat)
    requires DistinctTree(root) && IsNodeAt(root, at) && i < |At(root, at).value.kids|
    requires Progress(before, middle, root, at, i)
    requires At(root, at).value.kids[i].tree.Node? && RefTarget(At(root, at).value.kids[i].tree).None?
    requires objects.Keys == middle.Keys
    requires var pos := at + [At(root, at).value.kids[i].step];
             forall q | q in objects ::
               objects[q] == if IsNodeAt(root, q) && Below(pos, q) then Linked(At(root, q).value, q) else middle[q]
    ensures Progress(before, objects, root, at, i + 1)
  {
    var n := At(root, at).value;
    assert ObjOf(n, at, i + 1) == ObjOf(n, at, i);
    assert !Below(at + [n.kids[i].step], at);
    forall q | q in objects && q != at
      ensures objects[q] == if IsNodeAt(root, q) && Under(n.kids, at, i + 1, q) then Linked(At(root, q).value, q)
                            else before[q]
    {
      UnderNext(n.kids, at, i, q);
    }
  }

  lemma ProgressHolds(before: Objects, objects: Objects, root: Tree, at: Path, linked: nat)
    requires IsNodeAt(root, at) && Holds(before, root) && Progress(before, objects, root, at, linked)
    ensures Holds(objects, root)
  {
    assert forall q | q in objects :: q in before;
    forall q | IsNodeAt(root, q) ensures q in objects && exists l :: objects[q] == ObjOf(At(root, q).value, q, l) {
      assert q in before;
      if q == at { assert objects[q] == ObjOf(At(root, q).value, q, linked); }
    }
  }

  lemma {:induction false} KidOnPath(kids: seq<Kid>, path: Path) returns (k: nat)
    requires path != [] && AtKids(kids, path).Some?
    ensures k < |kids| && kids[k].step == path[0]
    decreases |kids|
  {
    if kids[0].step == path[0] {
      k := 0;
    } else {
      k := KidOnPath(kids[1..], path);
      k := k + 1;
    }
  }

  lemma BelowSomeKid(root: Tree, at: Path, q: Path) returns (k: nat)
    requires IsNodeAt(root, at) && At(root, q).Some? && q != at && Below(at, q)
    ensures k < |At(root, at).value.kids| && Below(at + [At(root, at).value.kids[k].step], q)
  {
    var n, rest := At(root, at).value, q[|at|..];
    assert q == at + rest;
    AtConcat(root, at, rest);
    assert AtKids(n.kids, rest).Some?;
    hide At, AtKids;
    k := KidOnPath(n.kids, rest);
    BelowStep(at, n.kids[k].step, q);
  }

  lemma UnderSomeKid(root: Tree, at: Path, q: Path)
    requires IsNodeAt(root, at) && At(root, q).Some? && q != at
    ensures var kids := At(root, at).value.kids;
            Under(kids, at, |kids|, q) <==> Below(at, q)
  {
    var n := At(root, at).value;
    if Below(at, q) {
      var k := BelowSomeKid(root, at, q);
    } else {
      forall k | 0 <= k < |n.kids| ensures !Below(at + [n.kids[k].step], q) { BelowStep(at, n.kids[k].step, q); }
    }
  }

  /** Once all kids have been passed, exactly the nodes at and below `at` are linked. */
  lemma ProgressDone(before: Objects, objects: Objects, root: Tree, at: Path)
    requires IsNodeAt(root, at) && Progress(before, objects, root, at, |At(root, at).value.kids|)
    ensures forall q | q in objects ::
              objects[q] == if IsNodeAt(root, q) && Below(at, q) then Linked(At(root, q).value, q) else before[q]
  {
    forall q | q in objects
      ensures objects[q] == if IsNodeAt(root, q) && Below(at, q) then Linked(At(root, q).value, q) else before[q]
    {
      if q != at && IsNodeAt(root, q) { UnderSomeKid(root, at, q); }
    }
  }

  class Store {
    var objects: Objects

    constructor (objects: Objects)
      ensures this.objects == objects
    {
      this.objects := objects;
    }

    /** The walk: it visits the tree's own objects only, and overwrites the slots that hold references. Evaluating
        a path that leaves the tree gives a value from outside, or throws and ends the walk. */
    method Rez(at: Path, outside: Path -> bool, ghost root: Tree) returns (ok: bool)
      requires Linkable(root) && Holds(objects, root)
      requires IsNodeAt(root, at) && RefTarget(At(root, at).value).None?
      requires forall q | IsNodeAt(root, q) && Below(at, q) :: objects[q] == Loaded(At(root, q).value, q)
      modifies this
      ensures NoHiddenTargets(root) ==> ok
      ensures ok ==>
                && objects.Keys == old(objects).Keys
                && forall q | q in objects ::
                     objects[q] == if IsNodeAt(root, q) && Below(at, q) then Linked(At(root, q).value, q)
                                   else old(objects)[q]
      decreases At(root, at).value
    {
      hide NoHiddenTargets;
      ghost var before, n := objects, At(root, at).value;
      assert objects[at] == Loaded(n, at);
      for i := 0 to |objects[at].slots|
        invariant at in objects && |objects[at].slots| == |n.kids|
        invariant Progress(before, objects, root, at, i)
      {
        ProgressHolds(before, objects, root, at, i);
        ghost var kid, pos := n.kids[i].tree, at + [n.kids[i].step];
        AtBelowKid(root, at, i, pos);
        var item := objects[at].slots[i].val;
        if item.Ref? {
          NotYetVisited(before, objects, root, at, i);
          var path := RefPath(objects[item.id]);
          if path.Some? {
            TargetIs(objects, root, pos, path.value);
            var target := Eval(objects, path.value);
            if target.None? && !outside(path.value) { return false; }
            var value := if target.Some? then target.value else Ref(path.value);
            PassReference(before, objects, root, at, i, path.value);
            objects := objects[at := objects[at].(slots :=
              objects[at].slots[i := Slot(objects[at].slots[i].step, value)])];
          } else {
            ghost var middle := objects;
            ok := Rez(item.id, outside, root);
            if !ok { return; }
            PassObject(before, middle, objects, root, at, i);
          }
        } else {
          PassLeaf(before, objects, root, at, i);
        }
      }
      ProgressDone(before, objects, root, at);
      return true;
    }
  }

  /** What the path of a reference evaluates to. */
  lemma TargetIs(objects: Objects, root: Tree, q: Path, target: Path)
    requires Linkable(root) && Holds(objects, root) && IsNodeAt(root, q) && RefTarget(At(root, q).value) == Some(target)
    ensures Eval(objects, target) == Some(Ref(target)) || Eval(objects, target).None?
    ensures NoHiddenTargets(root) ==> Eval(objects, target).Some?
  {
    if Hidden(target) { EvalHidden(objects, root, target); } else { EvalPlain(objects, root, target); }
  }

  /** The kid about to be visited, and everything below it, is as it was loaded. */
  lemma NotYetVisited(before: Objects, objects: Objects, root: Tree, at: Path, i: nat)
    requires Linkable(root) && Holds(before, root) && IsNodeAt(root, at) && i < |At(root, at).value.kids|
    requires Progress(before, objects, root, at, i) && At(root, at).value.kids[i].tree.Node?
    requires forall q | IsNodeAt(root, q) && Below(at, q) :: before[q] == Loaded(At(root, q).value, q)
    ensures var pos := at + [At(root, at).value.kids[i].step];
            && IsNodeAt(root, pos) && pos in objects
            && RefPath(objects[pos]) == RefTarget(At(root, at).value.kids[i].tree)
            && forall q | IsNodeAt(root, q) && Below(pos, q) :: objects[q] == Loaded(At(root, q).value, q)
  {
    var n := At(root, at).value;
    var pos := at + [n.kids[i].step];
    AtBelowKid(root, at, i, pos);
    forall q | IsNodeAt(root, q) && Below(pos, q) ensures objects[q] == Loaded(At(root, q).value, q) {
      assert q in before;
      BelowStep(at, n.kids[i].step, q);
      forall k | 0 <= k < i ensures !Below(at + [n.kids[k].step], q) { BelowStep(at, n.kids[k].step, q); }
    }
    RefPathLoaded(At(root, pos).value, pos);
  }

  // ---------------------------------------------------------------- parsing the tree

  function Positions(t: Tree): set<Path> {
    if t.Leaf? then {} else
      {[]} + set k, q | 0 <= k < |t.kids| && q in Positions(t.kids[k].tree) :: [t.kids[k].step] + q
  }

  /** The objects of a tree as JSON.parse creates them, identified by their positions. */
  function LoadTree(t: Tree): Objects {
    map q | q in Positions(t) && IsNodeAt(t, q) :: Loaded(At(t, q).value, q)
  }

  lemma {:induction false} PositionsComplete(t: Tree, q: Path)
    requires IsNodeAt(t, q)
    ensures q in Positions(t)
    decreases |q|
  {
    if q != [] {
      assert q == [q[0]] + q[1..];
      AtConcat(t, [q[0]], q[1..]);
      var k := AtKidInverse(t.kids, q[0]);
      PositionsComplete(t.kids[k].tree, q[1..]);
    }
  }

  lemma LoadTreeLoads(t: Tree)
    ensures forall q | IsNodeAt(t, q) :: q in LoadTree(t) && LoadTree(t)[q] == Loaded(At(t, q).value, q)
    ensures Holds(LoadTree(t), t) && forall q | q in LoadTree(t) :: IsNodeAt(t, q)
  {
    forall q | IsNodeAt(t, q) ensures q in LoadTree(t) && LoadTree(t)[q] == Loaded(At(t, q).value, q) {
      PositionsComplete(t, q);
    }
  }

  // ---------------------------------------------------------------- retrocycle after decycle

  /** An original object with every reference replaced by the position of the copy. */
  function Renamed(o: Obj<nat>, copies: map<nat, Path>): Obj<Path>
    requires forall k | 0 <= k < |o.slots| && o.slots[k].val.Ref? :: o.slots[k].val.id in copies
  {
    Obj(o.isArray, seq(|o.slots|, k requires 0 <= k < |o.slots| =>
      Slot(o.slots[k].step,
           match o.slots[k].val
           case Prim(p) => Prim(p)
           case Ref(id) => Ref(copies[id]))))
  }

  lemma CopyIsClean(heap: Heap, copies: map<nat, Path>, id: nat, n: Tree, q: Path)
    requires GoodGraph(heap) && id in heap && IsCopy(heap, copies, Ref(id), n, q)
    ensures n.Node? && CleanKids(n)
  {
    if copies[id] == q {
      VisitedIsGood(heap, id);
      forall k | 0 <= k < |n.kids| ensures !IsLost(n.isArray, n.kids[k].step) {
        assert n.kids[k].step == Kept(heap[id])[k].step && Kept(heap[id])[k] in Visited(heap[id]);
      }
    }
  }

  /** What stands at a node of a copy, and where it leads if it is a reference. */
  lemma NodeOfCopy(heap: Heap, root: Val<nat>, q: Path) returns (id: nat)
    requires GoodGraph(heap) && GoodVal(heap, root) && IsNodeAt(Decycled(heap, root).0, q)
    ensures var (t, copies) := Decycled(heap, root);
            && id in heap && id in copies && IsCopy(heap, copies, Ref(id), At(t, q).value, q)
            && Follow(heap, root, copies[id]) == Some(Ref(id))
            && (!Hidden(copies[id]) ==> PlainAt(t, copies[id]))
  {
    var (t, copies) := Decycled(heap, root);
    DecycleCopiesOnce(heap, root);
    PositionsOfCopy(heap, copies, root, t, q);
    id :| id in heap && id in copies && IsCopy(heap, copies, Ref(id), At(t, q).value, q);
    if !Hidden(copies[id]) {
      CopyHasNoRef(heap, copies, id, At(t, copies[id]).value, copies[id]);
      RecordedIsPlain(heap, copies, root, t, copies[id]);
    }
  }

  lemma DecycledIsLinkable(heap: Heap, root: Val<nat>)
    requires GoodGraph(heap) && GoodVal(heap, root)
    ensures Linkable(Decycled(heap, root).0)
  {
    hide PlainAt, Hidden, IsCopy, Derez, CleanKids, DistinctKids, RefTarget;
    var (t, copies) := Decycled(heap, root);
    forall q | IsNodeAt(t, q)
      ensures DistinctKids(At(t, q).value.kids) && CleanKids(At(t, q).value)
      ensures RefTarget(At(t, q).value).Some? ==>
                var target := RefTarget(At(t, q).value).value;
                At(t, q).value == RefNode(target) && (PlainAt(t, target) || Hidden(target))
    {
      var id := NodeOfCopy(heap, root, q);
      CopyHasNoRef(heap, copies, id, At(t, q).value, q);
      CopyIsClean(heap, copies, id, At(t, q).value, q);
      RefNodeIsDistinct(copies[id]);
    }
  }

  lemma RefNodeIsDistinct(target: Path)
    ensures DistinctKids(RefNode(target).kids)
  {
  }

  /** Once linked, the copy of an object that keeps all its slots is the object with its references renamed. */
  lemma LinkedIsRenamed(heap: Heap, copies: map<nat, Path>, id: nat, n: Tree)
    requires GoodGraph(heap) && id in heap && id in copies && IsCopy(heap, copies, Ref(id), n, copies[id])
    requires KeepsAll(heap[id])
    requires forall k | 0 <= k < |heap[id].slots| && heap[id].slots[k].val.Ref? :: heap[id].slots[k].val.id in copies
    ensures n.Node? && Linked(n, copies[id]) == Renamed(heap[id], copies)
  {
    KeepsAllKeeps(heap[id]);
    forall k | 0 <= k < |n.kids|
      ensures Linked(n, copies[id]).slots[k] == Renamed(heap[id], copies).slots[k]
    {
      var v, kid, pos := heap[id].slots[k].val, n.kids[k].tree, copies[id] + [n.kids[k].step];
      assert IsCopy(heap, copies, v, kid, pos);
      if v.Ref? { CopyHasNoRef(heap, copies, v.id, kid, pos); }
    }
  }

  /** Copying is one to one, the root's copy is the root, every copied object is reachable from the root, so is
      everything it refers to copied, and the copy holds the same primitives and the copies of the objects the
      original refers to. */
  predicate Isomorphic(heap: Heap, root: nat, objects: Objects, copies: map<nat, Path>) {
    && root in copies && copies[root] == [] && Injective(copies)
    && forall id | id in copies ::
         && id in heap && Follow(heap, Ref(root), copies[id]) == Some(Ref(id))
         && (forall k | 0 <= k < |heap[id].slots| && heap[id].slots[k].val.Ref? ::
               heap[id].slots[k].val.id in copies)
         && copies[id] in objects && objects[copies[id]] == Renamed(heap[id], copies)
  }

  // ---------------------------------------------------------------- nothing is lost

  ghost predicate Reaches(heap: Heap, root: nat, path: Path, id: nat) {
    Follow(heap, Ref(root), path) == Some(Ref(id))
  }

  /** No array that can be reached has a named slot, and no plain object a `__proto__` of its own. */
  ghost predicate NothingLost(heap: Heap, root: nat) {
    forall path, id | Reaches(heap, root, path, id) && id in heap :: KeepsAll(heap[id])
  }

  /** The last step to an object is a slot of another one that is reached. */
  lemma LastStep(heap: Heap, root: nat, path: Path, id: nat) returns (parent: nat, k: nat)
    requires path != [] && Reaches(heap, root, path, id)
    ensures Reaches(heap, root, path[..|path| - 1], parent) && parent in heap && k < |heap[parent].slots|
    ensures heap[parent].slots[k] == Slot(path[|path| - 1], Ref(id))
  {
    var p, step := path[..|path| - 1], path[|path| - 1];
    assert path == p + [step];
    FollowConcat(heap, Ref(root), p, [step]);
    var v := Follow(heap, Ref(root), p).value;
    parent := v.id;
    k := FollowSlot(heap, heap[parent].slots, step);
  }

  lemma {:induction false} ReachedInTheOpen(heap: Heap, root: nat, path: Path, id: nat)
    requires NothingLost(heap, root) && Reaches(heap, root, path, id)
    ensures !Hidden(path)
    decreases |path|
  {
    if path != [] {
      var parent, k := LastStep(heap, root, path, id);
      ReachedInTheOpen(heap, root, path[..|path| - 1], parent);
      assert KeepsAll(heap[parent]);
      assert forall i | 0 <= i < |path| - 1 :: path[..|path| - 1][i] == path[i];
    }
  }

  lemma {:induction false} ReachedIsCopied(heap: Heap, root: nat, objects: Objects, copies: map<nat, Path>,
                                           path: Path, id: nat)
    requires Isomorphic(heap, root, objects, copies) && Reaches(heap, root, path, id)
    ensures id in copies
    decreases |path|
  {
    if path != [] {
      var parent, k := LastStep(heap, root, path, id);
      ReachedIsCopied(heap, root, objects, copies, path[..|path| - 1], parent);
    }
  }

  /** No object of a linked tree has a slot that gets lost, so none stands for an original object that does. */
  lemma IsomorphicLosesNothing(heap: Heap, root: nat, t: Tree, objects: Objects, copies: map<nat, Path>)
    requires CleanTree(t) && Isomorphic(heap, root, objects, copies)
    requires forall q | q in objects :: IsNodeAt(t, q) && objects[q] == Linked(At(t, q).value, q)
    ensures NothingLost(heap, root)
  {
    forall path, id | Reaches(heap, root, path, id) && id in heap ensures KeepsAll(heap[id]) {
      ReachedIsCopied(heap, root, objects, copies, path, id);
      var n, o := At(t, copies[id]).value, Renamed(heap[id], copies);
      assert CleanKids(n) && Linked(n, copies[id]) == o;
      forall k | 0 <= k < |heap[id].slots| ensures !IsLost(heap[id].isArray, heap[id].slots[k].step) {
        assert o.slots[k].step == heap[id].slots[k].step && Linked(n, copies[id]).slots[k].step == n.kids[k].step;
      }
    }
  }

  lemma LinkedIsIsomorphic(heap: Heap, root: nat, objects: Objects)
    requires GoodGraph(heap) && root in heap && NothingLost(heap, root)
    requires var t := Decycled(heap, Ref(root)).0;
             forall q | IsNodeAt(t, q) :: q in objects && objects[q] == Linked(At(t, q).value, q)
    ensures Isomorphic(heap, root, objects, Decycled(heap, Ref(root)).1)
  {
    hide Derez, Linked, IsCopy, Follow, KeepsAll;
    var (t, copies) := Decycled(heap, Ref(root));
    DecycleCopiesOnce(heap, Ref(root));
    forall id | id in copies
      ensures id in heap && forall k | 0 <= k < |heap[id].slots| && heap[id].slots[k].val.Ref? ::
                              heap[id].slots[k].val.id in copies
      ensures copies[id] in objects && objects[copies[id]] == Renamed(heap[id], copies)
    {
      assert Reaches(heap, root, copies[id], id);
      ReachedInTheOpen(heap, root, copies[id], id);
      KeepsAllKeeps(heap[id]);
      LinkedIsRenamed(heap, copies, id, At(t, copies[id]).value);
    }
  }

  lemma NoHiddenTarget(heap: Heap, root: nat)
    requires GoodGraph(heap) && root in heap && NothingLost(heap, root)
    ensures NoHiddenTargets(Decycled(heap, Ref(root)).0)
  {
    var (t, copies) := Decycled(heap, Ref(root));
    hide Derez, IsCopy, Follow, Hidden, RefTarget, NothingLost;
    forall q | IsNodeAt(t, q) && RefTarget(At(t, q).value).Some? ensures !Hidden(RefTarget(At(t, q).value).value) {
      var id := NodeOfCopy(heap, Ref(root), q);
      CopyHasNoRef(heap, copies, id, At(t, q).value, q);
      assert Reaches(heap, root, copies[id], id);
      ReachedInTheOpen(heap, root, copies[id], id);
    }
  }

  // ---------------------------------------------------------------- the round trip

  method Retrocycled(t: Tree, outside: Path -> bool) returns (ok: bool, store: Store)
    requires Linkable(t) && t.Node? && RefTarget(t).None?
    ensures NoHiddenTargets(t) ==> ok
    ensures ok ==>
              && (forall q | q in store.objects :: IsNodeAt(t, q))
              && forall q | IsNodeAt(t, q) :: q in store.objects && store.objects[q] == Linked(At(t, q).value, q)
  {
    store := new Store(LoadTree(t));
    LoadTreeLoads(t);
    assert At(t, []) == Some(t);
    ok := store.Rez([], outside, t);
  }

  lemma RootIsPlain(heap: Heap, root: nat)
    requires GoodGraph(heap) && root in heap
    ensures Decycled(heap, Ref(root)).0.Node? && RefTarget(Decycled(heap, Ref(root)).0).None?
  {
    var (t, copies) := Decycled(heap, Ref(root));
    DecycleCopiesOnce(heap, Ref(root));
    CopyHasNoRef(heap, copies, root, t, []);
  }

  /** `JSON.retrocycle(JSON.parse(JSON.stringify(JSON.decycle(root))))`: the object graph that comes back is the
      original one, sharing and cycles included, exactly when no array that can be reached has a named slot and no
      plain object a `__proto__` of its own. */
  method RoundTrip(heap: Heap, root: nat, outside: Path -> bool) returns (ok: bool, store: Store)
    requires GoodGraph(heap) && root in heap
    ensures ok && (exists copies :: Isomorphic(heap, root, store.objects, copies)) <==> NothingLost(heap, root)
  {
    hide Isomorphic, NothingLost, NoHiddenTargets, Linked;
    var decycler := new Decycler(heap);
    var t := decycler.DerezValue(Ref(root), []);
    assert (t, decycler.objects) == Decycled(heap, Ref(root));
    DecycledIsLinkable(heap, Ref(root));
    RootIsPlain(heap, root);
    ok, store := Retrocycled(t, outside);
    if NothingLost(heap, root) {
      NoHiddenTarget(heap, root);
      LinkedIsIsomorphic(heap, root, store.objects);
    } else if ok {
      forall copies ensures !Isomorphic(heap, root, store.objects, copies) {
        if Isomorphic(heap, root, store.objects, copies) {
          IsomorphicLosesNothing(heap, root, t, store.objects, copies);
        }
      }
    }
  }

  // ---------------------------------------------------------------- two graphs that do not come back

  /** `JSON.parse('{"__proto__": {}}')` comes back as `{}`. */
  lemma ProtoIsLost()
    ensures var heap := map[0 := Obj(false, [Slot(ProtoKey, Ref(1))]), 1 := Obj(false, [])];
            GoodGraph(heap) && Decycled(heap, Ref(0)).0 == Node(false, []) && !NothingLost(heap, 0)
  {
    var heap := map[0 := Obj(false, [Slot(ProtoKey, Ref(1))]), 1 := Obj(false, [])];
    var own: map<nat, Path> := map[];
    assert heap[0].slots[1..] == [];
    assert GoodGraph(heap) && GoodSlots(heap, heap[0].slots);
    SlotsStep(heap, heap[0].slots, [], own[0 := []]);
    assert Visited(heap[0]) == heap[0].slots;
    assert Reaches(heap, 0, [], 0);
    assert IsLost(heap[0].isArray, heap[0].slots[0].step);
  }

  /** So does an array with a named slot, as the match of a regular expression is, without that slot. */
  lemma NamedSlotIsLost(first: Primitive, input: Primitive)
    ensures var heap := map[0 := Obj(true, [Slot(Index(0), Prim(first)), Slot(Key("input"), Prim(input))])];
            && GoodGraph(heap) && Decycled(heap, Ref(0)).0 == Node(true, [Kid(Index(0), Leaf(first))])
            && !NothingLost(heap, 0)
  {
    var heap := map[0 := Obj(true, [Slot(Index(0), Prim(first)), Slot(Key("input"), Prim(input))])];
    var slots := heap[0].slots;
    assert GoodGraph(heap);
    assert slots[1..] == [slots[1]] && [slots[1]][1..] == [];
    assert OnlyIndexes([slots[1]]) == [];
    assert OnlyIndexes(slots) == [slots[0]] && [slots[0]][1..] == [];
    var own: map<nat, Path> := map[];
    SlotsStep(heap, [slots[0]], [], own[0 := []]);
    assert Visited(heap[0]) == [slots[0]];
    assert Reaches(heap, 0, [], 0);
    assert IsLost(heap[0].isArray, heap[0].slots[1].step);
  }
}
