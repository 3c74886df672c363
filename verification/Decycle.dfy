/** JSON.decycle (lib/decyclePolyfill.js). */
module Decycle {
  // A graph of arrays and plain objects is copied to a tree in which a repeated object becomes
  // `{"$ref": PATH}`. Paths are sequences of array indexes and property names.

  import opened Wrappers

  datatype Step = Index(i: nat) | Key(name: string)

  type Path = seq<Step>

  /** A primitive: a string that is a well-formed path, or anything else. */
  datatype Primitive = PathText(path: Path) | Other(text: string)

  datatype Val<Id> = Prim(p: Primitive) | Ref(id: Id)

  datatype Slot<Id> = Slot(step: Step, val: Val<Id>)

  /** An array or a plain object with its own enumerable slots, in order; an array may have named ones too. */
  datatype Obj<Id> = Obj(isArray: bool, slots: seq<Slot<Id>>)

  type Heap = map<nat, Obj<nat>>

  const RefKey := Key("$ref")
  const ProtoKey := Key("__proto__")

  datatype Tree = Leaf(p: Primitive) | Node(isArray: bool, kids: seq<Kid>)

  datatype Kid = Kid(step: Step, tree: Tree)

  function RefNode(path: Path): Tree {
    Node(false, [Kid(RefKey, Leaf(PathText(path)))])
  }

  // ---------------------------------------------------------------- the graphs decycle is meant for

  predicate DistinctSlots<Id>(slots: seq<Slot<Id>>) {
    forall i, j | 0 <= i < j < |slots| :: slots[i].step != slots[j].step
  }

  /** A finite graph without dangling references, in which no object has a `$ref` property. */
  predicate GoodGraph(heap: Heap) {
    forall id | id in heap ::
      && DistinctSlots(heap[id].slots)
      && forall k | 0 <= k < |heap[id].slots| ::
           && heap[id].slots[k].step != RefKey
           && (heap[id].slots[k].val.Ref? ==> heap[id].slots[k].val.id in heap)
  }

  predicate GoodSlots(heap: Heap, slots: seq<Slot<nat>>) {
    && DistinctSlots(slots)
    && forall k | 0 <= k < |slots| ::
         slots[k].step != RefKey && (slots[k].val.Ref? ==> slots[k].val.id in heap)
  }

  predicate GoodVal(heap: Heap, v: Val<nat>) {
    v.Ref? ==> v.id in heap
  }

  // ---------------------------------------------------------------- what decycle looks at, and what it keeps

  function OnlyIndexes(slots: seq<Slot<nat>>): seq<Slot<nat>> {
    if slots == [] then [] else (if slots[0].step.Index? then [slots[0]] else []) + OnlyIndexes(slots[1..])
  }

  function WithoutProto(slots: seq<Slot<nat>>): seq<Slot<nat>> {
    if slots == [] then [] else (if slots[0].step == ProtoKey then [] else [slots[0]]) + WithoutProto(slots[1..])
  }

  /** `forEach` of an array goes over its indexes, `Object.keys` over all names. */
  function Visited(o: Obj<nat>): seq<Slot<nat>> {
    if o.isArray then OnlyIndexes(o.slots) else o.slots
  }

  /** `nu["__proto__"] = ...` makes no slot: it sets the prototype, or does nothing at all. */
  function Kept(o: Obj<nat>): seq<Slot<nat>> {
    WithoutProto(Visited(o))
  }

  lemma GoodTail(heap: Heap, slots: seq<Slot<nat>>)
    requires slots != [] && GoodSlots(heap, slots)
    ensures GoodSlots(heap, slots[1..])
  {
  }

  lemma {:induction false} OnlyIndexesAreSome(slots: seq<Slot<nat>>)
    ensures forall slot | slot in OnlyIndexes(slots) :: slot in slots && slot.step.Index?
  {
    if slots != [] {
      OnlyIndexesAreSome(slots[1..]);
    }
  }

  lemma {:induction false} OnlyIndexesAreGood(heap: Heap, slots: seq<Slot<nat>>)
    requires GoodSlots(heap, slots)
    ensures GoodSlots(heap, OnlyIndexes(slots))
  {
    if slots != [] {
      hide GoodSlots, DistinctSlots;
      GoodTail(heap, slots);
      OnlyIndexesAreSome(slots[1..]);
      OnlyIndexesAreGood(heap, slots[1..]);
      FirstAndSome(heap, slots, OnlyIndexes(slots[1..]));
    }
  }

  lemma {:induction false} WithoutProtoIsSome(slots: seq<Slot<nat>>)
    ensures forall slot | slot in WithoutProto(slots) :: slot in slots && slot.step != ProtoKey
  {
    if slots != [] {
      WithoutProtoIsSome(slots[1..]);
    }
  }

  lemma {:induction false} WithoutProtoIsGood(heap: Heap, slots: seq<Slot<nat>>)
    requires GoodSlots(heap, slots)
    ensures GoodSlots(heap, WithoutProto(slots))
  {
    if slots != [] {
      hide GoodSlots, DistinctSlots;
      GoodTail(heap, slots);
      WithoutProtoIsSome(slots[1..]);
      WithoutProtoIsGood(heap, slots[1..]);
      FirstAndSome(heap, slots, WithoutProto(slots[1..]));
    }
  }

  /** The first slot in front of some of the others. */
  lemma FirstAndSome(heap: Heap, slots: seq<Slot<nat>>, some: seq<Slot<nat>>)
    requires slots != [] && GoodSlots(heap, slots) && GoodSlots(heap, some)
    requires forall slot | slot in some :: slot in slots[1..]
    ensures GoodSlots(heap, [slots[0]] + some)
  {
    forall k | 0 <= k < |some| ensures some[k].step != slots[0].step {
      assert some[k] in slots[1..];
      var j :| 0 <= j < |slots[1..]| && slots[1..][j] == some[k];
      assert slots[j + 1] == some[k];
    }
  }

  lemma VisitedIsGood(heap: Heap, id: nat)
    requires GoodGraph(heap) && id in heap
    ensures GoodSlots(heap, Visited(heap[id])) && GoodSlots(heap, Kept(heap[id]))
    ensures forall k | 0 <= k < |Visited(heap[id])| :: Visited(heap[id])[k] in heap[id].slots
    ensures forall k | 0 <= k < |Visited(heap[id])| && heap[id].isArray :: Visited(heap[id])[k].step.Index?
    ensures forall k | 0 <= k < |Kept(heap[id])| ::
              Kept(heap[id])[k] in Visited(heap[id]) && Kept(heap[id])[k].step != ProtoKey
  {
    assert GoodSlots(heap, heap[id].slots);
    if heap[id].isArray {
      OnlyIndexesAreGood(heap, heap[id].slots);
      OnlyIndexesAreSome(heap[id].slots);
    }
    WithoutProtoIsGood(heap, Visited(heap[id]));
    WithoutProtoIsSome(Visited(heap[id]));
  }

  /** A slot of this name is not among those kept. */
  predicate IsLost(isArray: bool, step: Step) {
    if isArray then step.Key? else step == ProtoKey
  }

  predicate KeepsAll(o: Obj<nat>) {
    forall k | 0 <= k < |o.slots| :: !IsLost(o.isArray, o.slots[k].step)
  }

  lemma {:induction false} NothingFiltered(slots: seq<Slot<nat>>)
    ensures (forall k | 0 <= k < |slots| :: slots[k].step.Index?) ==> OnlyIndexes(slots) == slots
    ensures (forall k | 0 <= k < |slots| :: slots[k].step != ProtoKey) ==> WithoutProto(slots) == slots
  {
    if slots != [] {
      NothingFiltered(slots[1..]);
      assert forall k | 0 <= k < |slots| - 1 :: slots[1..][k] == slots[k + 1];
    }
  }

  lemma KeepsAllKeeps(o: Obj<nat>)
    requires KeepsAll(o)
    ensures Visited(o) == Kept(o) == o.slots
  {
    NothingFiltered(o.slots);
    assert forall k | 0 <= k < |o.slots| && o.isArray :: o.slots[k].step.Index?;
  }

  // ---------------------------------------------------------------- decycle

  /** The copy of a value as JSON.stringify writes it, own slots only, and the objects met so far with the path of
      their first occurrence. */
  function Derez(heap: Heap, v: Val<nat>, path: Path, objects: map<nat, Path>): (r: (Tree, map<nat, Path>))
    requires GoodGraph(heap) && GoodVal(heap, v)
    ensures objects.Keys <= r.1.Keys && forall id | id in objects :: r.1[id] == objects[id]
    decreases heap.Keys - objects.Keys, 0
  {
    match v
    case Prim(p) => (Leaf(p), objects)
    case Ref(id) =>
      if id in objects then (RefNode(objects[id]), objects)
      else
        assert heap.Keys - objects[id := path].Keys < heap.Keys - objects.Keys by {
          assert id in heap.Keys - objects.Keys;
        }
        VisitedIsGood(heap, id);
        var (kids, seen) := DerezSlots(heap, Visited(heap[id]), path, objects[id := path]);
        (Node(heap[id].isArray, kids), seen)
  }

  /** What stands below `__proto__` is walked like everything else, but its copy is no slot of the new object. */
  function DerezSlots(heap: Heap, slots: seq<Slot<nat>>, path: Path, objects: map<nat, Path>)
    : (r: (seq<Kid>, map<nat, Path>))
    requires GoodGraph(heap) && GoodSlots(heap, slots)
    ensures objects.Keys <= r.1.Keys && forall id | id in objects :: r.1[id] == objects[id]
    decreases heap.Keys - objects.Keys, |slots|
  {
    if slots == [] then ([], objects) else
      var (tree, seen) := Derez(heap, slots[0].val, path + [slots[0].step], objects);
      assert heap.Keys - seen.Keys <= heap.Keys - objects.Keys;
      var (kids, after) := DerezSlots(heap, slots[1..], path, seen);
      (if slots[0].step == ProtoKey then kids else [Kid(slots[0].step, tree)] + kids, after)
  }

  /** The recursion as it runs: `objects` is the WeakMap it fills. */
  class Decycler {
    const heap: Heap
    var objects: map<nat, Path>

    constructor (heap: Heap)
      ensures this.heap == heap && objects == map[]
    {
      this.heap, objects := heap, map[];
    }

    method DerezValue(value: Val<nat>, path: Path) returns (nu: Tree)
      requires GoodGraph(heap) && GoodVal(heap, value)
      modifies this`objects
      ensures (nu, objects) == Derez(heap, value, path, old(objects))
      decreases heap.Keys - objects.Keys, 0
    {
      if value.Prim? { return Leaf(value.p); }
      if value.id in objects { return RefNode(objects[value.id]); }
      assert value.id in heap.Keys - objects.Keys;
      objects := objects[value.id := path];
      VisitedIsGood(heap, value.id);
      var kids := DerezChildren(Visited(heap[value.id]), path);
      return Node(heap[value.id].isArray, kids);
    }

    method DerezChildren(slots: seq<Slot<nat>>, path: Path) returns (kids: seq<Kid>)
      requires GoodGraph(heap) && GoodSlots(heap, slots)
      modifies this`objects
      ensures (kids, objects) == DerezSlots(heap, slots, path, old(objects))
      decreases heap.Keys - objects.Keys, |slots|
    {
      if slots == [] { return []; }
      var nu := DerezValue(slots[0].val, path + [slots[0].step]);
      assert heap.Keys - objects.Keys <= heap.Keys - old(objects).Keys;
      var rest := DerezChildren(slots[1..], path);
      return if slots[0].step == ProtoKey then rest else [Kid(slots[0].step, nu)] + rest;
    }
  }

  // ---------------------------------------------------------------- what the copy looks like

  /** `t`, standing at `p`, is the copy of `v`: primitives are kept; the first occurrence of an object is spelled
      out, kept slot by kept slot; every other occurrence refers to the path of the first. */
  predicate IsCopy(heap: Heap, objects: map<nat, Path>, v: Val<nat>, t: Tree, p: Path)
    requires GoodGraph(heap) && GoodVal(heap, v)
    decreases t
  {
    match v
    case Prim(x) => t == Leaf(x)
    case Ref(id) =>
      && id in objects
      && if objects[id] == p
         then t.Node? && t.isArray == heap[id].isArray && |t.kids| == |Kept(heap[id])|
              && forall k | 0 <= k < |t.kids| ::
                   && t.kids[k].step == Kept(heap[id])[k].step
                   && GoodVal(heap, Kept(heap[id])[k].val)
                   && IsCopy(heap, objects, Kept(heap[id])[k].val, t.kids[k].tree, p + [t.kids[k].step])
         else t == RefNode(objects[id])
  }

  /** The subtree a path leads to. */
  function At(t: Tree, path: Path): Option<Tree>
    decreases |path|, 1, 0
  {
    if path == [] then Some(t) else if t.Leaf? then None else AtKids(t.kids, path)
  }

  function AtKids(kids: seq<Kid>, path: Path): Option<Tree>
    requires path != []
    decreases |path|, 0, |kids|
  {
    if kids == [] then None
    else if kids[0].step == path[0] then At(kids[0].tree, path[1..])
    else AtKids(kids[1..], path)
  }

  /** The value a path leads to in the original graph. */
  function Follow(heap: Heap, v: Val<nat>, path: Path): Option<Val<nat>>
    decreases |path|, 1, 0
  {
    if path == [] then Some(v)
    else if v.Prim? || v.id !in heap then None
    else FollowSlots(heap, heap[v.id].slots, path)
  }

  function FollowSlots(heap: Heap, slots: seq<Slot<nat>>, path: Path): Option<Val<nat>>
    requires path != []
    decreases |path|, 0, |slots|
  {
    if slots == [] then None
    else if slots[0].step == path[0] then Follow(heap, slots[0].val, path[1..])
    else FollowSlots(heap, slots[1..], path)
  }

  predicate Below(p: Path, q: Path) {
    |p| <= |q| && q[..|p|] == p
  }

  predicate NoneBelow(objects: map<nat, Path>, p: Path) {
    forall id | id in objects :: !Below(p, objects[id])
  }

  predicate Injective(objects: map<nat, Path>) {
    forall a, b | a in objects && b in objects && objects[a] == objects[b] :: a == b
  }

  /** The path leads through a `__proto__`. */
  predicate Hidden(path: Path) {
    exists i | 0 <= i < |path| :: path[i] == ProtoKey
  }

  lemma HiddenStep(step: Step, rest: Path)
    ensures Hidden([step] + rest) <==> step == ProtoKey || Hidden(rest)
    ensures !Hidden([])
  {
    var path := [step] + rest;
    assert path[0] == step;
    assert forall i | 0 <= i < |rest| :: path[i + 1] == rest[i];
  }

  /** The recorded path of an object leads to it in the graph and, unless it is hidden, to its copy in the tree; and
      everything that is visited from the object was recorded too. */
  predicate Recorded(heap: Heap, objects: map<nat, Path>, id: nat, hidden: bool, copy: Option<Tree>,
                     original: Option<Val<nat>>)
    requires GoodGraph(heap)
  {
    && id in heap && id in objects && original == Some(Ref(id))
    && (hidden || (copy.Some? && IsCopy(heap, objects, Ref(id), copy.value, objects[id])))
    && forall k | 0 <= k < |Visited(heap[id])| && Visited(heap[id])[k].val.Ref? ::
         Visited(heap[id])[k].val.id in objects
  }

  predicate Grows(objects: map<nat, Path>, after: map<nat, Path>) {
    objects.Keys <= after.Keys && forall id | id in objects :: after[id] == objects[id]
  }

  lemma {:induction false} CopyStays(heap: Heap, objects: map<nat, Path>, after: map<nat, Path>,
                                     v: Val<nat>, t: Tree, p: Path)
    requires GoodGraph(heap) && GoodVal(heap, v) && IsCopy(heap, objects, v, t, p) && Grows(objects, after)
    ensures IsCopy(heap, after, v, t, p)
    decreases t
  {
    if v.Ref? && objects[v.id] == p {
      forall k | 0 <= k < |t.kids|
        ensures IsCopy(heap, after, Kept(heap[v.id])[k].val, t.kids[k].tree, p + [t.kids[k].step])
      {
        CopyStays(heap, objects, after, Kept(heap[v.id])[k].val, t.kids[k].tree, p + [t.kids[k].step]);
      }
    }
  }

  lemma RecordedStays(heap: Heap, objects: map<nat, Path>, after: map<nat, Path>, id: nat, hidden: bool,
                      copy: Option<Tree>, original: Option<Val<nat>>)
    requires GoodGraph(heap) && Recorded(heap, objects, id, hidden, copy, original) && Grows(objects, after)
    ensures Recorded(heap, after, id, hidden, copy, original)
  {
    if !hidden { CopyStays(heap, objects, after, Ref(id), copy.value, objects[id]); }
  }

  /** What Derez achieves for the objects it adds. */
  predicate Adds(heap: Heap, objects: map<nat, Path>, after: map<nat, Path>, v: Val<nat>, t: Tree, p: Path)
    requires GoodGraph(heap)
  {
    && (Injective(objects) ==> Injective(after))
    && forall id | id in after && id !in objects ::
         Below(p, after[id])
         && var rest := after[id][|p|..];
            Recorded(heap, after, id, Hidden(rest), At(t, rest), Follow(heap, v, rest))
  }

  predicate AddsSlots(heap: Heap, objects: map<nat, Path>, after: map<nat, Path>,
                      slots: seq<Slot<nat>>, kids: seq<Kid>, p: Path)
    requires GoodGraph(heap)
  {
    && (Injective(objects) ==> Injective(after))
    && forall id | id in after && id !in objects ::
         Below(p, after[id]) && |after[id]| > |p|
         && (exists k :: 0 <= k < |slots| && slots[k].step == after[id][|p|])
         && var rest := after[id][|p|..];
            Recorded(heap, after, id, Hidden(rest), AtKids(kids, rest), FollowSlots(heap, slots, rest))
  }

  lemma BelowStep(p: Path, step: Step, q: Path)
    ensures Below(p + [step], q) <==> Below(p, q) && |q| > |p| && q[|p|] == step
    ensures Below(p + [step], q) ==> q[|p|..] == [step] + q[|p| + 1..]
  {
    if |q| > |p| { assert q[..|p| + 1] == q[..|p|] + [q[|p|]]; }
  }

  lemma {:induction false} DerezCopies(heap: Heap, v: Val<nat>, path: Path, objects: map<nat, Path>)
    requires GoodGraph(heap) && GoodVal(heap, v) && NoneBelow(objects, path)
    ensures var (t, after) := Derez(heap, v, path, objects);
            && IsCopy(heap, after, v, t, path) && Adds(heap, objects, after, v, t, path)
            && (v.Ref? && v.id !in objects ==> after[v.id] == path)
    decreases heap.Keys - objects.Keys, 0
  {
    if v.Ref? && v.id !in objects {
      assert v.id in heap.Keys - objects.Keys;
      VisitedIsGood(heap, v.id);
      var own, slots := objects[v.id := path], Visited(heap[v.id]);
      forall id, k | id in own && 0 <= k < |slots| ensures !Below(path + [slots[k].step], own[id]) {
        BelowStep(path, slots[k].step, own[id]);
      }
      DerezSlotsCopy(heap, slots, path, own);
      OwnerAdds(heap, v.id, path, objects);
    }
  }

  predicate CopiesOf(heap: Heap, objects: map<nat, Path>, slots: seq<Slot<nat>>, kids: seq<Kid>, p: Path)
    requires GoodGraph(heap) && GoodSlots(heap, slots)
  {
    |kids| == |slots|
    && forall k | 0 <= k < |slots| ::
         kids[k].step == slots[k].step
         && IsCopy(heap, objects, slots[k].val, kids[k].tree, p + [slots[k].step])
  }

  /** Everything the slots refer to is recorded. */
  predicate RefersTo(objects: map<nat, Path>, slots: seq<Slot<nat>>) {
    forall k | 0 <= k < |slots| && slots[k].val.Ref? :: slots[k].val.id in objects
  }

  /** A newly met object is copied slot by slot. */
  lemma OwnerIsCopy(heap: Heap, owner: nat, path: Path, after: map<nat, Path>, kids: seq<Kid>)
    requires GoodGraph(heap) && owner in heap && owner in after && after[owner] == path
    requires GoodSlots(heap, Kept(heap[owner])) && CopiesOf(heap, after, Kept(heap[owner]), kids, path)
    ensures IsCopy(heap, after, Ref(owner), Node(heap[owner].isArray, kids), path)
  {
  }

  /** Behind its first step a path into an object is a path into its slots. */
  lemma BehindOwner(heap: Heap, owner: nat, isArray: bool, kids: seq<Kid>, path: Path)
    requires owner in heap && path != [] && (heap[owner].isArray ==> path[0].Index?)
    ensures At(Node(isArray, kids), path) == AtKids(kids, path)
    ensures Follow(heap, Ref(owner), path) == FollowSlots(heap, Visited(heap[owner]), path)
  {
    if heap[owner].isArray { FollowIndexes(heap, heap[owner].slots, path); }
  }

  lemma {:induction false} FollowIndexes(heap: Heap, slots: seq<Slot<nat>>, path: Path)
    requires path != [] && path[0].Index?
    ensures FollowSlots(heap, OnlyIndexes(slots), path) == FollowSlots(heap, slots, path)
    decreases |slots|
  {
    if slots != [] {
      FollowIndexes(heap, slots[1..], path);
      var some := OnlyIndexes(slots[1..]);
      if slots[0].step.Index? {
        assert OnlyIndexes(slots) == [slots[0]] + some && ([slots[0]] + some)[1..] == some;
      } else {
        assert OnlyIndexes(slots) == [] + some == some;
      }
    }
  }

  lemma OneMoreApart(objects: map<nat, Path>, owner: nat, path: Path)
    requires owner !in objects && NoneBelow(objects, path) && Injective(objects)
    ensures Injective(objects[owner := path])
  {
  }

  /** From the slots of a newly met object to the object itself. */
  lemma OwnerAdds(heap: Heap, owner: nat, path: Path, objects: map<nat, Path>)
    requires GoodGraph(heap) && owner in heap && owner !in objects && NoneBelow(objects, path)
    requires GoodSlots(heap, Visited(heap[owner])) && GoodSlots(heap, Kept(heap[owner]))
    requires forall k | 0 <= k < |Visited(heap[owner])| && heap[owner].isArray :: Visited(heap[owner])[k].step.Index?
    requires var own := objects[owner := path];
             var (kids, after) := DerezSlots(heap, Visited(heap[owner]), path, own);
             && AddsSlots(heap, own, after, Visited(heap[owner]), kids, path)
             && CopiesOf(heap, after, Kept(heap[owner]), kids, path) && RefersTo(after, Visited(heap[owner]))
    ensures var (t, after) := Derez(heap, Ref(owner), path, objects);
            && IsCopy(heap, after, Ref(owner), t, path) && Adds(heap, objects, after, Ref(owner), t, path)
  {
    hide IsCopy, CopiesOf, Injective, At, AtKids, Follow, FollowSlots, DerezSlots, NoneBelow, Visited, Kept, Hidden;
    var own := objects[owner := path];
    var (kids, after) := DerezSlots(heap, Visited(heap[owner]), path, own);
    var t := Node(heap[owner].isArray, kids);
    assert own[owner] == path;
    assert after[owner] == path;
    OwnerIsCopy(heap, owner, path, after, kids);
    if Injective(objects) { OneMoreApart(objects, owner, path); }
    forall id | id in after && id !in objects
      ensures Below(path, after[id])
      ensures var rest := after[id][|path|..];
              Recorded(heap, after, id, Hidden(rest), At(t, rest), Follow(heap, Ref(owner), rest))
    {
      if id == owner {
        assert after[id][|path|..] == [];
        OwnerIsThere(heap, owner, t);
      } else {
        assert id !in own;
        BehindOwner(heap, owner, heap[owner].isArray, kids, after[id][|path|..]);
      }
    }
  }

  lemma OwnerIsThere(heap: Heap, owner: nat, t: Tree)
    ensures At(t, []) == Some(t) && Follow(heap, Ref(owner), []) == Some(Ref(owner))
  {
  }

  /** Whatever the first slot adds lies below that slot, hence not below the others. */
  lemma RestApart(slots: seq<Slot<nat>>, path: Path, objects: map<nat, Path>, seen: map<nat, Path>)
    requires slots != [] && DistinctSlots(slots)
    requires forall id, k | id in objects && 0 <= k < |slots| :: !Below(path + [slots[k].step], objects[id])
    requires forall id | id in seen ::
               (id in objects && seen[id] == objects[id]) || Below(path + [slots[0].step], seen[id])
    ensures forall id, k | id in seen && 0 <= k < |slots[1..]| :: !Below(path + [slots[1..][k].step], seen[id])
  {
    forall id, k | id in seen && 0 <= k < |slots[1..]| ensures !Below(path + [slots[1..][k].step], seen[id]) {
      assert slots[1..][k] == slots[k + 1];
      BelowStep(path, slots[k + 1].step, seen[id]);
      BelowStep(path, slots[0].step, seen[id]);
    }
  }

  lemma AddedBelow(heap: Heap, objects: map<nat, Path>, seen: map<nat, Path>, v: Val<nat>, t: Tree, p: Path)
    requires GoodGraph(heap) && Adds(heap, objects, seen, v, t, p) && Grows(objects, seen)
    ensures forall id | id in seen :: (id in objects && seen[id] == objects[id]) || Below(p, seen[id])
  {
    hide Recorded, Injective;
  }

  /** The copies of all kept slots from those of the first and of the rest. */
  lemma ConsCopies(heap: Heap, objects: map<nat, Path>, slots: seq<Slot<nat>>, tree: Tree, kids: seq<Kid>, p: Path)
    requires GoodGraph(heap) && slots != [] && GoodSlots(heap, WithoutProto(slots)) && GoodVal(heap, slots[0].val)
    requires GoodSlots(heap, WithoutProto(slots[1..]))
    requires IsCopy(heap, objects, slots[0].val, tree, p + [slots[0].step])
    requires CopiesOf(heap, objects, WithoutProto(slots[1..]), kids, p)
    ensures CopiesOf(heap, objects, WithoutProto(slots),
                     if slots[0].step == ProtoKey then kids else [Kid(slots[0].step, tree)] + kids, p)
  {
    if slots[0].step != ProtoKey {
      var rest := WithoutProto(slots[1..]);
      assert WithoutProto(slots) == [slots[0]] + rest;
      hide IsCopy, WithoutProto;
      ConsCopy(heap, objects, slots[0], rest, tree, kids, p);
    }
  }

  lemma ConsCopy(heap: Heap, objects: map<nat, Path>, slot: Slot<nat>, rest: seq<Slot<nat>>, tree: Tree,
                 kids: seq<Kid>, p: Path)
    requires GoodGraph(heap) && GoodVal(heap, slot.val) && GoodSlots(heap, rest) && GoodSlots(heap, [slot] + rest)
    requires IsCopy(heap, objects, slot.val, tree, p + [slot.step]) && CopiesOf(heap, objects, rest, kids, p)
    ensures CopiesOf(heap, objects, [slot] + rest, [Kid(slot.step, tree)] + kids, p)
  {
    hide IsCopy;
    var all, slots := [Kid(slot.step, tree)] + kids, [slot] + rest;
    forall k | 0 <= k < |slots|
      ensures all[k].step == slots[k].step
      ensures IsCopy(heap, objects, slots[k].val, all[k].tree, p + [slots[k].step])
    {
      if k > 0 { assert slots[k] == rest[k - 1] && all[k] == kids[k - 1]; }
    }
  }

  lemma ConsRefers(objects: map<nat, Path>, slots: seq<Slot<nat>>)
    requires slots != [] && RefersTo(objects, slots[1..])
    requires slots[0].val.Ref? ==> slots[0].val.id in objects
    ensures RefersTo(objects, slots)
  {
    assert forall k | 0 < k < |slots| :: slots[k] == slots[1..][k - 1];
  }

  lemma CopyIsRecorded(heap: Heap, objects: map<nat, Path>, v: Val<nat>, t: Tree, p: Path)
    requires GoodGraph(heap) && GoodVal(heap, v) && IsCopy(heap, objects, v, t, p)
    ensures v.Ref? ==> v.id in objects
  {
  }

  lemma FirstApart(slots: seq<Slot<nat>>, path: Path, objects: map<nat, Path>)
    requires slots != []
    requires forall id, k | id in objects && 0 <= k < |slots| :: !Below(path + [slots[k].step], objects[id])
    ensures NoneBelow(objects, path + [slots[0].step])
  {
    hide Below;
  }

  lemma NoSlotsNoCopies(heap: Heap, path: Path, objects: map<nat, Path>)
    requires GoodGraph(heap)
    ensures DerezSlots(heap, [], path, objects) == ([], objects)
    ensures CopiesOf(heap, objects, WithoutProto([]), [], path) && AddsSlots(heap, objects, objects, [], [], path)
    ensures RefersTo(objects, [])
  {
  }

  lemma SlotsStep(heap: Heap, slots: seq<Slot<nat>>, path: Path, objects: map<nat, Path>)
    requires GoodGraph(heap) && slots != [] && GoodSlots(heap, slots)
    ensures var (tree, seen) := Derez(heap, slots[0].val, path + [slots[0].step], objects);
            var (kids, after) := DerezSlots(heap, slots[1..], path, seen);
            DerezSlots(heap, slots, path, objects)
            == (if slots[0].step == ProtoKey then kids else [Kid(slots[0].step, tree)] + kids, after)
  {
    hide Derez;
  }

  lemma {:induction false} DerezSlotsCopy(heap: Heap, slots: seq<Slot<nat>>, path: Path, objects: map<nat, Path>)
    requires GoodGraph(heap) && GoodSlots(heap, slots) && GoodSlots(heap, WithoutProto(slots))
    requires forall id, k | id in objects && 0 <= k < |slots| :: !Below(path + [slots[k].step], objects[id])
    ensures var (kids, after) := DerezSlots(heap, slots, path, objects);
            && CopiesOf(heap, after, WithoutProto(slots), kids, path) && RefersTo(after, slots)
            && AddsSlots(heap, objects, after, slots, kids, path)
    decreases heap.Keys - objects.Keys, |slots|
  {
    hide Recorded, IsCopy, Injective, Derez, DerezSlots, Adds, AddsSlots, CopiesOf, Below, NoneBelow, WithoutProto;
    hide RefersTo;
    if slots == [] {
      NoSlotsNoCopies(heap, path, objects);
    } else {
      var first := path + [slots[0].step];
      var (tree, seen) := Derez(heap, slots[0].val, first, objects);
      FirstApart(slots, path, objects);
      DerezCopies(heap, slots[0].val, first, objects);
      AddedBelow(heap, objects, seen, slots[0].val, tree, first);
      RestApart(slots, path, objects, seen);
      assert heap.Keys - seen.Keys <= heap.Keys - objects.Keys;
      WithoutProtoIsGood(heap, slots[1..]);
      DerezSlotsCopy(heap, slots[1..], path, seen);
      var (kids, after) := DerezSlots(heap, slots[1..], path, seen);
      SlotsStep(heap, slots, path, objects);
      CopyStays(heap, seen, after, slots[0].val, tree, first);
      FirstSlotAdds(heap, slots, path, objects);
      ConsCopies(heap, after, slots, tree, kids, path);
      CopyIsRecorded(heap, after, slots[0].val, tree, first);
      ConsRefers(after, slots);
    }
  }

  lemma FirstSlotAdds(heap: Heap, slots: seq<Slot<nat>>, path: Path, objects: map<nat, Path>)
    requires GoodGraph(heap) && slots != [] && GoodSlots(heap, slots) && GoodSlots(heap, slots[1..])
    requires var first := path + [slots[0].step];
             var (tree, seen) := Derez(heap, slots[0].val, first, objects);
             var (kids, after) := DerezSlots(heap, slots[1..], path, seen);
             && Adds(heap, objects, seen, slots[0].val, tree, first)
             && AddsSlots(heap, seen, after, slots[1..], kids, path)
    ensures var (kids, after) := DerezSlots(heap, slots, path, objects);
            AddsSlots(heap, objects, after, slots, kids, path)
  {
    SlotsStep(heap, slots, path, objects);
    hide IsCopy, Injective, Derez, DerezSlots, Recorded, Hidden;
    var first := path + [slots[0].step];
    var (tree, seen) := Derez(heap, slots[0].val, first, objects);
    var (rest, after) := DerezSlots(heap, slots[1..], path, seen);
    var kids := if slots[0].step == ProtoKey then rest else [Kid(slots[0].step, tree)] + rest;
    forall id | id in after && id !in objects
      ensures Below(path, after[id]) && |after[id]| > |path|
      ensures exists k :: 0 <= k < |slots| && slots[k].step == after[id][|path|]
      ensures var q := after[id][|path|..];
              Recorded(heap, after, id, Hidden(q), AtKids(kids, q), FollowSlots(heap, slots, q))
    {
      var q := after[id];
      if id in seen {
        BelowStep(path, slots[0].step, q);
        assert q[|path|..] == [slots[0].step] + q[|first|..];
        HiddenStep(slots[0].step, q[|first|..]);
        RecordedStays(heap, seen, after, id, Hidden(q[|first|..]), At(tree, q[|first|..]),
                      Follow(heap, slots[0].val, q[|first|..]));
        RecordedHidden(heap, after, id, At(tree, q[|first|..]), AtKids(kids, q[|path|..]),
                       Follow(heap, slots[0].val, q[|first|..]), Hidden(q[|first|..]), Hidden(q[|path|..]));
      } else {
        var k :| 0 <= k < |slots[1..]| && slots[1..][k].step == q[|path|];
        assert slots[k + 1].step == q[|path|];
        BehindFirst(slots[0].step, tree, rest, q[|path|..]);
      }
    }
  }

  lemma BehindFirst(step: Step, tree: Tree, rest: seq<Kid>, q: Path)
    requires q != [] && q[0] != step
    ensures AtKids([Kid(step, tree)] + rest, q) == AtKids(rest, q)
  {
    assert ([Kid(step, tree)] + rest)[1..] == rest;
  }

  /** Being recorded does not depend on what stands at a hidden path. */
  lemma RecordedHidden(heap: Heap, objects: map<nat, Path>, id: nat, copy: Option<Tree>, other: Option<Tree>,
                       original: Option<Val<nat>>, inner: bool, outer: bool)
    requires GoodGraph(heap) && Recorded(heap, objects, id, inner, copy, original)
    requires outer || (!inner && other == copy)
    ensures Recorded(heap, objects, id, outer, other, original)
  {
    hide IsCopy;
  }

  /** `JSON.decycle(root)`. */
  function Decycled(heap: Heap, root: Val<nat>): (Tree, map<nat, Path>)
    requires GoodGraph(heap) && GoodVal(heap, root)
  {
    Derez(heap, root, [], map[])
  }

  /** The copy of a graph: every recorded object was met on its path and, unless that leads through a `__proto__`,
      stands there, once; everything visited from it is recorded as well. */
  lemma DecycleCopiesOnce(heap: Heap, root: Val<nat>)
    requires GoodGraph(heap) && GoodVal(heap, root)
    ensures var (t, objects) := Decycled(heap, root);
            && IsCopy(heap, objects, root, t, []) && Injective(objects)
            && (root.Ref? ==> root.id in objects && objects[root.id] == [])
            && forall id | id in objects ::
                 Recorded(heap, objects, id, Hidden(objects[id]), At(t, objects[id]), Follow(heap, root, objects[id]))
  {
    var (t, objects) := Decycled(heap, root);
    DerezCopies(heap, root, [], map[]);
    forall id | id in objects
      ensures Recorded(heap, objects, id, Hidden(objects[id]), At(t, objects[id]), Follow(heap, root, objects[id]))
    {
      assert objects[id][0..] == objects[id];
    }
  }

  lemma {:induction false} FollowConcat(heap: Heap, v: Val<nat>, p: Path, q: Path)
    ensures Follow(heap, v, p + q)
            == if Follow(heap, v, p).None? then None else Follow(heap, Follow(heap, v, p).value, q)
    decreases |p|, 1, 0
  {
    if p == [] {
      assert p + q == q;
    } else if v.Ref? && v.id in heap {
      FollowSlotsConcat(heap, heap[v.id].slots, p, q);
    }
  }

  lemma {:induction false} FollowSlotsConcat(heap: Heap, slots: seq<Slot<nat>>, p: Path, q: Path)
    requires p != []
    ensures FollowSlots(heap, slots, p + q)
            == if FollowSlots(heap, slots, p).None? then None else Follow(heap, FollowSlots(heap, slots, p).value, q)
    decreases |p|, 0, |slots|
  {
    if slots != [] {
      if slots[0].step == p[0] {
        assert (p + q)[1..] == p[1..] + q;
        FollowConcat(heap, slots[0].val, p[1..], q);
      } else {
        FollowSlotsConcat(heap, slots[1..], p, q);
      }
    }
  }

  lemma {:induction false} FollowSlot(heap: Heap, slots: seq<Slot<nat>>, step: Step) returns (k: nat)
    requires FollowSlots(heap, slots, [step]).Some?
    ensures k < |slots| && slots[k].step == step && FollowSlots(heap, slots, [step]) == Some(slots[k].val)
    decreases |slots|
  {
    if slots[0].step == step {
      k := 0;
    } else {
      k := FollowSlot(heap, slots[1..], step);
      k := k + 1;
    }
  }

  // ---------------------------------------------------------------- positions in a copy

  lemma {:induction false} AtConcat(t: Tree, p: Path, q: Path)
    ensures At(t, p + q) == if At(t, p).None? then None else At(At(t, p).value, q)
    decreases |p|, 1, 0
  {
    if p == [] {
      assert p + q == q;
    } else if t.Node? {
      AtKidsConcat(t.kids, p, q);
    }
  }

  lemma {:induction false} AtKidsConcat(kids: seq<Kid>, p: Path, q: Path)
    requires p != []
    ensures AtKids(kids, p + q) == if AtKids(kids, p).None? then None else At(AtKids(kids, p).value, q)
    decreases |p|, 0, |kids|
  {
    if kids != [] {
      if kids[0].step == p[0] {
        assert (p + q)[1..] == p[1..] + q;
        AtConcat(kids[0].tree, p[1..], q);
      } else {
        AtKidsConcat(kids[1..], p, q);
      }
    }
  }

  predicate DistinctKids(kids: seq<Kid>) {
    forall i, j | 0 <= i < j < |kids| :: kids[i].step != kids[j].step
  }

  lemma {:induction false} AtKid(kids: seq<Kid>, k: nat)
    requires k < |kids| && DistinctKids(kids)
    ensures AtKids(kids, [kids[k].step]) == Some(kids[k].tree)
    decreases |kids|
  {
    if k > 0 {
      AtKid(kids[1..], k - 1);
      assert kids[0].step != kids[k].step;
    }
  }

  lemma {:induction false} AtKidInverse(kids: seq<Kid>, step: Step) returns (k: nat)
    requires AtKids(kids, [step]).Some?
    ensures k < |kids| && kids[k].step == step && AtKids(kids, [step]) == Some(kids[k].tree)
    decreases |kids|
  {
    if kids[0].step == step {
      k := 0;
    } else {
      k := AtKidInverse(kids[1..], step);
      k := k + 1;
    }
  }

  /** The path a node refers to, when it is a `{"$ref": PATH}` node. */
  function RefTarget(t: Tree): Option<Path> {
    if t.Leaf? then None else
      match AtKids(t.kids, [RefKey])
      case Some(Leaf(PathText(q))) => Some(q)
      case _ => None
  }

  predicate IsNodeAt(t: Tree, q: Path) {
    At(t, q).Some? && At(t, q).value.Node?
  }

  /** A node that stands for an object, reached through such nodes only. */
  predicate PlainAt(t: Tree, q: Path)
    decreases |q|
  {
    IsNodeAt(t, q) && RefTarget(At(t, q).value).None? && (q != [] ==> PlainAt(t, q[..|q| - 1]))
  }

  /** What may stand at a position of a copy: the copy of an object, a reference to a recorded one, or a leaf. */
  predicate Position(heap: Heap, objects: map<nat, Path>, n: Tree, q: Path)
    requires GoodGraph(heap)
  {
    n.Leaf? || exists id :: id in heap && id in objects && IsCopy(heap, objects, Ref(id), n, q)
  }

  lemma {:induction false} PositionsOfCopy(heap: Heap, objects: map<nat, Path>, v: Val<nat>, t: Tree, q: Path)
    requires GoodGraph(heap) && GoodVal(heap, v) && IsCopy(heap, objects, v, t, []) && At(t, q).Some?
    ensures Position(heap, objects, At(t, q).value, q)
    decreases |q|
  {
    if q == [] {
      if v.Ref? { assert IsCopy(heap, objects, Ref(v.id), t, q); }
    } else {
      var n := |q| - 1;
      var p, step := q[..n], q[n];
      assert q == p + [step];
      AtConcat(t, p, [step]);
      PositionsOfCopy(heap, objects, v, t, p);
      var parent := At(t, p).value;
      var id :| id in heap && id in objects && IsCopy(heap, objects, Ref(id), parent, p);
      var k := AtKidInverse(parent.kids, step);
      if objects[id] == p {
        var w := Kept(heap[id])[k].val;
        assert IsCopy(heap, objects, w, parent.kids[k].tree, p + [step]);
        if w.Ref? { assert IsCopy(heap, objects, Ref(w.id), parent.kids[k].tree, q); }
      }
    }
  }

  lemma RefNodeTarget(q: Path)
    ensures RefTarget(RefNode(q)) == Some(q)
  {
    var leaf := Leaf(PathText(q));
    assert [RefKey][1..] == [] && At(leaf, []) == Some(leaf);
    assert AtKids([Kid(RefKey, leaf)], [RefKey]) == At(leaf, [RefKey][1..]);
  }

  lemma CopyHasNoRef(heap: Heap, objects: map<nat, Path>, id: nat, n: Tree, q: Path)
    requires GoodGraph(heap) && id in heap && IsCopy(heap, objects, Ref(id), n, q)
    ensures objects[id] == q ==> RefTarget(n).None? && DistinctKids(n.kids)
    ensures objects[id] != q ==> RefTarget(n) == Some(objects[id]) && n == RefNode(objects[id])
  {
    RefNodeTarget(objects[id]);
    if objects[id] == q {
      VisitedIsGood(heap, id);
      forall k | 0 <= k < |n.kids| ensures n.kids[k].step != RefKey {
        assert n.kids[k].step == Kept(heap[id])[k].step;
      }
      NoKid(n.kids, RefKey);
    }
  }

  lemma {:induction false} NoKid(kids: seq<Kid>, step: Step)
    requires forall k | 0 <= k < |kids| :: kids[k].step != step
    ensures AtKids(kids, [step]).None?
    decreases |kids|
  {
    if kids != [] {
      assert kids[0].step != step;
      NoKid(kids[1..], step);
    }
  }

  /** Every recorded object stands at a plain node. */
  lemma {:induction false} RecordedIsPlain(heap: Heap, objects: map<nat, Path>, v: Val<nat>, t: Tree, q: Path)
    requires GoodGraph(heap) && GoodVal(heap, v) && IsCopy(heap, objects, v, t, [])
    requires IsNodeAt(t, q) && RefTarget(At(t, q).value).None?
    ensures PlainAt(t, q)
    decreases |q|
  {
    if q != [] {
      var p, step := q[..|q| - 1], q[|q| - 1];
      assert q == p + [step];
      AtConcat(t, p, [step]);
      PositionsOfCopy(heap, objects, v, t, p);
      var parent := At(t, p).value;
      var id :| id in heap && id in objects && IsCopy(heap, objects, Ref(id), parent, p);
      CopyHasNoRef(heap, objects, id, parent, p);
      var k := AtKidInverse(parent.kids, step);
      assert parent.kids[k].tree.Node?;
      assert RefNode(objects[id]).kids[0].tree.Leaf?;
      RecordedIsPlain(heap, objects, v, t, p);
    }
  }
}
