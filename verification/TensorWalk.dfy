/** The walk over nested containers that feeds the hooks of scripts/llm_training_hooks.py:
    `_iter_tensors` with its identity-based visited set, and the aggregate it fills.

    `Store` is the object heap the walk sees: each container identity with its children in
    iteration order.  Containers may contain each other in any way, cycles included. */
module TensorWalk {
  import opened FiniteSets
  import opened Results
  import opened TrainingLedger
  import CollectorSpec

  type Id = int

  /** One entry of a tensor; a complex entry is represented by its modulus. */
  datatype Element = NonFinite | Finite(value: real)

  type Tensor = seq<Element>

  datatype Value = Leaf(tensor: Tensor) | Opaque | Container(id: Id)

  type Store = map<Id, seq<Value>>

  /** Every container mentioned is in the store. */
  predicate Resolves(store: Store, v: Value) {
    v.Container? ==> v.id in store
  }

  ghost predicate Closed(store: Store) {
    forall id, i :: id in store && 0 <= i < |store[id]| ==> Resolves(store, store[id][i])
  }

  // ---- Reachability ----------------------------------------------------------------

  ghost predicate Edge(store: Store, a: Id, b: Id) {
    a in store && Container(b) in store[a]
  }

  ghost predicate IsPath(store: Store, path: seq<Id>, a: Id, b: Id) {
    && path != [] && path[0] == a && path[|path| - 1] == b
    && forall i :: 0 <= i < |path| - 1 ==> Edge(store, path[i], path[i + 1])
  }

  ghost predicate Reaches(store: Store, a: Id, b: Id) {
    exists path :: IsPath(store, path, a, b)
  }

  lemma ReachesSelf(store: Store, a: Id)
    ensures Reaches(store, a, a)
  {
    assert IsPath(store, [a], a, a);
  }

  lemma ReachesThroughChild(store: Store, a: Id, child: Id, b: Id)
    requires Edge(store, a, child) && Reaches(store, child, b)
    ensures Reaches(store, a, b)
  {
    var path :| IsPath(store, path, child, b);
    assert IsPath(store, [a] + path, a, b);
  }

  /** A set closed under edges holds everything reachable from its members. */
  lemma {:induction false} ClosedSetHoldsReachable(store: Store, s: set<Id>, path: seq<Id>, a: Id, b: Id)
    requires a in s && IsPath(store, path, a, b)
    requires forall x, y :: x in s && Edge(store, x, y) ==> y in s
    ensures b in s
    decreases |path|
  {
    if |path| > 1 {
      assert Edge(store, path[0], path[1]);
      ClosedSetHoldsReachable(store, s, path[1..], path[1], b);
    }
  }

  // ---- What the walk yields --------------------------------------------------------

  /** The tensors that are direct children. */
  function Direct(children: seq<Value>): multiset<Tensor> {
    if children == [] then multiset{}
    else
      var last := |children| - 1;
      Direct(children[..last]) + Own(children[last])
  }

  function Own(v: Value): multiset<Tensor> {
    if v.Leaf? then multiset{v.tensor} else multiset{}
  }

  function Children(store: Store, id: Id): seq<Value> {
    if id in store then store[id] else []
  }

  /** The direct tensors of a list of containers. */
  function AllDirect(store: Store, ids: seq<Id>): multiset<Tensor> {
    if ids == [] then multiset{}
    else AllDirect(store, ids[..|ids| - 1]) + Direct(Children(store, ids[|ids| - 1]))
  }

  lemma {:induction false} AllDirectAppend(store: Store, a: seq<Id>, b: seq<Id>)
    ensures AllDirect(store, a + b) == AllDirect(store, a) + AllDirect(store, b)
  {
    if b == [] {
      assert a + b == a;
    } else {
      var last := |b| - 1;
      AllDirectAppend(store, a, b[..last]);
      assert (a + b)[..|a + b| - 1] == a + b[..last];
    }
  }

  lemma {:induction false} InDirect(children: seq<Value>, t: Tensor)
    ensures t in Direct(children) <==> Leaf(t) in children
  {
    if children != [] {
      var last := |children| - 1;
      InDirect(children[..last], t);
      assert children == children[..last] + [children[last]];
    }
  }

  lemma {:induction false} InAllDirect(store: Store, ids: seq<Id>, t: Tensor)
    ensures t in AllDirect(store, ids) <==> exists id :: id in ids && Leaf(t) in Children(store, id)
  {
    hide Direct, Children;
    if ids != [] {
      var last := |ids| - 1;
      InAllDirect(store, ids[..last], t);
      InDirect(Children(store, ids[last]), t);
      assert ids == ids[..last] + [ids[last]];
    }
  }

  /** `order` lists the members of `s`, each once. */
  ghost predicate Lists(order: seq<Id>, s: set<Id>) {
    Distinct(order) && forall id :: id in order <==> id in s
  }

  lemma ListsAppend(a: seq<Id>, s: set<Id>, b: seq<Id>, t: set<Id>)
    requires Lists(a, s) && Lists(b, t) && s !! t
    ensures Lists(a + b, s + t)
  {
    var all := a + b;
    forall i, j | 0 <= i < j < |all| ensures all[i] != all[j] {
      if i < |a| <= j {
        assert all[i] in a && all[j] in b;
      }
    }
  }

  /** What a visit adds: from the visited set `before` to `after`, expanding `order`. */
  ghost predicate Progress(store: Store, before: set<Id>, after: set<Id>, order: seq<Id>) {
    && before <= after <= store.Keys
    && Lists(order, after - before)
    && forall x, y :: x in after - before && Edge(store, x, y) ==> y in after
  }

  lemma ProgressComposes(store: Store, s: set<Id>, t: set<Id>, u: set<Id>, a: seq<Id>, b: seq<Id>)
    requires Progress(store, s, t, a) && Progress(store, t, u, b)
    ensures Progress(store, s, u, a + b)
  {
    ListsAppend(a, t - s, b, u - t);
    assert u - s == (t - s) + (u - t);
  }

  /** Marking a container and visiting its children expands it and what they add. */
  lemma ExpansionProgress(store: Store, s: set<Id>, u: set<Id>, id: Id, nested: seq<Id>)
    requires id in store && id !in s && Progress(store, s + {id}, u, nested)
    requires forall y :: Edge(store, id, y) ==> y in u
    ensures Progress(store, s, u, [id] + nested)
  {
    ListsAppend([id], {id}, nested, u - (s + {id}));
    assert u - s == {id} + (u - (s + {id}));
  }

  ghost predicate ReachesAll(store: Store, a: Id, ids: seq<Id>) {
    forall x :: x in ids ==> Reaches(store, a, x)
  }

  lemma ReachesAllThroughChild(store: Store, a: Id, child: Id, ids: seq<Id>)
    requires Edge(store, a, child) && ReachesAll(store, child, ids)
    ensures ReachesAll(store, a, ids)
  {
    forall x | x in ids ensures Reaches(store, a, x) {
      ReachesThroughChild(store, a, child, x);
    }
  }

  /** One walk: the visited set, what it has yielded, and (ghost) the order of expansion. */
  class Walk {
    const store: Store
    var seen: set<Id>
    var yielded: seq<Tensor>

    constructor (store: Store)
      ensures this.store == store && seen == {} && yielded == []
    {
      this.store := store;
      seen, yielded := {}, [];
    }

    /** `_iter_tensors`: terminates on every store, because each expansion shrinks the set
        of containers not yet seen. */
    method Visit(v: Value) returns (ghost order: seq<Id>)
      requires Closed(store) && Resolves(store, v) && seen <= store.Keys
      modifies this
      ensures Progress(store, old(seen), seen, order)
      ensures v.Container? ==> v.id in seen && ReachesAll(store, v.id, order)
      ensures !v.Container? ==> order == []
      ensures multiset(yielded) == multiset(old(yielded)) + Own(v) + AllDirect(store, order)
      decreases store.Keys - seen, 1
    {
      order := [];
      if v.Leaf? {
        yielded := yielded + [v.tensor];
        return;
      }
      if v.Opaque? || v.id in seen {
        return;
      }
      order := Expand(v.id);
    }

    method Expand(id: Id) returns (ghost order: seq<Id>)
      requires Closed(store) && id in store && id !in seen && seen <= store.Keys
      modifies this
      ensures Progress(store, old(seen), seen, order)
      ensures id in seen && ReachesAll(store, id, order)
      ensures multiset(yielded) == multiset(old(yielded)) + AllDirect(store, order)
      decreases store.Keys - seen, 0
    {
      seen := seen + {id};
      ghost var nested := VisitChildren(id);
      order := [id] + nested;
      ChildrenSeenEdges(store, id, seen);
      ExpansionProgress(store, old(seen), seen, id, nested);
      AllDirectAppend(store, [id], nested);
      AllDirectOne(store, id);
      ReachesSelf(store, id);
      hide AllDirect, Direct, Reaches, Progress;
    }

    /** The loop over the children of a container already marked. */
    method VisitChildren(id: Id) returns (ghost nested: seq<Id>)
      requires Closed(store) && id in store && id in seen && seen <= store.Keys
      modifies this
      ensures Progress(store, old(seen), seen, nested)
      ensures ReachesAll(store, id, nested)
      ensures ChildrenSeen(store[id], |store[id]|, seen)
      ensures multiset(yielded) == multiset(old(yielded)) + (Direct(store[id]) + AllDirect(store, nested))
      decreases store.Keys - seen, 2
    {
      nested := [];
      var children := store[id];
      for i := 0 to |children|
        invariant Progress(store, old(seen), seen, nested)
        invariant ReachesAll(store, id, nested)
        invariant ChildrenSeen(children, i, seen)
        invariant multiset(yielded) == multiset(old(yielded)) + (Direct(children[..i]) + AllDirect(store, nested))
      {
        ChildResolves(store, id, i);
        ghost var before, base := seen, multiset(yielded);
        ghost var more := Visit(children[i]);
        hide *;
        ProgressComposes(store, old(seen), before, seen, nested, more);
        ReachesAllThroughValue(store, id, i, nested, more);
        ChildrenSeenNext(children, i, before, seen) by { ProgressGrows(store, before, seen, more); }
        GatherChild(store, children, i, nested, more);
        SumsCompose(multiset(old(yielded)), Direct(children[..i]) + AllDirect(store, nested), Own(children[i]),
                    AllDirect(store, more));
        nested := nested + more;
      }
      assert children[..|children|] == children;
    }
  }

  lemma SumsCompose(a: multiset<Tensor>, b: multiset<Tensor>, c: multiset<Tensor>, d: multiset<Tensor>)
    ensures a + b + c + d == a + (b + (c + d))
  {
  }

  lemma ProgressGrows(store: Store, s: set<Id>, t: set<Id>, order: seq<Id>)
    requires Progress(store, s, t, order)
    ensures s <= t
  {
  }

  /** The first n children that are containers have been seen. */
  ghost predicate ChildrenSeen(children: seq<Value>, n: nat, seen: set<Id>) {
    forall k :: 0 <= k < n && k < |children| && children[k].Container? ==> children[k].id in seen
  }

  lemma ChildrenSeenNext(children: seq<Value>, i: nat, before: set<Id>, seen: set<Id>)
    requires ChildrenSeen(children, i, before) && before <= seen && i < |children|
    requires children[i].Container? ==> children[i].id in seen
    ensures ChildrenSeen(children, i + 1, seen)
  {
  }

  lemma ChildrenSeenEdges(store: Store, id: Id, seen: set<Id>)
    requires id in store && ChildrenSeen(store[id], |store[id]|, seen)
    ensures forall y :: Edge(store, id, y) ==> y in seen
  {
    forall y | Edge(store, id, y) ensures y in seen {
      var k :| 0 <= k < |store[id]| && store[id][k] == Container(y);
    }
  }

  lemma ChildResolves(store: Store, id: Id, i: nat)
    requires Closed(store) && id in store && i < |store[id]|
    ensures Resolves(store, store[id][i])
  {
  }

  lemma ReachesAllThroughValue(store: Store, id: Id, i: nat, nested: seq<Id>, more: seq<Id>)
    requires id in store && i < |store[id]| && ReachesAll(store, id, nested)
    requires store[id][i].Container? ==> ReachesAll(store, store[id][i].id, more)
    requires !store[id][i].Container? ==> more == []
    ensures ReachesAll(store, id, nested + more)
  {
    if store[id][i].Container? {
      assert Edge(store, id, store[id][i].id);
      ReachesAllThroughChild(store, id, store[id][i].id, more);
    }
    hide Reaches;
  }

  lemma AllDirectOne(store: Store, id: Id)
    requires id in store
    ensures AllDirect(store, [id]) == Direct(store[id])
  {
    assert [id][..0] == [];
  }

  lemma GatherChild(store: Store, children: seq<Value>, i: nat, nested: seq<Id>, more: seq<Id>)
    requires i < |children|
    ensures Direct(children[..i]) + AllDirect(store, nested) + (Own(children[i]) + AllDirect(store, more))
         == Direct(children[..i + 1]) + AllDirect(store, nested + more)
  {
    AllDirectAppend(store, nested, more);
    assert children[..i + 1][..i] == children[..i];
  }

  /** The containers a value reaches. */
  ghost predicate ReachableFrom(store: Store, v: Value, id: Id) {
    v.Container? && Reaches(store, v.id, id)
  }

  /** `order` lists the reachable containers, each once. */
  ghost predicate WalkOrder(store: Store, root: Value, order: seq<Id>) {
    Distinct(order) && forall id :: id in order <==> ReachableFrom(store, root, id)
  }

  /** The direct tensors of the reachable containers, each container taken exactly once. */
  ghost predicate IsWalk(store: Store, root: Value, tensors: seq<Tensor>) {
    exists order :: WalkOrder(store, root, order) && multiset(tensors) == Own(root) + AllDirect(store, order)
  }

  /** The whole walk: every reachable container is expanded exactly once and nothing else
      is, and the yields are exactly their direct tensors, with multiplicity. */
  method IterTensors(store: Store, root: Value) returns (tensors: seq<Tensor>)
    requires Closed(store) && Resolves(store, root)
    ensures IsWalk(store, root, tensors)
  {
    var walk := new Walk(store);
    ghost var order := walk.Visit(root);
    tensors := walk.yielded;
    forall id | ReachableFrom(store, root, id) ensures id in order {
      var path :| IsPath(store, path, root.id, id);
      ClosedSetHoldsReachable(store, walk.seen, path, root.id, id);
    }
    assert WalkOrder(store, root, order);
  }

  function Removed<T>(s: seq<T>, k: nat): seq<T>
    requires k < |s|
  {
    s[..k] + s[k + 1..]
  }

  lemma AllDirectRemoved(store: Store, ids: seq<Id>, k: nat)
    requires k < |ids|
    ensures AllDirect(store, ids) == AllDirect(store, Removed(ids, k)) + Direct(Children(store, ids[k]))
  {
    var before, here, after := ids[..k], [ids[k]], ids[k + 1..];
    assert ids == (before + here) + after;
    AllDirectAppend(store, before + here, after);
    AllDirectAppend(store, before, here);
    AllDirectAppend(store, before, after);
    assert here[..0] == [] && AllDirect(store, here) == Direct(Children(store, ids[k]));
    hide AllDirect, Direct;
  }

  lemma RemovedStaysDistinct(ids: seq<Id>, k: nat)
    requires Distinct(ids) && k < |ids|
    ensures Distinct(Removed(ids, k)) && forall id :: id in Removed(ids, k) <==> id in ids && id != ids[k]
  {
    var rest := Removed(ids, k);
    forall i | 0 <= i < |rest| ensures rest[i] == ids[if i < k then i else i + 1] {
    }
    forall id | id in ids && id != ids[k] ensures id in rest {
      var i :| 0 <= i < |ids| && ids[i] == id;
      assert rest[if i < k then i else i - 1] == id;
    }
  }

  lemma SomeMember(a: seq<Id>, b: seq<Id>)
    requires forall id :: id in b ==> id in a
    ensures b != [] ==> a != []
  {
    if b != [] {
      var id := b[0];
      assert id in b && id in a;
    }
  }

  lemma {:induction false} AllDirectOfListing(store: Store, a: seq<Id>, b: seq<Id>)
    requires Distinct(a) && Distinct(b) && forall id :: id in a <==> id in b
    ensures AllDirect(store, a) == AllDirect(store, b)
    decreases |a|
  {
    hide AllDirect, Direct, Removed, Distinct;
    if a == [] {
      SomeMember(a, b);
    } else {
      assert a[0] in a;
      var k :| 0 <= k < |b| && b[k] == a[0];
      RemovedStaysDistinct(a, 0);
      RemovedStaysDistinct(b, k);
      RemovedIsShorter(a, 0);
      AllDirectOfListing(store, Removed(a, 0), Removed(b, k));
      AllDirectRemoved(store, a, 0);
      AllDirectRemoved(store, b, k);
    }
  }

  lemma RemovedIsShorter<T>(s: seq<T>, k: nat)
    requires k < |s|
    ensures |Removed(s, k)| == |s| - 1
  {
  }

  /** What the walk yields does not depend on the order in which containers are visited. */
  lemma WalkIsUnique(store: Store, root: Value, s: seq<Tensor>, t: seq<Tensor>)
    requires IsWalk(store, root, s) && IsWalk(store, root, t)
    ensures multiset(s) == multiset(t)
  {
    hide AllDirect, ReachableFrom, Distinct;
    var a :| WalkOrder(store, root, a) && multiset(s) == Own(root) + AllDirect(store, a);
    var b :| WalkOrder(store, root, b) && multiset(t) == Own(root) + AllDirect(store, b);
    AllDirectOfListing(store, a, b);
  }

  /** A walk yields exactly the root, if it is a tensor, and the tensors directly inside the
      containers that the root reaches. */
  lemma YieldsAreReachableTensors(store: Store, root: Value, tensors: seq<Tensor>, t: Tensor)
    requires IsWalk(store, root, tensors)
    ensures t in tensors
       <==> root == Leaf(t) || exists id :: ReachableFrom(store, root, id) && Leaf(t) in Children(store, id)
  {
    hide AllDirect, ReachableFrom, Distinct, Children;
    var order :| WalkOrder(store, root, order) && multiset(tensors) == Own(root) + AllDirect(store, order);
    InAllDirect(store, order, t);
    assert t in tensors <==> t in multiset(tensors);
  }

  // ---- Statistics of elements ------------------------------------------------------

  function Abs(x: real): (r: real)
    ensures r >= 0.0
  {
    if x < 0.0 then -x else x
  }

  function Nonfinites(t: seq<Element>): nat {
    if t == [] then 0 else Nonfinites(t[..|t| - 1]) + if t[|t| - 1].NonFinite? then 1 else 0
  }

  function Zeros(t: seq<Element>): nat {
    if t == [] then 0 else Zeros(t[..|t| - 1]) + if t[|t| - 1] == Finite(0.0) then 1 else 0
  }

  function Square(x: real): (r: real)
    ensures r >= 0.0
  {
    x * x
  }

  /** The sum of squares of the finite entries. */
  function Squares(t: seq<Element>): (r: real)
    ensures r >= 0.0
  {
    if t == [] then 0.0 else Squares(t[..|t| - 1]) + if t[|t| - 1].Finite? then Square(t[|t| - 1].value) else 0.0
  }

  function Larger(a: real, b: real): real {
    if a < b then b else a
  }

  /** The largest magnitude of the finite entries, or zero. */
  function Largest(t: seq<Element>): (r: real)
    ensures r >= 0.0
  {
    if t == [] then 0.0
    else Larger(Largest(t[..|t| - 1]), if t[|t| - 1].Finite? then Abs(t[|t| - 1].value) else 0.0)
  }

  lemma StatisticsAppend(a: seq<Element>, b: seq<Element>)
    ensures Nonfinites(a + b) == Nonfinites(a) + Nonfinites(b)
    ensures Zeros(a + b) == Zeros(a) + Zeros(b)
    ensures Squares(a + b) == Squares(a) + Squares(b)
    ensures Largest(a + b) == Larger(Largest(a), Largest(b))
  {
    hide Square, Abs;
    if b == [] {
      assert a + b == a;
    } else {
      var last := |b| - 1;
      StatisticsAppend(a, b[..last]);
      assert (a + b)[..|a + b| - 1] == a + b[..last] && (a + b)[|a + b| - 1] == b[last];
    }
  }

  /** A tensor of non-finite entries only adds nothing to the magnitudes. */
  lemma {:induction false} NothingFinite(t: seq<Element>)
    ensures Nonfinites(t) + Zeros(t) <= |t|
    ensures Nonfinites(t) == |t| ==> Squares(t) == 0.0 && Largest(t) == 0.0
  {
    if t != [] {
      NothingFinite(t[..|t| - 1]);
    }
  }

  /** The reported maximum bounds every finite magnitude and, unless zero, is one of them. */
  lemma {:induction false} LargestIsMaximum(t: seq<Element>)
    ensures forall i :: 0 <= i < |t| && t[i].Finite? ==> Abs(t[i].value) <= Largest(t)
    ensures Largest(t) > 0.0 ==> exists i :: 0 <= i < |t| && t[i].Finite? && Abs(t[i].value) == Largest(t)
  {
    hide Abs;
    if t != [] {
      var init := t[..|t| - 1];
      LargestIsMaximum(init);
      assert forall i :: 0 <= i < |init| ==> init[i] == t[i];
      if Largest(t) > 0.0 && Largest(t) == Largest(init) {
        var i :| 0 <= i < |init| && init[i].Finite? && Abs(init[i].value) == Largest(init);
        assert t[i].Finite?;
      }
    }
  }

  /** All entries of a list of tensors. */
  function Flat(tensors: seq<Tensor>): seq<Element> {
    if tensors == [] then [] else Flat(tensors[..|tensors| - 1]) + tensors[|tensors| - 1]
  }

  lemma FlatAppend(tensors: seq<Tensor>, t: Tensor)
    ensures Flat(tensors + [t]) == Flat(tensors) + t
  {
  }

  // ---- The aggregate ---------------------------------------------------------------

  /** The doubles: the largest finite one, the square root, and the bit pattern of a number. */
  datatype Doubles = Doubles(limit: real, sqrt: real -> real, pattern: real -> int)

  /** The magnitudes of `as_dict`: `max_abs`, `sum_squares`, `rms`, `finite_fraction`, `l2_norm`. */
  function Magnitudes(d: Doubles, elements: nat, nonfinite: nat, maxAbs: real, sumSquares: real): seq<Option<int>> {
    var rms :=
      if elements == 0 then Some(d.pattern(0.0))
      else if nonfinite > 0 then None
      else Some(d.pattern(d.sqrt(sumSquares / elements as real)));
    var finiteFraction :=
      if elements == 0 then None
      else if nonfinite > 0 then Some(d.pattern((elements - nonfinite) as real / elements as real))
      else Some(d.pattern(1.0));
    var l2Norm := if nonfinite > 0 then None else Some(d.pattern(d.sqrt(sumSquares)));
    [Some(d.pattern(maxAbs)), Some(d.pattern(sumSquares)), rms, finiteFraction, l2Norm]
  }

  /** The statistics of all entries of the tensors. */
  function StatsOf(d: Doubles, tensors: seq<Tensor>): Stats {
    var all := Flat(tensors);
    Stats(|tensors|, |all|, Nonfinites(all), Zeros(all),
          Magnitudes(d, |all|, Nonfinites(all), Largest(all), Squares(all)))
  }

  /** `_Aggregate`: `added` lists the tensors taken in so far. */
  class Aggregate {
    const doubles: Doubles
    ghost var added: seq<Tensor>
    var count: nat
    var elements: nat
    var nonfinite: nat
    var zero: nat
    var maxAbs: real
    var sumSquares: real

    /** The counts are those of all entries of the tensors taken in. */
    ghost predicate Counted()
      reads this
    {
      && count == |added| && elements == |Flat(added)|
      && nonfinite == Nonfinites(Flat(added)) && zero == Zeros(Flat(added))
    }

    /** So are the magnitudes, and their sum of squares has not overflowed. */
    ghost predicate Valid()
      reads this
    {
      && Counted()
      && maxAbs == Largest(Flat(added)) && sumSquares == Squares(Flat(added)) <= doubles.limit
    }

    constructor (doubles: Doubles)
      requires doubles.limit >= 0.0
      ensures Valid() && added == [] && this.doubles == doubles
    {
      this.doubles := doubles;
      added, count, elements, nonfinite, zero, maxAbs, sumSquares := [], 0, 0, 0, 0, 0.0, 0.0;
    }

    /** `add_tensor`: keeps every statistic that of the entries of all tensors together, and raises
        exactly when their sum of squares leaves the finite range. */
    method AddTensor(t: Tensor) returns (raised: bool)
      requires Valid()
      modifies this
      ensures added == old(added) + [t] && Counted()
      ensures raised <==> Squares(Flat(added)) > doubles.limit
      ensures !raised ==> Valid()
    {
      ghost var before := Flat(added);
      FlatAppend(added, t);
      StatisticsAppend(before, t);
      NothingFinite(t);
      hide Flat, Nonfinites, Zeros, Squares, Largest;
      added := added + [t];
      count := count + 1;
      elements := elements + |t|;
      if |t| == 0 {
        return false;
      }
      nonfinite := nonfinite + Nonfinites(t);
      zero := zero + Zeros(t);
      if Nonfinites(t) < |t| {
        var tensorMax, tensorSumSquares := Largest(t), Squares(t);
        if tensorSumSquares > doubles.limit {
          return true;
        }
        maxAbs := Larger(maxAbs, tensorMax);
        sumSquares := sumSquares + tensorSumSquares;
        if sumSquares > doubles.limit {
          return true;
        }
      }
      return false;
    }

    /** `as_dict`. */
    method AsDict() returns (stats: Stats)
      requires Valid()
      ensures stats == StatsOf(doubles, added)
    {
      hide Flat, Nonfinites, Zeros, Squares, Largest;
      stats := Stats(count, elements, nonfinite, zero, Magnitudes(doubles, elements, nonfinite, maxAbs, sumSquares));
    }
  }

  /** An overflow exactly when the sum of squares of all entries leaves the finite range, and
      otherwise the statistics of all entries. */
  predicate IsReading(d: Doubles, tensors: seq<Tensor>, reading: CollectorSpec.Reading) {
    match reading
    case Unread(error) => error == CollectorSpec.NonFiniteError && Squares(Flat(tensors)) > d.limit
    case Read(stats) => stats == StatsOf(d, tensors) && Squares(Flat(tensors)) <= d.limit
  }

  /** Taking in more tensors never lowers the sum of squares. */
  lemma {:induction false} SquaresOfPrefix(tensors: seq<Tensor>, n: nat)
    requires n <= |tensors|
    ensures Squares(Flat(tensors[..n])) <= Squares(Flat(tensors))
  {
    hide Squares;
    if n == |tensors| {
      assert tensors[..n] == tensors;
    } else {
      var last := |tensors| - 1;
      SquaresOfPrefix(tensors[..last], n);
      assert tensors[..last][..n] == tensors[..n];
      StatisticsAppend(Flat(tensors[..last]), tensors[last]);
    }
  }

  /** `aggregate_tensor_tree`: the statistics over the walk, unless its sum of squares overflows. */
  method AggregateTensorTree(store: Store, root: Value, d: Doubles) returns (reading: CollectorSpec.Reading)
    requires Closed(store) && Resolves(store, root) && d.limit >= 0.0
    ensures exists tensors :: IsWalk(store, root, tensors) && IsReading(d, tensors, reading)
  {
    hide Flat, Squares, StatsOf, IsWalk;
    var tensors := IterTensors(store, root);
    var aggregate := new Aggregate(d);
    for i := 0 to |tensors|
      invariant aggregate.Valid() && aggregate.added == tensors[..i]
    {
      var raised := aggregate.AddTensor(tensors[i]);
      assert tensors[..i + 1] == tensors[..i] + [tensors[i]];
      if raised {
        SquaresOfPrefix(tensors, i + 1);
        reading := CollectorSpec.Unread(CollectorSpec.NonFiniteError);
        assert IsReading(d, tensors, reading);
        return;
      }
    }
    assert tensors[..|tensors|] == tensors;
    var stats := aggregate.AsDict();
    reading := CollectorSpec.Read(stats);
    assert IsReading(d, tensors, reading);
  }

  // ---- The reading depends on the graph alone --------------------------------------

  /** What lists of tensors add up to. */
  datatype Sums = Sums(count: nat, elements: nat, nonfinite: nat, zero: nat, squares: real, largest: real)

  ghost function Gathered(tensors: seq<Tensor>): Sums {
    var all := Flat(tensors);
    Sums(|tensors|, |all|, Nonfinites(all), Zeros(all), Squares(all), Largest(all))
  }

  ghost function Added(a: Sums, b: Sums): Sums {
    Sums(a.count + b.count, a.elements + b.elements, a.nonfinite + b.nonfinite, a.zero + b.zero,
         a.squares + b.squares, Larger(a.largest, b.largest))
  }

  lemma {:induction false} FlatOfConcatenation(s: seq<Tensor>, t: seq<Tensor>)
    ensures Flat(s + t) == Flat(s) + Flat(t)
  {
    if t == [] {
      assert s + t == s;
    } else {
      var last := |t| - 1;
      FlatOfConcatenation(s, t[..last]);
      assert (s + t)[..|s + t| - 1] == s + t[..last];
    }
  }

  lemma GatheredAppend(s: seq<Tensor>, t: seq<Tensor>)
    ensures Gathered(s + t) == Added(Gathered(s), Gathered(t))
  {
    FlatOfConcatenation(s, t);
    StatisticsAppend(Flat(s), Flat(t));
    hide Flat, Nonfinites, Zeros, Squares, Largest;
  }

  lemma AddedSwaps(a: Sums, b: Sums, c: Sums)
    ensures Added(Added(a, b), c) == Added(Added(a, c), b)
  {
  }

  lemma GatheredRemoved(s: seq<Tensor>, k: nat)
    requires k < |s|
    ensures Gathered(s) == Added(Gathered(Removed(s, k)), Gathered([s[k]]))
  {
    hide Gathered, Added;
    assert s == (s[..k] + [s[k]]) + s[k + 1..];
    GatheredAppend(s[..k] + [s[k]], s[k + 1..]);
    GatheredAppend(s[..k], [s[k]]);
    GatheredAppend(s[..k], s[k + 1..]);
    AddedSwaps(Gathered(s[..k]), Gathered([s[k]]), Gathered(s[k + 1..]));
  }

  lemma RemovedMultiset(s: seq<Tensor>, k: nat)
    requires k < |s|
    ensures multiset(Removed(s, k)) == multiset(s) - multiset{s[k]}
  {
    assert s == s[..k] + [s[k]] + s[k + 1..];
  }

  lemma {:induction false} GatheredOfRearrangement(s: seq<Tensor>, t: seq<Tensor>)
    requires multiset(s) == multiset(t)
    ensures Gathered(s) == Gathered(t)
    decreases |s|
  {
    hide Gathered, Removed;
    assert |s| == |multiset(s)| == |multiset(t)| == |t|;
    if s != [] {
      assert s[0] in multiset(t);
      var k :| 0 <= k < |t| && t[k] == s[0];
      GatheredRemoved(s, 0);
      GatheredRemoved(t, k);
      RemovedMultiset(s, 0);
      RemovedMultiset(t, k);
      RemovedIsShorter(s, 0);
      GatheredOfRearrangement(Removed(s, 0), Removed(t, k));
    }
  }

  /** The reading of a value, overflow included, is determined by the container graph: it does not
      depend on the order in which containers are visited. */
  lemma ReadingIsUnique(store: Store, root: Value, d: Doubles, s: seq<Tensor>, t: seq<Tensor>,
                        r: CollectorSpec.Reading, q: CollectorSpec.Reading)
    requires IsWalk(store, root, s) && IsReading(d, s, r) && IsWalk(store, root, t) && IsReading(d, t, q)
    ensures r == q
  {
    hide IsWalk, Squares, Flat, Nonfinites, Zeros, Largest, Magnitudes;
    WalkIsUnique(store, root, s, t);
    GatheredOfRearrangement(s, t);
  }
}
