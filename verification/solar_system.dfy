/**
 The body hierarchy of src/SolarSystem.cpp.  A system is a table of nodes
 keyed by body identity; each node holds its body, its orbital state relative
 to its parent, a link to the parent and the ordered list of its children.
 Pointers between nodes become identities.

 `WellFormed` is the tree invariant: the links are mutually consistent, only
 the root lacks a parent, and a rank that strictly decreases from parent to
 child exists, which rules out cycles.  Every operation below keeps it.

 Places where the source departs from its evident intent are modelled
 as intended (and, for the record, as written):
 - `removeBody` tests `node->parent != nullptr` where it means `== nullptr`,
   so it refuses every non-root body and goes on to dereference the null
   parent of the root;
 - the loop of `removeBody` never unlinks the removed node from its
   parent's child list and never re-points the orphaned children at their
   new parent (`RemoveLoopAsWritten`), so even with the guard corrected the
   links would break;
 - `addBody` pushes the new node onto the parent's children before
   `std::map::emplace` silently discards a duplicate identity.
 */
module SolarSystems {
  import opened Vector
  import opened Results
  import opened Bodies
  import opened States

  datatype Node = Node(body: Body, state: OrbitalState, parent: Option<BodyId>, children: seq<BodyId>)

  datatype SolarSystem = SolarSystem(time: real, bodies: map<BodyId, Node>, root: BodyId)

  /** The source's exceptions: `std::out_of_range` from `map::at` on a missing
      identity, the "Remove root" `InvalidOperationException`, and insertion of
      an identity already in use.  `NullParent` stands for the null-pointer
      dereference of `removeBody` as written, which only the as-written model
      produces. */
  datatype Error = UnknownBody | InvalidOperation | DuplicateBody | NullParent

  predicate NoDuplicates<T(==)>(s: seq<T>) {
    forall i, j :: 0 <= i < j < |s| ==> s[i] != s[j]
  }

  /** The links are consistent: the root is present and parentless, every
      other node's parent is present and lists it as a child, every listed
      child is present and points back, and no child is listed twice. */
  predicate Linked(s: SolarSystem) {
    && s.root in s.bodies
    && s.bodies[s.root].parent.None?
    && (forall id :: id in s.bodies ==> s.bodies[id].body.id == id)
    && (forall id :: id in s.bodies && id != s.root ==> ParentListsChild(s, id))
    && (forall id :: id in s.bodies ==> ChildrenPointBack(s, id))
  }

  /** A non-root node has a present parent that lists it among its children. */
  predicate ParentListsChild(s: SolarSystem, id: BodyId)
    requires id in s.bodies
  {
    && s.bodies[id].parent.Some?
    && s.bodies[id].parent.value in s.bodies
    && id in s.bodies[s.bodies[id].parent.value].children
  }

  /** The children of a node are present, distinct, and have it as parent. */
  predicate ChildrenPointBack(s: SolarSystem, id: BodyId)
    requires id in s.bodies
  {
    && NoDuplicates(s.bodies[id].children)
    && forall c :: c in s.bodies[id].children ==> c in s.bodies && s.bodies[c].parent == Some(id)
  }

  /** A witness of acyclicity: ranks bounded by the root's, strictly
      decreasing from every parent to its child. */
  ghost predicate Ranked(s: SolarSystem, rank: map<BodyId, nat>) {
    && rank.Keys == s.bodies.Keys
    && (forall id :: id in rank ==> s.root in rank && rank[id] <= rank[s.root])
    && (forall id :: id in rank && s.bodies[id].parent.Some? && s.bodies[id].parent.value in rank ==>
          rank[id] < rank[s.bodies[id].parent.value])
  }

  /** The tree invariant. */
  ghost predicate WellFormed(s: SolarSystem) {
    Linked(s) && exists rank :: Ranked(s, rank)
  }

  /** A rank witness of a well-formed system, used to bound recursion over the tree. */
  ghost function Rank(s: SolarSystem): (rank: map<BodyId, nat>)
    requires WellFormed(s)
    ensures Ranked(s, rank)
  {
    var rank :| Ranked(s, rank); rank
  }

  /** The parent of a non-root node. */
  function ParentOf(s: SolarSystem, id: BodyId): (p: BodyId)
    requires Linked(s) && id in s.bodies && id != s.root
    ensures p in s.bodies && id in s.bodies[p].children
    ensures WellFormed(s) ==> Rank(s)[id] < Rank(s)[p]
  {
    assert ParentListsChild(s, id);
    s.bodies[id].parent.value
  }

  /** Children rank below their parent. */
  lemma ChildRanksLower(s: SolarSystem, p: BodyId, c: BodyId)
    requires WellFormed(s) && p in s.bodies && c in s.bodies[p].children
    ensures c in s.bodies && s.bodies[c].parent == Some(p) && Rank(s)[c] < Rank(s)[p]
  {
    assert ChildrenPointBack(s, p);
  }

  /** A node with no parent is the root. */
  lemma ParentlessIsRoot(s: SolarSystem, id: BodyId)
    requires Linked(s) && id in s.bodies
    ensures s.bodies[id].parent.None? <==> id == s.root
  {
    if id != s.root {
      assert ParentListsChild(s, id);
    }
  }

  /** The absolute position of a body: the sum of the relative positions on
      the path from the root down to it, the root's own included. */
  function AbsPosition(s: SolarSystem, id: BodyId): (v: Vector3D)
    requires WellFormed(s) && id in s.bodies
    decreases Rank(s)[s.root] - Rank(s)[id]
  {
    if id == s.root then s.bodies[id].state.position
    else Plus(AbsPosition(s, ParentOf(s, id)), s.bodies[id].state.position)
  }

  /** The absolute velocity of a body, summed along the same path. */
  function AbsVelocity(s: SolarSystem, id: BodyId): (v: Vector3D)
    requires WellFormed(s) && id in s.bodies
    decreases Rank(s)[s.root] - Rank(s)[id]
  {
    if id == s.root then s.bodies[id].state.velocity
    else Plus(AbsVelocity(s, ParentOf(s, id)), s.bodies[id].state.velocity)
  }

  /** b lies in the subtree of a: a is b or one of its ancestors. */
  ghost predicate Descends(s: SolarSystem, b: BodyId, a: BodyId)
    requires WellFormed(s) && b in s.bodies
    decreases Rank(s)[s.root] - Rank(s)[b]
  {
    b == a || (b != s.root && Descends(s, ParentOf(s, b), a))
  }

  /** The bodies of the subtree rooted at a. */
  ghost function Subtree(s: SolarSystem, a: BodyId): (t: set<BodyId>)
    requires WellFormed(s)
    ensures forall b :: b in t <==> b in s.bodies && Descends(s, b, a)
  {
    set b | b in s.bodies && Descends(s, b, a)
  }

  /** Descending never climbs in rank, and a proper descendant ranks strictly lower. */
  lemma {:induction false} DescendsRank(s: SolarSystem, b: BodyId, a: BodyId)
    requires WellFormed(s) && b in s.bodies && Descends(s, b, a)
    ensures a in s.bodies && Rank(s)[b] <= Rank(s)[a]
    ensures b != a ==> Rank(s)[b] < Rank(s)[a]
    decreases Rank(s)[s.root] - Rank(s)[b]
  {
    if b != a {
      DescendsRank(s, ParentOf(s, b), a);
    }
  }

  /** Connectivity: every body lies in the root's subtree. */
  lemma {:induction false} ReachesRoot(s: SolarSystem, b: BodyId)
    requires WellFormed(s) && b in s.bodies
    ensures Descends(s, b, s.root)
    decreases Rank(s)[s.root] - Rank(s)[b]
  {
    if b != s.root {
      ReachesRoot(s, ParentOf(s, b));
    }
  }

  /** The subtree of the root is the whole system. */
  lemma RootSubtreeIsAll(s: SolarSystem)
    requires WellFormed(s)
    ensures Subtree(s, s.root) == s.bodies.Keys
  {
    forall b | b in s.bodies
      ensures Descends(s, b, s.root)
    {
      ReachesRoot(s, b);
    }
  }

  /** Acyclicity: no body is a proper descendant of its own descendant. */
  lemma Acyclic(s: SolarSystem, a: BodyId, b: BodyId)
    requires WellFormed(s) && a in s.bodies && b in s.bodies
    requires Descends(s, b, a) && Descends(s, a, b)
    ensures a == b
  {
    DescendsRank(s, b, a);
    DescendsRank(s, a, b);
  }

  /** The ancestors of a body form a chain: two ancestors of the same body
      are ordered by descent. */
  lemma {:induction false} AncestorsChain(s: SolarSystem, b: BodyId, x: BodyId, y: BodyId)
    requires WellFormed(s) && b in s.bodies && x in s.bodies && y in s.bodies
    requires Descends(s, b, x) && Descends(s, b, y)
    ensures Descends(s, x, y) || Descends(s, y, x)
    decreases Rank(s)[s.root] - Rank(s)[b]
  {
    if b != x && b != y {
      AncestorsChain(s, ParentOf(s, b), x, y);
    }
  }

  /** The subtree of a node is the node itself together with the subtrees of
      its children; the latter are pairwise disjoint and miss the node. */
  lemma SubtreeSplits(s: SolarSystem, a: BodyId)
    requires WellFormed(s) && a in s.bodies
    ensures forall b :: b in Subtree(s, a) <==>
              b == a || exists c :: c in s.bodies[a].children && b in Subtree(s, c)
    ensures forall c :: c in s.bodies[a].children ==> a !in Subtree(s, c)
    ensures forall c1, c2 :: c1 in s.bodies[a].children && c2 in s.bodies[a].children && c1 != c2 ==>
              Subtree(s, c1) !! Subtree(s, c2)
  {
    assert ChildrenPointBack(s, a);
    forall b | b in Subtree(s, a) && b != a
      ensures exists c :: c in s.bodies[a].children && b in Subtree(s, c)
    {
      var c := Branch(s, b, a);
    }
    forall c, b | c in s.bodies[a].children && b in Subtree(s, c)
      ensures b in Subtree(s, a)
    {
      DescendsThroughChild(s, b, c, a);
    }
    forall c | c in s.bodies[a].children
      ensures a !in Subtree(s, c)
    {
      if a in Subtree(s, c) {
        DescendsRank(s, a, c);
      }
    }
    forall c1, c2 | c1 in s.bodies[a].children && c2 in s.bodies[a].children && c1 != c2
      ensures Subtree(s, c1) !! Subtree(s, c2)
    {
      forall b | b in s.bodies
        ensures !(b in Subtree(s, c1) && b in Subtree(s, c2))
      {
        SiblingsDisjoint(s, a, c1, c2, b);
      }
    }
  }

  /** A body in the subtree of a child of a is in the subtree of a. */
  lemma {:induction false} DescendsThroughChild(s: SolarSystem, b: BodyId, c: BodyId, a: BodyId)
    requires WellFormed(s) && b in s.bodies && a in s.bodies
    requires c in s.bodies[a].children && Descends(s, b, c)
    ensures Descends(s, b, a)
    decreases Rank(s)[s.root] - Rank(s)[b]
  {
    assert ChildrenPointBack(s, a);
    if b == c {
      ParentlessIsRoot(s, c);
      assert ParentOf(s, b) == a;
    } else {
      DescendsThroughChild(s, ParentOf(s, b), c, a);
    }
  }

  /** The child of a on the path from a proper descendant b up to a. */
  ghost function Branch(s: SolarSystem, b: BodyId, a: BodyId): (c: BodyId)
    requires WellFormed(s) && b in s.bodies && Descends(s, b, a) && b != a
    ensures a in s.bodies && c in s.bodies[a].children && Descends(s, b, c)
    decreases Rank(s)[s.root] - Rank(s)[b]
  {
    var p := ParentOf(s, b);
    if p == a then b else Branch(s, p, a)
  }

  /** No body lies below two different children of the same node. */
  lemma SiblingsDisjoint(s: SolarSystem, a: BodyId, c1: BodyId, c2: BodyId, b: BodyId)
    requires WellFormed(s) && a in s.bodies && b in s.bodies
    requires c1 in s.bodies[a].children && c2 in s.bodies[a].children && c1 != c2
    ensures !(Descends(s, b, c1) && Descends(s, b, c2))
  {
    assert ChildrenPointBack(s, a);
    if !(Descends(s, b, c1) && Descends(s, b, c2)) {
      return;
    }
    AncestorsChain(s, b, c1, c2);
    if Descends(s, c1, c2) {
      ParentlessIsRoot(s, c1);
      assert ParentOf(s, c1) == a;
      DescendsRank(s, a, c2);
    } else {
      ParentlessIsRoot(s, c2);
      assert ParentOf(s, c2) == a;
      DescendsRank(s, a, c1);
    }
  }

  /** The children list with x taken out, in order. */
  function Without(cs: seq<BodyId>, x: BodyId): (r: seq<BodyId>)
    ensures forall c :: c in r <==> c in cs && c != x
    ensures x !in cs ==> r == cs
  {
    if |cs| == 0 then []
    else if cs[0] == x then Without(cs[1..], x)
    else [cs[0]] + Without(cs[1..], x)
  }

  /** Taking an element out of a duplicate-free list leaves it duplicate-free. */
  lemma {:induction false} WithoutKeepsDistinct(cs: seq<BodyId>, x: BodyId)
    requires NoDuplicates(cs)
    ensures NoDuplicates(Without(cs, x))
  {
    if |cs| > 0 {
      assert NoDuplicates(cs[1..]);
      WithoutKeepsDistinct(cs[1..], x);
      if cs[0] != x {
        assert cs[0] !in cs[1..];
        NoDuplicatesAppend([cs[0]], Without(cs[1..], x));
      }
    }
  }

  /** Taking an element out distributes over concatenation. */
  lemma {:induction false} WithoutAppend(a: seq<BodyId>, b: seq<BodyId>, x: BodyId)
    ensures Without(a + b, x) == Without(a, x) + Without(b, x)
  {
    if |a| > 0 {
      assert (a + b)[1..] == a[1..] + b;
      WithoutAppend(a[1..], b, x);
    } else {
      assert a + b == b;
    }
  }

  /** Joining two duplicate-free, disjoint lists gives a duplicate-free list. */
  lemma NoDuplicatesAppend<T>(a: seq<T>, b: seq<T>)
    requires NoDuplicates(a) && NoDuplicates(b)
    requires forall x :: x in a ==> x !in b
    ensures NoDuplicates(a + b)
  {
    forall i, j | 0 <= i < j < |a + b|
      ensures (a + b)[i] != (a + b)[j]
    {
      if j >= |a| && i < |a| {
        assert (a + b)[i] in a && (a + b)[j] in b;
      }
    }
  }

  /** `SolarSystem(root)`: a one-node tree at time zero whose root holds the
      placeholder state. */
  function NewSystem(root: Body): (s: SolarSystem)
    ensures WellFormed(s)
    ensures s.time == 0.0 && s.root == root.id
    ensures s.bodies.Keys == {root.id}
    ensures s.bodies[root.id] == Node(root, RootState, None, [])
  {
    var s := SolarSystem(0.0, map[root.id := Node(root, RootState, None, [])], root.id);
    assert Ranked(s, map[root.id := 0]);
    s
  }

  /** `tick(seconds)`: advances the clock and leaves the tree alone. */
  function Tick(s: SolarSystem, seconds: real): (r: SolarSystem)
    ensures r.time == s.time + seconds
    ensures r.bodies == s.bodies && r.root == s.root
    ensures WellFormed(s) ==> WellFormed(r)
  {
    var r := s.(time := s.time + seconds);
    assert WellFormed(s) ==> Ranked(r, Rank(s));
    r
  }

  /** Ticking twice is ticking once by the total. */
  lemma TickAdds(s: SolarSystem, a: real, b: real)
    ensures Tick(Tick(s, a), b) == Tick(s, a + b)
  {
  }

  /** `getBody(id)`: the body stored under id; `map::at` fails on a missing id. */
  function GetBody(s: SolarSystem, id: BodyId): (r: Result<Body, Error>)
    requires Linked(s)
    ensures r.Success? <==> id in s.bodies
    ensures r.Failure? ==> r.error == UnknownBody
    ensures r.Success? ==> r.value.id == id && r.value == s.bodies[id].body
  {
    if id in s.bodies then Success(s.bodies[id].body) else Failure(UnknownBody)
  }

  /** `addBody(body, state, parent)` as intended: the parent must exist and the
      identity must be new; the new leaf is appended to the parent's children
      and nothing else changes. */
  function AddBody(s: SolarSystem, body: Body, state: OrbitalState, parent: BodyId): (r: Result<SolarSystem, Error>)
    requires WellFormed(s)
    ensures parent !in s.bodies ==> r == Failure(UnknownBody)
    ensures parent in s.bodies && body.id in s.bodies ==> r == Failure(DuplicateBody)
    ensures r.Success? <==> parent in s.bodies && body.id !in s.bodies
    ensures r.Success? ==> AddedLeaf(s, r.value, body, state, parent) && WellFormed(r.value)
  {
    if parent !in s.bodies then Failure(UnknownBody)
    else if body.id in s.bodies then Failure(DuplicateBody)
    else
      AddPreservesWellFormed(s, body, state, parent);
      Success(WithLeaf(s, body, state, parent))
  }

  /** r is s with a new leaf `body` under `parent`: one more entry, the
      parent's children extended by it at the end, and every other node,
      the root and the clock unchanged. */
  predicate AddedLeaf(s: SolarSystem, r: SolarSystem, body: Body, state: OrbitalState, parent: BodyId)
    requires parent in s.bodies
  {
    && r.time == s.time && r.root == s.root
    && r.bodies.Keys == s.bodies.Keys + {body.id}
    && r.bodies[body.id] == Node(body, state, Some(parent), [])
    && r.bodies[parent] == s.bodies[parent].(children := s.bodies[parent].children + [body.id])
    && (forall k :: k in s.bodies && k != parent ==> r.bodies[k] == s.bodies[k])
  }

  /** The system with a fresh leaf `body` under `parent`, as `AddBody` builds it. */
  function WithLeaf(s: SolarSystem, body: Body, state: OrbitalState, parent: BodyId): SolarSystem
    requires parent in s.bodies
  {
    var pn := s.bodies[parent];
    s.(bodies := s.bodies[parent := pn.(children := pn.children + [body.id])]
                         [body.id := Node(body, state, Some(parent), [])])
  }

  /** Adding a fresh leaf keeps the tree invariant; the new leaf takes rank 0
      and every old node moves up by one. */
  lemma AddPreservesWellFormed(s: SolarSystem, body: Body, state: OrbitalState, parent: BodyId)
    requires WellFormed(s) && parent in s.bodies && body.id !in s.bodies
    ensures AddedLeaf(s, WithLeaf(s, body, state, parent), body, state, parent)
    ensures WellFormed(WithLeaf(s, body, state, parent))
  {
    AddShapesLeaf(s, body, state, parent);
    AddKeepsLinks(s, body, state, parent);
    AddKeepsRanks(s, body, state, parent);
  }

  /** The ranks of the grown tree: the new leaf takes rank 0 and every old
      node moves up by one. */
  lemma AddKeepsRanks(s: SolarSystem, body: Body, state: OrbitalState, parent: BodyId)
    requires WellFormed(s) && parent in s.bodies && body.id !in s.bodies
    ensures exists rank :: Ranked(WithLeaf(s, body, state, parent), rank)
  {
    var r := WithLeaf(s, body, state, parent);
    var rank := Rank(s);
    var rank' := map k | k in r.bodies :: if k == body.id then 0 else rank[k] + 1;
    assert rank'.Keys == r.bodies.Keys;
    assert Ranked(r, rank');
  }

  lemma AddShapesLeaf(s: SolarSystem, body: Body, state: OrbitalState, parent: BodyId)
    requires parent in s.bodies && body.id !in s.bodies
    ensures AddedLeaf(s, WithLeaf(s, body, state, parent), body, state, parent)
  {
    var r := WithLeaf(s, body, state, parent);
    assert r.bodies.Keys == s.bodies.Keys + {body.id} by {
      forall k | k in r.bodies.Keys ensures k in s.bodies.Keys + {body.id} { }
    }
    forall k | k in s.bodies && k != parent
      ensures r.bodies[k] == s.bodies[k]
    {
      assert k != body.id;
    }
  }

  lemma AddKeepsLinks(s: SolarSystem, body: Body, state: OrbitalState, parent: BodyId)
    requires WellFormed(s) && parent in s.bodies && body.id !in s.bodies
    ensures Linked(WithLeaf(s, body, state, parent))
  {
    var r := WithLeaf(s, body, state, parent);
    var id := body.id;
    forall k | k in r.bodies && k != r.root
      ensures ParentListsChild(r, k)
    {
      if k != id {
        assert ParentListsChild(s, k);
      }
    }
    forall k | k in r.bodies
      ensures ChildrenPointBack(r, k)
    {
      if k == parent {
        assert ChildrenPointBack(s, k);
        NoDuplicatesAppend(s.bodies[k].children, [id]);
      } else if k != id {
        assert ChildrenPointBack(s, k);
      }
    }
  }

  /** The vector overload of `addBody`: derives the state from the relative
      position and velocity against the parent's mass, then adds as above. */
  function AddBodyFromVectors(s: SolarSystem, body: Body, position: Vector3D, velocity: Vector3D,
                              parent: BodyId): (r: Result<SolarSystem, Error>)
    requires WellFormed(s)
    ensures r.Success? <==> parent in s.bodies && body.id !in s.bodies
    ensures parent !in s.bodies ==> r == Failure(UnknownBody)
    ensures parent in s.bodies && body.id in s.bodies ==> r == Failure(DuplicateBody)
    ensures r.Success? ==> WellFormed(r.value)
    ensures r.Success? ==> body.id in r.value.bodies
    ensures r.Success? ==> var st := r.value.bodies[body.id].state;
              st.position == position && st.velocity == velocity
              && st.parentMass == s.bodies[parent].body.mass
    ensures r.Success? ==>
              AddedLeaf(s, r.value, body, FromVectors(position, velocity, s.bodies[parent].body.mass), parent)
  {
    if parent !in s.bodies then Failure(UnknownBody)
    else AddBody(s, body, FromVectors(position, velocity, s.bodies[parent].body.mass), parent)
  }

  /** `addBody` as written: the parent's child list grows before
      `map::emplace` discards an identity already present, leaving the
      child list pointing at a node that was never stored. */
  function AddBodyAsWritten(s: SolarSystem, body: Body, state: OrbitalState, parent: BodyId): (r: Result<SolarSystem, Error>)
    requires WellFormed(s)
    ensures r.Success? <==> parent in s.bodies
    ensures r.Success? ==> parent in r.value.bodies && body.id in r.value.bodies[parent].children
  {
    if parent !in s.bodies then Failure(UnknownBody)
    else
      var pn := s.bodies[parent];
      var linked := s.bodies[parent := pn.(children := pn.children + [body.id])];
      if body.id in s.bodies then Success(s.(bodies := linked))
      else Success(s.(bodies := linked[body.id := Node(body, state, Some(parent), [])]))
  }

  /** With a fresh identity, `addBody` as written is the intended operation. */
  lemma AddAsWrittenAgreesOnFreshId(s: SolarSystem, body: Body, state: OrbitalState, parent: BodyId)
    requires WellFormed(s) && body.id !in s.bodies
    ensures AddBodyAsWritten(s, body, state, parent) == AddBody(s, body, state, parent)
  {
  }

  /** Counterexample for the duplicate insertion: adding a second body under
      the root's own identity succeeds as written and breaks the tree (the
      root lists itself as a child), where the intended operation refuses. */
  lemma AddAsWrittenBreaksTree(root: Body, other: Body, state: OrbitalState)
    requires other.id == root.id
    ensures AddBodyAsWritten(NewSystem(root), other, state, root.id).Success?
    ensures !Linked(AddBodyAsWritten(NewSystem(root), other, state, root.id).value)
    ensures AddBody(NewSystem(root), other, state, root.id) == Failure(DuplicateBody)
  {
    var r := AddBodyAsWritten(NewSystem(root), other, state, root.id).value;
    assert root.id in r.bodies[root.id].children;
    assert !ChildrenPointBack(r, root.id);
  }

  /** Adding a leaf moves no existing body. */
  lemma {:induction false} AddKeepsAbsolute(s: SolarSystem, body: Body, state: OrbitalState, parent: BodyId, b: BodyId)
    requires WellFormed(s) && parent in s.bodies && body.id !in s.bodies
    requires b in s.bodies
    ensures var r := AddBody(s, body, state, parent).value;
            AbsPosition(r, b) == AbsPosition(s, b) && AbsVelocity(r, b) == AbsVelocity(s, b)
    decreases Rank(s)[s.root] - Rank(s)[b]
  {
    var r := AddBody(s, body, state, parent).value;
    if b != s.root {
      AddKeepsAbsolute(s, body, state, parent, ParentOf(s, b));
      assert ParentOf(r, b) == ParentOf(s, b);
    }
  }

  /** The new body sits at its parent's absolute position and velocity plus
      its own relative ones. */
  lemma AddPlacesLeaf(s: SolarSystem, body: Body, state: OrbitalState, parent: BodyId)
    requires WellFormed(s) && parent in s.bodies && body.id !in s.bodies
    ensures var r := AddBody(s, body, state, parent).value;
            && AbsPosition(r, body.id) == Plus(AbsPosition(s, parent), state.position)
            && AbsVelocity(r, body.id) == Plus(AbsVelocity(s, parent), state.velocity)
  {
    var r := AddBody(s, body, state, parent).value;
    AddKeepsAbsolute(s, body, state, parent, parent);
    assert ParentOf(r, body.id) == parent;
  }

  /** A child of a removed node, re-expressed against the removed node's
      parent p: its relative position and velocity absorb the removed node's,
      and its state is rebuilt against p's mass. */
  function Reparent(c: Node, removed: Node, p: BodyId, mass: real): (r: Node)
    ensures r.body == c.body && r.children == c.children && r.parent == Some(p)
    ensures r.state.position == Plus(removed.state.position, c.state.position)
    ensures r.state.velocity == Plus(removed.state.velocity, c.state.velocity)
  {
    c.(state := FromVectors(Plus(removed.state.position, c.state.position),
                            Plus(removed.state.velocity, c.state.velocity), mass),
       parent := Some(p))
  }

  /** The system without the non-root node id: its children move to its
      parent, after the parent's other children. */
  function Splice(s: SolarSystem, id: BodyId): SolarSystem
    requires Linked(s) && id in s.bodies && id != s.root
  {
    var n := s.bodies[id];
    var p := ParentOf(s, id);
    var pn := s.bodies[p];
    s.(bodies := map k | k in s.bodies && k != id ::
         if k == p then pn.(children := Without(pn.children, id) + n.children)
         else if k in n.children then Reparent(s.bodies[k], n, p, pn.body.mass)
         else s.bodies[k])
  }

  /** `removeBody(id)` as intended: an unknown identity fails, the root
      cannot be removed, and otherwise the node leaves the tree, its
      children are handed to its parent, and no other body changes. */
  function RemoveBody(s: SolarSystem, id: BodyId): (r: Result<SolarSystem, Error>)
    requires WellFormed(s)
    ensures id !in s.bodies ==> r == Failure(UnknownBody)
    ensures id == s.root ==> r == Failure(InvalidOperation)
    ensures r.Success? <==> id in s.bodies && id != s.root
    ensures r.Success? ==> WellFormed(r.value) && Spliced(s, r.value, id)
  {
    if id !in s.bodies then Failure(UnknownBody)
    else if id == s.root then Failure(InvalidOperation)
    else
      RemoveKeepsLinks(s, id);
      RemoveKeepsRanks(s, id);
      SpliceShape(s, id);
      Success(Splice(s, id))
  }

  /** r is s without id: one entry fewer and the same root and clock.  id's
      parent p lists its other children in their old order followed by id's
      children; each of those children points at p and absorbs id's relative
      position and velocity (`Reparent`); every other node is unchanged. */
  predicate Spliced(s: SolarSystem, r: SolarSystem, id: BodyId)
    requires id in s.bodies
  {
    && r.time == s.time && r.root == s.root
    && r.bodies.Keys == s.bodies.Keys - {id}
    && s.bodies[id].parent.Some? && s.bodies[id].parent.value in r.bodies
    && var n := s.bodies[id];
       var p := n.parent.value;
       var pn := s.bodies[p];
       && r.bodies[p] == pn.(children := Without(pn.children, id) + n.children)
       && (forall c :: c in n.children ==>
             c in r.bodies && r.bodies[c] == Reparent(s.bodies[c], n, p, pn.body.mass))
       && (forall k :: k in r.bodies && k != p && k !in n.children ==> r.bodies[k] == s.bodies[k])
  }

  lemma SpliceShape(s: SolarSystem, id: BodyId)
    requires WellFormed(s) && id in s.bodies && id != s.root
    ensures Spliced(s, Splice(s, id), id)
  {
    var r := Splice(s, id);
    RemoveNeighbourhood(s, id);
    assert r.bodies.Keys == s.bodies.Keys - {id} by {
      forall k | k in s.bodies.Keys - {id} ensures k in r.bodies.Keys { }
    }
  }

  /** Facts about the neighbourhood of a removed node that follow from the ranks. */
  lemma RemoveNeighbourhood(s: SolarSystem, id: BodyId)
    requires WellFormed(s) && id in s.bodies && id != s.root
    ensures var p := ParentOf(s, id); var n := s.bodies[id];
            && s.bodies[id].parent == Some(p) && p != id && p !in n.children && id !in n.children
            && (forall c :: c in n.children ==>
                  c in s.bodies && s.bodies[c].parent == Some(id) && Rank(s)[c] < Rank(s)[id])
            && (p != s.root ==> ParentOf(s, p) != id && ParentOf(s, p) !in n.children && ParentOf(s, p) != p)
  {
    var p := ParentOf(s, id);
    var n := s.bodies[id];
    var rank := Rank(s);
    assert ChildrenPointBack(s, id);
    assert ParentListsChild(s, id);
    if p != s.root {
      var q := ParentOf(s, p);
      assert rank[p] < rank[q];
    }
  }

  lemma RemoveKeepsLinks(s: SolarSystem, id: BodyId)
    requires WellFormed(s) && id in s.bodies && id != s.root
    ensures Linked(Splice(s, id))
  {
    var r := Splice(s, id);
    RemoveNeighbourhood(s, id);
    forall k | k in r.bodies && k != r.root
      ensures ParentListsChild(r, k)
    {
      RemoveKeepsParent(s, id, k);
    }
    forall k | k in r.bodies
      ensures ChildrenPointBack(r, k)
    {
      RemoveKeepsChildren(s, id, k);
    }
  }

  lemma RemoveKeepsParent(s: SolarSystem, id: BodyId, k: BodyId)
    requires WellFormed(s) && id in s.bodies && id != s.root
    requires k in s.bodies && k != id && k != s.root
    ensures k in Splice(s, id).bodies && ParentListsChild(Splice(s, id), k)
  {
    var n := s.bodies[id];
    var p := ParentOf(s, id);
    RemoveNeighbourhood(s, id);
    assert ParentListsChild(s, k);
    assert ChildrenPointBack(s, id);
    var q := ParentOf(s, k);
    if k in n.children {
    } else if k == p {
    } else {
      assert q != id;
    }
  }

  lemma RemoveKeepsChildren(s: SolarSystem, id: BodyId, k: BodyId)
    requires WellFormed(s) && id in s.bodies && id != s.root
    requires k in s.bodies && k != id
    ensures k in Splice(s, id).bodies && ChildrenPointBack(Splice(s, id), k)
  {
    var r := Splice(s, id);
    var n := s.bodies[id];
    var p := ParentOf(s, id);
    var rank := Rank(s);
    RemoveNeighbourhood(s, id);
    assert ChildrenPointBack(s, k);
    if k == p {
      var cp := s.bodies[p].children;
      WithoutKeepsDistinct(cp, id);
      NoDuplicatesAppend(Without(cp, id), n.children);
      forall c | c in Without(cp, id)
        ensures c in r.bodies && r.bodies[c].parent == Some(p)
      {
        assert rank[c] < rank[p];
      }
    } else if k in n.children {
      forall c | c in s.bodies[k].children
        ensures c in r.bodies && r.bodies[c].parent == Some(k)
      {
        assert rank[c] < rank[k];
      }
    }
  }

  lemma RemoveKeepsRanks(s: SolarSystem, id: BodyId)
    requires WellFormed(s) && id in s.bodies && id != s.root
    ensures exists rank :: Ranked(Splice(s, id), rank)
  {
    var r := Splice(s, id);
    var rank := Rank(s);
    RemoveNeighbourhood(s, id);
    var rank' := map k | k in r.bodies :: rank[k];
    assert Ranked(r, rank');
  }

  /** Removing a body moves no other body: each remaining one keeps its
      absolute position and velocity, the orphaned children included, since
      their new relative vectors absorb the removed node's. */
  lemma {:induction false} RemoveKeepsAbsolute(s: SolarSystem, id: BodyId, b: BodyId)
    requires WellFormed(s) && id in s.bodies && id != s.root
    requires b in s.bodies && b != id
    ensures var r := RemoveBody(s, id).value;
            b in r.bodies && AbsPosition(r, b) == AbsPosition(s, b) && AbsVelocity(r, b) == AbsVelocity(s, b)
    decreases Rank(s)[s.root] - Rank(s)[b]
  {
    var r := RemoveBody(s, id).value;
    var n := s.bodies[id];
    var p := ParentOf(s, id);
    RemoveNeighbourhood(s, id);
    if b == s.root {
      ParentlessIsRoot(s, b);
      assert b !in n.children;
    } else if b in n.children {
      assert ParentOf(r, b) == p;
      assert ParentOf(s, b) == id;
      RemoveKeepsAbsolute(s, id, p);
      PlusAssociative(AbsPosition(s, p), n.state.position, s.bodies[b].state.position);
      PlusAssociative(AbsVelocity(s, p), n.state.velocity, s.bodies[b].state.velocity);
    } else {
      var q := ParentOf(s, b);
      assert q != id by { assert ChildrenPointBack(s, id); }
      assert ParentOf(r, b) == q;
      RemoveKeepsAbsolute(s, id, q);
    }
  }

  /** `removeBody` as written.  The guard is inverted: every non-root body is
      refused with "Remove root".  The root passes it; when it has children
      the loop dereferences its null parent, and when it has none it is
      erased, leaving a system without a root. */
  function RemoveBodyAsWritten(s: SolarSystem, id: BodyId): (r: Result<SolarSystem, Error>)
    requires Linked(s)
    ensures id !in s.bodies ==> r == Failure(UnknownBody)
    ensures id in s.bodies && id != s.root ==> r == Failure(InvalidOperation)
    ensures r.Success? ==> id == s.root && s.root !in r.value.bodies
  {
    if id !in s.bodies then Failure(UnknownBody)
    else if s.bodies[id].parent.Some? then Failure(InvalidOperation)
    else if |s.bodies[id].children| > 0 then Failure(NullParent)
    else Success(s.(bodies := s.bodies - {id}))
  }

  /** Counterexample for the inverted guard: in a system with a body below the
      root, removing that body fails as written but succeeds as intended, and
      removing the lone root of a fresh system succeeds as written and leaves
      a system that is not well formed.  The loop behind the guard is wrong
      too; `RemoveLoopLeavesDangling` shows it. */
  lemma RemoveAsWrittenInverted(root: Body, moon: Body, state: OrbitalState)
    requires moon.id != root.id
    ensures var s := AddBody(NewSystem(root), moon, state, root.id).value;
            && RemoveBodyAsWritten(s, moon.id) == Failure(InvalidOperation)
            && RemoveBody(s, moon.id).Success?
            && RemoveBodyAsWritten(s, root.id) == Failure(NullParent)
    ensures RemoveBodyAsWritten(NewSystem(root), root.id).Success?
    ensures !WellFormed(RemoveBodyAsWritten(NewSystem(root), root.id).value)
    ensures RemoveBody(NewSystem(root), root.id) == Failure(InvalidOperation)
  {
    var s := AddBody(NewSystem(root), moon, state, root.id).value;
    assert s.bodies[moon.id].parent == Some(root.id);
    assert moon.id in s.bodies[root.id].children;
  }

  /** The loop and erase of `removeBody` as written, on a node that has a
      parent, which is what the code would do once its guard is corrected.
      Each child's state is rebuilt against the grandparent and the child is
      appended to the grandparent's children, but the child still points at
      the removed node and the grandparent still lists it, so the links
      break whatever the node's children. */
  function RemoveLoopAsWritten(s: SolarSystem, id: BodyId): (r: SolarSystem)
    requires WellFormed(s) && id in s.bodies && id != s.root
    ensures r.bodies.Keys == s.bodies.Keys - {id}
    ensures var p := ParentOf(s, id);
            p in r.bodies && id in r.bodies[p].children
            && forall c :: c in s.bodies[id].children ==> c in r.bodies[p].children
    ensures forall c :: c in s.bodies[id].children ==>
              && c in r.bodies && r.bodies[c].parent == Some(id)
              && r.bodies[c].state.position == Plus(s.bodies[id].state.position, s.bodies[c].state.position)
              && r.bodies[c].state.velocity == Plus(s.bodies[id].state.velocity, s.bodies[c].state.velocity)
    ensures !Linked(r)
  {
    var n := s.bodies[id];
    var p := ParentOf(s, id);
    var pn := s.bodies[p];
    RemoveNeighbourhood(s, id);
    var r := s.(bodies := map k | k in s.bodies && k != id ::
                  if k == p then pn.(children := pn.children + n.children)
                  else if k in n.children then
                    s.bodies[k].(state := FromVectors(Plus(n.state.position, s.bodies[k].state.position),
                                                      Plus(n.state.velocity, s.bodies[k].state.velocity),
                                                      pn.body.mass))
                  else s.bodies[k]);
    assert r.bodies[p].children == pn.children + n.children;
    assert id in r.bodies[p].children && id !in r.bodies;
    assert !ChildrenPointBack(r, p);
    r
  }

  /** Counterexample for the loop: with the Moon under the Earth under the
      Sun, removing the Earth with the loop as written leaves the Moon
      pointing at the erased Earth and the Sun still listing it, where the
      intended operation hands the Moon to the Sun and keeps the tree well
      formed. */
  lemma RemoveLoopLeavesDangling(sun: Body, earth: Body, moon: Body, earthState: OrbitalState, moonState: OrbitalState)
    requires sun.id != earth.id && sun.id != moon.id && earth.id != moon.id
    ensures var s1 := AddBody(NewSystem(sun), earth, earthState, sun.id).value;
            var s := AddBody(s1, moon, moonState, earth.id).value;
            var r := RemoveLoopAsWritten(s, earth.id);
            && earth.id !in r.bodies && earth.id in r.bodies[sun.id].children
            && r.bodies[moon.id].parent == Some(earth.id) && !Linked(r)
            && RemoveBody(s, earth.id).Success?
            && RemoveBody(s, earth.id).value.bodies[moon.id].parent == Some(sun.id)
  {
    var s1 := AddBody(NewSystem(sun), earth, earthState, sun.id).value;
    var s := AddBody(s1, moon, moonState, earth.id).value;
    assert s.bodies[earth.id].parent == Some(sun.id);
    assert moon.id in s.bodies[earth.id].children;
    assert ParentOf(s, earth.id) == sun.id;
  }
}
