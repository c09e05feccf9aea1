/**
 The listing of every body with its position relative to one chosen body,
 from `SolarSystem::getRelativeTo` and its helper `getTreeRelativeTo`.

 The listing starts with the chosen body's own subtree, then climbs towards
 the root: at each step it adds the parent (at minus the accumulated origin)
 and the subtrees of the parent's other children.  Every body appears once,
 at its absolute position minus the chosen body's.
 */
module RelativeTo {
  import opened Vector
  import opened Results
  import opened Bodies
  import opened SolarSystems

  /** A body paired with its offset from the chosen body. */
  datatype Entry = Entry(body: Body, offset: Vector3D)

  /** The identities listed, in order. */
  function Ids(es: seq<Entry>): (r: seq<BodyId>)
    ensures |r| == |es|
    ensures forall i :: 0 <= i < |es| ==> r[i] == es[i].body.id
  {
    seq(|es|, i requires 0 <= i < |es| => es[i].body.id)
  }

  lemma IdsAppend(a: seq<Entry>, b: seq<Entry>)
    ensures Ids(a + b) == Ids(a) + Ids(b)
  {
    assert forall i :: 0 <= i < |a + b| ==> Ids(a + b)[i] == (Ids(a) + Ids(b))[i];
  }

  /** Every entry holds the stored body of a known identity, and an offset
      with an exact cache equal to the body's absolute position shifted by
      (dx, dy, dz). */
  ghost predicate Placed(s: SolarSystem, es: seq<Entry>, dx: real, dy: real, dz: real)
    requires WellFormed(s)
  {
    forall i :: 0 <= i < |es| ==>
      && es[i].body.id in s.bodies
      && es[i].body == s.bodies[es[i].body.id].body
      && Valid(es[i].offset)
      && es[i].offset.x == AbsPosition(s, es[i].body.id).x + dx
      && es[i].offset.y == AbsPosition(s, es[i].body.id).y + dy
      && es[i].offset.z == AbsPosition(s, es[i].body.id).z + dz
  }

  lemma PlacedAppend(s: SolarSystem, a: seq<Entry>, b: seq<Entry>, dx: real, dy: real, dz: real)
    requires WellFormed(s) && Placed(s, a, dx, dy, dz) && Placed(s, b, dx, dy, dz)
    ensures Placed(s, a + b, dx, dy, dz)
  {
    forall i | 0 <= i < |a + b|
      ensures (a + b)[i] == (if i < |a| then a[i] else b[i - |a|])
    {
    }
  }

  /** `getTreeRelativeTo(origin, node)`: the node at its own relative
      position plus origin, then each child's subtree against that offset,
      in child order. */
  function TreeRelativeTo(s: SolarSystem, origin: Vector3D, id: BodyId): (r: seq<Entry>)
    requires WellFormed(s) && id in s.bodies
    ensures |r| > 0 && r[0].body == s.bodies[id].body
    decreases Rank(s)[id], 1, 0
  {
    var offset := Plus(s.bodies[id].state.position, origin);
    [Entry(s.bodies[id].body, offset)] + ChildTrees(s, offset, id, s.bodies[id].children)
  }

  /** The subtrees of the children cs of p, one after the other, each against origin. */
  function ChildTrees(s: SolarSystem, origin: Vector3D, p: BodyId, cs: seq<BodyId>): (r: seq<Entry>)
    requires WellFormed(s) && p in s.bodies
    requires forall c :: c in cs ==> c in s.bodies[p].children
    ensures |r| >= |cs|
    ensures |cs| > 0 ==> cs[0] in s.bodies && r[0].body == s.bodies[cs[0]].body
    decreases Rank(s)[p], 0, |cs|
  {
    if |cs| == 0 then []
    else
      ChildRanksLower(s, p, cs[0]);
      TreeRelativeTo(s, origin, cs[0]) + ChildTrees(s, origin, p, cs[1..])
  }

  /** The walk over a node's subtree lists exactly that subtree, each body
      once, each at its absolute position shifted by origin + position(id) -
      absolute(id). */
  lemma {:induction false} TreeRelativeToSpec(s: SolarSystem, origin: Vector3D, id: BodyId)
    requires WellFormed(s) && id in s.bodies
    ensures forall b :: b in Ids(TreeRelativeTo(s, origin, id)) <==> b in Subtree(s, id)
    ensures NoDuplicates(Ids(TreeRelativeTo(s, origin, id)))
    ensures var pos := s.bodies[id].state.position; var abs := AbsPosition(s, id);
            Placed(s, TreeRelativeTo(s, origin, id),
                   origin.x + pos.x - abs.x, origin.y + pos.y - abs.y, origin.z + pos.z - abs.z)
    decreases Rank(s)[id], 1, 0
  {
    var n := s.bodies[id];
    var pos := n.state.position;
    var abs := AbsPosition(s, id);
    var offset := Plus(pos, origin);
    var head := [Entry(n.body, offset)];
    var rest := ChildTrees(s, offset, id, n.children);
    assert ChildrenPointBack(s, id);
    ChildTreesSpec(s, offset, id, n.children);
    SubtreeSplits(s, id);
    IdsAppend(head, rest);
    assert Ids(head) == [id];
    NoDuplicatesAppend(Ids(head), Ids(rest));
    if id != s.root {
      ParentlessIsRoot(s, id);
    }
    assert Placed(s, head, origin.x + pos.x - abs.x, origin.y + pos.y - abs.y, origin.z + pos.z - abs.z);
    PlacedAppend(s, head, rest, origin.x + pos.x - abs.x, origin.y + pos.y - abs.y, origin.z + pos.z - abs.z);
  }

  /** The walk over some distinct children of p lists exactly their subtrees,
      each body once, each at its absolute position shifted by origin -
      absolute(p). */
  lemma {:induction false} ChildTreesSpec(s: SolarSystem, origin: Vector3D, p: BodyId, cs: seq<BodyId>)
    requires WellFormed(s) && p in s.bodies
    requires forall c :: c in cs ==> c in s.bodies[p].children
    requires NoDuplicates(cs)
    ensures forall b :: b in Ids(ChildTrees(s, origin, p, cs)) <==>
              exists c :: c in cs && b in Subtree(s, c)
    ensures NoDuplicates(Ids(ChildTrees(s, origin, p, cs)))
    ensures var abs := AbsPosition(s, p);
            Placed(s, ChildTrees(s, origin, p, cs), origin.x - abs.x, origin.y - abs.y, origin.z - abs.z)
    decreases Rank(s)[p], 0, |cs|
  {
    if |cs| > 0 {
      var c := cs[0];
      var abs := AbsPosition(s, p);
      assert ChildrenPointBack(s, p);
      assert Rank(s)[c] < Rank(s)[p];
      var first := TreeRelativeTo(s, origin, c);
      var rest := ChildTrees(s, origin, p, cs[1..]);
      TreeRelativeToSpec(s, origin, c);
      assert NoDuplicates(cs[1..]);
      ChildTreesSpec(s, origin, p, cs[1..]);
      IdsAppend(first, rest);
      SubtreeSplits(s, p);
      forall c' | c' in cs[1..]
        ensures c' != c && Subtree(s, c) !! Subtree(s, c')
      {
      }
      NoDuplicatesAppend(Ids(first), Ids(rest));
      ParentlessIsRoot(s, c);
      assert ParentOf(s, c) == p;
      PlacedAppend(s, first, rest, origin.x - abs.x, origin.y - abs.y, origin.z - abs.z);
    }
  }

  /** The walk over a concatenation of children is the concatenation of the walks. */
  lemma {:induction false} ChildTreesAppend(s: SolarSystem, origin: Vector3D, p: BodyId, a: seq<BodyId>, b: seq<BodyId>)
    requires WellFormed(s) && p in s.bodies
    requires forall c :: c in a + b ==> c in s.bodies[p].children
    ensures ChildTrees(s, origin, p, a + b) == ChildTrees(s, origin, p, a) + ChildTrees(s, origin, p, b)
  {
    if |a| > 0 {
      assert (a + b)[0] == a[0];
      assert (a + b)[1..] == a[1..] + b;
      ChildTreesAppend(s, origin, p, a[1..], b);
    } else {
      assert a + b == b;
    }
  }

  /** The state of `getRelativeTo` when it has covered the subtree of node:
      the list holds that subtree once, every offset is taken from the
      absolute position a, and origin is a minus the absolute position of
      node's parent. */
  ghost predicate Covers(s: SolarSystem, a: Vector3D, node: BodyId, origin: Vector3D, list: seq<Entry>)
    requires WellFormed(s)
  {
    && node in s.bodies
    && (forall b :: b in Ids(list) <==> b in Subtree(s, node))
    && NoDuplicates(Ids(list))
    && Placed(s, list, -a.x, -a.y, -a.z)
    && var pos := s.bodies[node].state.position; var abs := AbsPosition(s, node);
       origin.x == a.x - abs.x + pos.x && origin.y == a.y - abs.y + pos.y && origin.z == a.z - abs.z + pos.z
  }

  /** The walk below id starts the cover: it covers id's subtree with
      offsets from id's absolute position. */
  lemma CoverStarts(s: SolarSystem, id: BodyId)
    requires WellFormed(s) && id in s.bodies
    ensures var origin := s.bodies[id].state.position;
            Covers(s, AbsPosition(s, id), id, origin, TreeRelativeTo(s, Negate(origin), id))
  {
    var origin := s.bodies[id].state.position;
    var a := AbsPosition(s, id);
    var list := TreeRelativeTo(s, Negate(origin), id);
    var n := Negate(origin);
    assert (forall b :: b in Ids(list) <==> b in Subtree(s, id)) && NoDuplicates(Ids(list)) by {
      TreeRelativeToSpec(s, n, id);
    }
    assert Placed(s, list, -a.x, -a.y, -a.z) by {
      TreeRelativeToSpec(s, n, id);
      assert n.x + origin.x - a.x == -a.x;
      assert n.y + origin.y - a.y == -a.y;
      assert n.z + origin.z - a.z == -a.z;
    }
  }

  /** One step up the tree: adding the parent at -origin and the subtrees of
      node's siblings against -origin covers the parent's subtree with the
      same offsets, and moving origin by the parent's position keeps it in
      step. */
  lemma ClimbStep(s: SolarSystem, a: Vector3D, node: BodyId, origin: Vector3D, list: seq<Entry>)
    requires WellFormed(s) && node != s.root && Covers(s, a, node, origin, list)
    ensures var p := ParentOf(s, node);
            var next := list + [Entry(s.bodies[p].body, Negate(origin))]
                        + ChildTrees(s, Negate(origin), p, Without(s.bodies[p].children, node));
            Covers(s, a, p, PlusAssign(origin, s.bodies[p].state.position), next)
  {
    var p := ParentOf(s, node);
    var cs := Without(s.bodies[p].children, node);
    var next := list + [Entry(s.bodies[p].body, Negate(origin))] + ChildTrees(s, Negate(origin), p, cs);
    ClimbIds(s, node, origin, list);
    ClimbPlaced(s, a, node, origin, list);
    ParentlessIsRoot(s, node);
    var abs := AbsPosition(s, p);
    var pos := s.bodies[p].state.position;
    var origin' := PlusAssign(origin, pos);
    assert AbsPosition(s, node) == Plus(abs, s.bodies[node].state.position);
    assert origin'.x == a.x - abs.x + pos.x && origin'.y == a.y - abs.y + pos.y && origin'.z == a.z - abs.z + pos.z;
  }

  /** The identities of one climbing step: node's subtree, then the parent,
      then the siblings' subtrees make up the parent's subtree, each once. */
  lemma ClimbIds(s: SolarSystem, node: BodyId, origin: Vector3D, list: seq<Entry>)
    requires WellFormed(s) && node in s.bodies && node != s.root
    requires forall b :: b in Ids(list) <==> b in Subtree(s, node)
    requires NoDuplicates(Ids(list))
    ensures var p := ParentOf(s, node);
            var next := list + [Entry(s.bodies[p].body, Negate(origin))]
                        + ChildTrees(s, Negate(origin), p, Without(s.bodies[p].children, node));
            && (forall b :: b in Ids(next) <==> b in Subtree(s, p))
            && NoDuplicates(Ids(next))
  {
    var p := ParentOf(s, node);
    var up := [Entry(s.bodies[p].body, Negate(origin))];
    var cs := Without(s.bodies[p].children, node);
    var sib := ChildTrees(s, Negate(origin), p, cs);
    assert ChildrenPointBack(s, p);
    WithoutKeepsDistinct(s.bodies[p].children, node);
    ChildTreesSpec(s, Negate(origin), p, cs);
    SubtreeSplits(s, p);
    IdsAppend(list, up);
    IdsAppend(list + up, sib);
    assert Ids(up) == [p];
    NoDuplicatesAppend(Ids(list), Ids(up));
    forall c | c in cs
      ensures Subtree(s, node) !! Subtree(s, c) && p !in Subtree(s, c)
    {
    }
    NoDuplicatesAppend(Ids(list) + Ids(up), Ids(sib));
  }

  /** The offsets of one climbing step: the parent at -origin and the
      siblings' subtrees against -origin are all taken from a. */
  lemma ClimbPlaced(s: SolarSystem, a: Vector3D, node: BodyId, origin: Vector3D, list: seq<Entry>)
    requires WellFormed(s) && node != s.root && Covers(s, a, node, origin, list)
    ensures var p := ParentOf(s, node);
            var next := list + [Entry(s.bodies[p].body, Negate(origin))]
                        + ChildTrees(s, Negate(origin), p, Without(s.bodies[p].children, node));
            Placed(s, next, -a.x, -a.y, -a.z)
  {
    var p := ParentOf(s, node);
    var abs := AbsPosition(s, p);
    var up := [Entry(s.bodies[p].body, Negate(origin))];
    var cs := Without(s.bodies[p].children, node);
    var sib := ChildTrees(s, Negate(origin), p, cs);
    assert ChildrenPointBack(s, p);
    WithoutKeepsDistinct(s.bodies[p].children, node);
    ChildTreesSpec(s, Negate(origin), p, cs);
    ParentlessIsRoot(s, node);
    assert AbsPosition(s, node) == Plus(abs, s.bodies[node].state.position);
    assert Placed(s, up, -a.x, -a.y, -a.z);
    PlacedAppend(s, list, up, -a.x, -a.y, -a.z);
    assert Negate(origin).x - abs.x == -a.x && Negate(origin).y - abs.y == -a.y && Negate(origin).z - abs.z == -a.z;
    PlacedAppend(s, list + up, sib, -a.x, -a.y, -a.z);
  }

  /** Distinct elements: a duplicate-free list is as long as the set of its elements. */
  lemma {:induction false} DistinctCount(xs: seq<BodyId>)
    requires NoDuplicates(xs)
    ensures |set x | x in xs| == |xs|
  {
    if |xs| > 0 {
      assert NoDuplicates(xs[1..]);
      DistinctCount(xs[1..]);
      assert (set x | x in xs) == (set x | x in xs[1..]) + {xs[0]};
      assert xs[0] !in xs[1..];
    }
  }

  /** The loop of `getRelativeTo` over the children of p: the subtree of
      every child except node, in child order, each against origin. */
  method SiblingTrees(s: SolarSystem, origin: Vector3D, p: BodyId, node: BodyId) returns (es: seq<Entry>)
    requires WellFormed(s) && p in s.bodies
    ensures es == ChildTrees(s, origin, p, Without(s.bodies[p].children, node))
  {
    var siblings := s.bodies[p].children;
    es := [];
    var i := 0;
    while i < |siblings|
      invariant 0 <= i <= |siblings|
      invariant es == ChildTrees(s, origin, p, Without(siblings[..i], node))
    {
      SiblingStep(s, origin, p, node, i);
      if siblings[i] != node {
        es := es + TreeRelativeTo(s, origin, siblings[i]);
      }
      i := i + 1;
    }
    assert siblings[..|siblings|] == siblings;
  }

  /** The walk over the first i + 1 children of p, node skipped, extends the
      walk over the first i by child i's subtree unless child i is node. */
  lemma SiblingStep(s: SolarSystem, origin: Vector3D, p: BodyId, node: BodyId, i: nat)
    requires WellFormed(s) && p in s.bodies && i < |s.bodies[p].children|
    ensures var cs := s.bodies[p].children;
            cs[i] in s.bodies
            && ChildTrees(s, origin, p, Without(cs[..i + 1], node))
               == ChildTrees(s, origin, p, Without(cs[..i], node))
                  + (if cs[i] != node then TreeRelativeTo(s, origin, cs[i]) else [])
  {
    var cs := s.bodies[p].children;
    assert cs[..i + 1] == cs[..i] + [cs[i]];
    WithoutAppend(cs[..i], [cs[i]], node);
    ChildTreesAppend(s, origin, p, Without(cs[..i], node), Without([cs[i]], node));
    ChildRanksLower(s, p, cs[i]);
    if cs[i] != node {
      assert Without([cs[i]], node) == [cs[i]];
      assert ChildTrees(s, origin, p, [cs[i]]) == TreeRelativeTo(s, origin, cs[i]);
    } else {
      assert Without([cs[i]], node) == [];
    }
  }

  /** es lists every body of s exactly once: as many distinct identities as
      there are bodies, all of them known (see `EveryBodyListed`). */
  ghost predicate ListsEachOnce(s: SolarSystem, es: seq<Entry>) {
    && |es| == |s.bodies|
    && NoDuplicates(Ids(es))
    && (forall i :: 0 <= i < |es| ==> es[i].body.id in s.bodies)
  }

  /** Every entry of es holds the stored body record and its absolute
      position minus that of id. */
  ghost predicate OffsetsFrom(s: SolarSystem, id: BodyId, es: seq<Entry>)
    requires WellFormed(s) && id in s.bodies
  {
    forall i :: 0 <= i < |es| ==>
      && es[i].body.id in s.bodies
      && es[i].body == s.bodies[es[i].body.id].body
      && es[i].offset == Minus(AbsPosition(s, es[i].body.id), AbsPosition(s, id))
  }

  /** The listing `getRelativeTo(id)` promises. */
  ghost predicate ListsAllRelativeTo(s: SolarSystem, id: BodyId, es: seq<Entry>)
    requires WellFormed(s) && id in s.bodies
  {
    ListsEachOnce(s, es) && OffsetsFrom(s, id, es)
  }

  /** Once the climb reaches the root, the list covers every body exactly
      once, and each offset is the body's absolute position minus id's. */
  /** The entries `getRelativeTo` still appends once it has covered the
      subtree of node with the given origin: the parent at -origin, the
      siblings' subtrees, and so on up to the root. */
  function Remaining(s: SolarSystem, node: BodyId, origin: Vector3D): seq<Entry>
    requires WellFormed(s) && node in s.bodies
    decreases Rank(s)[s.root] - Rank(s)[node]
  {
    if node == s.root then []
    else
      var p := ParentOf(s, node);
      [Entry(s.bodies[p].body, Negate(origin))]
      + ChildTrees(s, Negate(origin), p, Without(s.bodies[p].children, node))
      + Remaining(s, p, PlusAssign(origin, s.bodies[p].state.position))
  }

  /** Whatever remains to be appended completes a cover into the full listing. */
  lemma {:induction false} RemainingCompletes(s: SolarSystem, id: BodyId, node: BodyId, origin: Vector3D, list: seq<Entry>)
    requires WellFormed(s) && id in s.bodies
    requires Covers(s, AbsPosition(s, id), node, origin, list)
    ensures ListsAllRelativeTo(s, id, list + Remaining(s, node, origin))
    decreases Rank(s)[s.root] - Rank(s)[node]
  {
    var whole := list + Remaining(s, node, origin);
    if node == s.root {
      assert whole == list;
      assert ListsAllRelativeTo(s, id, list) by {
        Completed(s, id, origin, list);
      }
    } else {
      var a := AbsPosition(s, id);
      var p := ParentOf(s, node);
      var up := [Entry(s.bodies[p].body, Negate(origin))];
      var sib := ChildTrees(s, Negate(origin), p, Without(s.bodies[p].children, node));
      var origin' := PlusAssign(origin, s.bodies[p].state.position);
      var rest := Remaining(s, p, origin');
      assert ListsAllRelativeTo(s, id, list + up + sib + rest) by {
        ClimbStep(s, a, node, origin, list);
        RemainingCompletes(s, id, p, origin', list + up + sib);
      }
      assert whole == list + up + sib + rest by {
        assert Remaining(s, node, origin) == up + sib + rest;
        Regroup(list, up, sib, rest);
      }
    }
  }

  /** One step of the climb moves the parent and the siblings' subtrees
      from what remains onto the list. */
  lemma RemainingStep(s: SolarSystem, node: BodyId, origin: Vector3D, list: seq<Entry>)
    requires WellFormed(s) && node in s.bodies && node != s.root
    ensures var p := ParentOf(s, node);
            list + Remaining(s, node, origin)
            == list + [Entry(s.bodies[p].body, Negate(origin))]
               + ChildTrees(s, Negate(origin), p, Without(s.bodies[p].children, node))
               + Remaining(s, p, PlusAssign(origin, s.bodies[p].state.position))
  {
    var p := ParentOf(s, node);
    var up := [Entry(s.bodies[p].body, Negate(origin))];
    var sib := ChildTrees(s, Negate(origin), p, Without(s.bodies[p].children, node));
    var rest := Remaining(s, p, PlusAssign(origin, s.bodies[p].state.position));
    assert Remaining(s, node, origin) == up + sib + rest;
    Regroup(list, up, sib, rest);
  }

  /** Concatenation regrouped. */
  lemma Regroup(a: seq<Entry>, b: seq<Entry>, c: seq<Entry>, d: seq<Entry>)
    ensures a + (b + c + d) == a + b + c + d
  {
  }

  lemma Completed(s: SolarSystem, id: BodyId, origin: Vector3D, list: seq<Entry>)
    requires WellFormed(s) && id in s.bodies
    requires Covers(s, AbsPosition(s, id), s.root, origin, list)
    ensures ListsAllRelativeTo(s, id, list)
  {
    assert forall b :: b in Ids(list) <==> b in s.bodies by {
      RootSubtreeIsAll(s);
    }
    CoversAll(s, list);
    OffsetsFromPlaced(s, id, list);
  }

  /** A listing of every body once has every body in it. */
  lemma EveryBodyListed(s: SolarSystem, es: seq<Entry>)
    requires ListsEachOnce(s, es)
    ensures forall b :: b in s.bodies <==> b in Ids(es)
  {
    var ids := set x | x in Ids(es);
    DistinctCount(Ids(es));
    assert ids <= s.bodies.Keys;
    assert |s.bodies.Keys| == |s.bodies|;
    var missing := s.bodies.Keys - ids;
    assert s.bodies.Keys == missing + ids;
    assert missing !! ids;
    assert |missing| == 0;
    forall b | b in s.bodies
      ensures b in Ids(es)
    {
      assert b !in missing;
    }
  }

  lemma CoversAll(s: SolarSystem, list: seq<Entry>)
    requires WellFormed(s)
    requires forall b :: b in Ids(list) <==> b in s.bodies
    requires NoDuplicates(Ids(list))
    ensures ListsEachOnce(s, list)
  {
    DistinctCount(Ids(list));
    var ids := set x | x in Ids(list);
    assert ids == s.bodies.Keys by {
      forall x | x in s.bodies.Keys ensures x in ids { }
    }
    assert |s.bodies.Keys| == |s.bodies|;
  }

  lemma OffsetsFromPlaced(s: SolarSystem, id: BodyId, list: seq<Entry>)
    requires WellFormed(s) && id in s.bodies
    requires var a := AbsPosition(s, id); Placed(s, list, -a.x, -a.y, -a.z)
    ensures OffsetsFrom(s, id, list)
  {
    var a := AbsPosition(s, id);
    forall i | 0 <= i < |list|
      ensures && list[i].body.id in s.bodies
              && list[i].body == s.bodies[list[i].body.id].body
              && list[i].offset == Minus(AbsPosition(s, list[i].body.id), AbsPosition(s, id))
    {
      var e := list[i];
      var m := Minus(AbsPosition(s, e.body.id), a);
      assert Valid(e.offset) && e.offset.x == m.x && e.offset.y == m.y && e.offset.z == m.z;
      EqualIsIdentity(e.offset, m);
    }
  }

  /** `getRelativeTo(id)`: every body of the system exactly once, starting
      with id itself, each paired with its absolute position minus id's.
      An unknown identity fails, as `map::at` does. */
  method GetRelativeTo(s: SolarSystem, id: BodyId) returns (r: Result<seq<Entry>, Error>)
    requires WellFormed(s)
    ensures r.Failure? <==> id !in s.bodies
    ensures id !in s.bodies ==> r == Failure(UnknownBody)
    ensures r.Success? ==> id in s.bodies && ListsAllRelativeTo(s, id, r.value)
    ensures r.Success? ==> |r.value| > 0 && r.value[0].body.id == id
  {
    if id !in s.bodies {
      r := Failure(UnknownBody);
    } else {
      var list := ListFrom(s, id);
      r := Success(list);
    }
  }

  /** `getRelativeTo(id)` for a known id. */
  method ListFrom(s: SolarSystem, id: BodyId) returns (list: seq<Entry>)
    requires WellFormed(s) && id in s.bodies
    ensures ListsAllRelativeTo(s, id, list)
    ensures |list| > 0 && list[0].body.id == id
  {
    list := Climb(s, id);
    ClimbListsAll(s, id, list);
  }

  /** The completed walk lists every body relative to id. */
  lemma ClimbListsAll(s: SolarSystem, id: BodyId, list: seq<Entry>)
    requires WellFormed(s) && id in s.bodies
    requires var origin := s.bodies[id].state.position;
             list == TreeRelativeTo(s, Negate(origin), id) + Remaining(s, id, origin)
    ensures ListsAllRelativeTo(s, id, list)
  {
    var origin := s.bodies[id].state.position;
    CoverStarts(s, id);
    RemainingCompletes(s, id, id, origin, TreeRelativeTo(s, Negate(origin), id));
  }

  /** The walk of `getRelativeTo`: id's own subtree, then up the parent
      chain, each ancestor followed by the subtrees of its other children,
      the origin moving by each ancestor's position on the way. */
  method Climb(s: SolarSystem, id: BodyId) returns (list: seq<Entry>)
    requires WellFormed(s) && id in s.bodies
    ensures var origin := s.bodies[id].state.position;
            list == TreeRelativeTo(s, Negate(origin), id) + Remaining(s, id, origin)
    ensures |list| > 0 && list[0].body.id == id
  {
    var node := id;
    var origin := s.bodies[id].state.position;
    list := TreeRelativeTo(s, Negate(origin), node);
    ghost var full := list + Remaining(s, id, origin);
    var parent := s.bodies[node].parent;
    while parent.Some?
      invariant node in s.bodies && parent == s.bodies[node].parent
      invariant list + Remaining(s, node, origin) == full
      invariant |list| > 0 && list[0].body.id == id
      decreases Rank(s)[s.root] - Rank(s)[node]
    {
      var p := parent.value;
      ParentlessIsRoot(s, node);
      assert ParentOf(s, node) == p;
      RemainingStep(s, node, origin, list);
      var siblings := SiblingTrees(s, Negate(origin), p, node);
      list := list + [Entry(s.bodies[p].body, Negate(origin))] + siblings;
      node := p;
      parent := s.bodies[p].parent;
      origin := PlusAssign(origin, s.bodies[p].state.position);
    }
    ParentlessIsRoot(s, node);
    assert list == full;
  }

  /** In a listing relative to q, q itself sits at the zero vector and a
      child of q sits at its own relative position. */
  lemma OffsetsNearQuery(s: SolarSystem, q: BodyId, es: seq<Entry>, i: nat)
    requires WellFormed(s) && q in s.bodies && OffsetsFrom(s, q, es) && i < |es|
    ensures es[i].body.id == q ==> es[i].offset == Zero
    ensures s.bodies[es[i].body.id].parent == Some(q) ==>
              Equal(es[i].offset, s.bodies[es[i].body.id].state.position)
  {
    var b := es[i].body.id;
    var u := AbsPosition(s, q);
    assert es[i].offset == Minus(AbsPosition(s, b), u);
    if s.bodies[b].parent == Some(q) {
      ParentlessIsRoot(s, b);
      assert ParentOf(s, b) == q;
      assert AbsPosition(s, b) == Plus(u, s.bodies[b].state.position);
    }
    MinusSelf(u);
    MinusUndoesPlus(u, s.bodies[b].state.position);
  }

  /** Offsets are antisymmetric: b relative to a is the negation of a
      relative to b. */
  lemma OffsetsAntisymmetric(s: SolarSystem, a: BodyId, b: BodyId, es: seq<Entry>, fs: seq<Entry>, i: nat, j: nat)
    requires WellFormed(s) && a in s.bodies && b in s.bodies
    requires OffsetsFrom(s, a, es) && OffsetsFrom(s, b, fs)
    requires i < |es| && j < |fs| && es[i].body.id == b && fs[j].body.id == a
    ensures es[i].offset == Negate(fs[j].offset)
  {
    var u := AbsPosition(s, a);
    var v := AbsPosition(s, b);
    assert es[i].offset == Minus(v, u);
    assert fs[j].offset == Minus(u, v);
    MinusSwaps(u, v);
  }
}
