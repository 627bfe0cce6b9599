/**
 * The domain tree seen as a value: positions in it, updating a domain at a
 * position, and the facts the network's searches and its flat index are
 * specified with.
 *
 * A domain's children are reached through its map keys, the same way the
 * recursive searches of CorporateNetwork.cpp walk `getAllEntities()`; the
 * index is keyed by `getId()`, so the predicates about ids (`Occurs`,
 * `Collected`, `Covers`) look at the `id` of each node.
 */
module DomainTree {
  import opened Wrappers
  import opened Entities
  import Domain

  /** The child keys followed from a domain down to a node. */
  type Path = seq<string>

  /** The network's `allEntities`: entity id to entity. */
  type Index = map<string, Entity>

  /** The node reached by following `p` from `e`, descending only through domains. */
  function At(e: Entity, p: Path): Option<Entity>
    decreases |p|
  {
    if p == [] then Some(e)
    else if e.DomainEntity? && p[0] in e.entities then At(e.entities[p[0]], p[1..])
    else None
  }

  /**
   * `e` with the node at `p` replaced by `n`: the domains on the way keep
   * their id, administrator and other children.
   */
  function Replace(e: Entity, p: Path, n: Entity): (r: Entity)
    requires At(e, p).Some?
    ensures At(r, p) == Some(n)
    ensures p != [] ==> r.DomainEntity? && r.id == e.id && r.adminId == e.adminId
    ensures p != [] ==> r.entities.Keys == e.entities.Keys
    ensures p != [] ==> forall k :: k in e.entities && k != p[0] ==> r.entities[k] == e.entities[k]
    ensures p != [] ==> r.entities[p[0]] == Replace(e.entities[p[0]], p[1..], n)
    decreases |p|
  {
    if p == [] then n
    else
      var k := p[0];
      var r := DomainEntity(e.id, e.adminId, e.entities[k := Replace(e.entities[k], p[1..], n)]);
      assert r.entities[k] == Replace(e.entities[k], p[1..], n);
      r
  }

  /** Some node of `e` (itself included) has id `x`. */
  ghost predicate Occurs(x: string, e: Entity)
    decreases e, 1
  {
    e.id == x || OccursBelow(x, e)
  }

  /** Some node strictly below `e` has id `x`. */
  ghost predicate OccursBelow(x: string, e: Entity)
    decreases e, 0
  {
    e.DomainEntity? && exists k :: k in e.entities && Occurs(x, e.entities[k])
  }

  /** `n` is `e` or a node of one of its descendants. */
  ghost predicate IsNode(n: Entity, e: Entity)
    decreases e
  {
    n == e || (e.DomainEntity? && exists k :: k in e.entities && IsNode(n, e.entities[k]))
  }

  /** What `findDomainRecursive` looks for: `e` or a domain below it, through domains only, has id `id`. */
  ghost predicate HasDomain(e: Entity, id: string)
    decreases e
  {
    e.DomainEntity? && (e.id == id || exists k :: k in e.entities && HasDomain(e.entities[k], id))
  }

  /** What `findDomainContainingEntity` looks for: some domain in `e` finds `x` among its direct children. */
  ghost predicate HasParentOf(e: Entity, x: string)
    decreases e
  {
    e.DomainEntity? &&
    (Domain.FindChild(e.entities, x).Some? || exists k :: k in e.entities && HasParentOf(e.entities[k], x))
  }

  /** The node at `p` is a domain with id `id`. */
  ghost predicate DomainAt(e: Entity, p: Path, id: string) {
    At(e, p).Some? && At(e, p).value.DomainEntity? && At(e, p).value.id == id
  }

  /** The node at `p` is a domain that has `x` as a direct child. */
  ghost predicate ParentAt(e: Entity, p: Path, x: string) {
    At(e, p).Some? && At(e, p).value.DomainEntity? && Domain.FindChild(At(e, p).value.entities, x).Some?
  }

  /** Every entry of the index is stored under its own id. */
  ghost predicate IndexKeyed(index: Index) {
    forall x :: x in index ==> index[x].id == x
  }

  /** Every id that occurs in the tree can be found through the index. */
  ghost predicate Covers(root: Entity, index: Index) {
    forall x :: Occurs(x, root) ==> x in index
  }

  /**
   * What `collectAllEntities(d)` does to the index: every id in `d`'s
   * subtree becomes a key, mapped to a node of that subtree with no node
   * of the same id below it (a node is written before its subtree); all
   * other entries are left as they were. Between nodes of one id that are
   * not above one another, which one wins depends on the unspecified
   * traversal order.
   */
  ghost predicate Collected(before: Index, d: Entity, after: Index) {
    && (forall x :: x in after <==> x in before || Occurs(x, d))
    && (forall x :: x in before && !Occurs(x, d) ==> after[x] == before[x])
    && (forall x :: Occurs(x, d) ==> x in after && IsNode(after[x], d) && !OccursBelow(x, after[x]))
  }

  /** Every node of a subtree has its id occurring in it. */
  lemma {:induction false} NodeIdOccurs(n: Entity, e: Entity)
    requires IsNode(n, e)
    ensures Occurs(n.id, e)
    decreases e
  {
    if n != e {
      var k :| k in e.entities && IsNode(n, e.entities[k]);
      NodeIdOccurs(n, e.entities[k]);
    }
  }

  /** An id occurring in the node at `p` occurs in the whole tree. */
  lemma {:induction false} OccursAt(e: Entity, p: Path, x: string)
    requires At(e, p).Some? && Occurs(x, At(e, p).value)
    ensures Occurs(x, e)
    decreases |p|
  {
    if p != [] {
      OccursAt(e.entities[p[0]], p[1..], x);
    }
  }

  /** A domain found at some path is what `HasDomain` looks for. */
  lemma {:induction false} DomainAtIsFound(e: Entity, p: Path, id: string)
    requires DomainAt(e, p, id)
    ensures HasDomain(e, id)
    decreases |p|
  {
    if p != [] {
      DomainAtIsFound(e.entities[p[0]], p[1..], id);
    }
  }

  /** A parent found at some path is what `HasParentOf` looks for. */
  lemma {:induction false} ParentAtIsFound(e: Entity, p: Path, x: string)
    requires ParentAt(e, p, x)
    ensures HasParentOf(e, x)
    decreases |p|
  {
    if p != [] {
      ParentAtIsFound(e.entities[p[0]], p[1..], x);
    }
  }

  /**
   * When the root does not match, one child is a domain with id `id`, and no
   * other domain with that id exists below the root, every search result is
   * that child's key.
   */
  lemma {:induction false} DomainAtOnlyMatch(e: Entity, k0: string, q: Path, id: string)
    requires e.DomainEntity? && e.id != id && k0 in e.entities
    requires forall k :: k in e.entities && k != k0 ==> !HasDomain(e.entities[k], id)
    requires e.entities[k0].DomainEntity? && e.entities[k0].id == id
    requires forall k :: k in e.entities[k0].entities ==> !HasDomain(e.entities[k0].entities[k], id)
    requires DomainAt(e, q, id)
    ensures q == [k0]
  {
    assert q != [];
    var c := e.entities[q[0]];
    if q[0] != k0 {
      DomainAtIsFound(c, q[1..], id);
      assert false;
    }
    if q[1..] != [] {
      DomainAtIsFound(c.entities[q[1]], q[2..], id);
      assert false;
    }
    assert q == [q[0]] + q[1..];
  }

  /**
   * When the root has `x` as a direct child and no domain below it does,
   * every search result is the root itself.
   */
  lemma {:induction false} ParentAtOnlyMatch(e: Entity, q: Path, x: string)
    requires e.DomainEntity? && Domain.FindChild(e.entities, x).Some?
    requires forall k :: k in e.entities ==> !HasParentOf(e.entities[k], x)
    requires ParentAt(e, q, x)
    ensures q == []
  {
    if q != [] {
      ParentAtIsFound(e.entities[q[0]], q[1..], x);
      assert false;
    }
  }

  /** A domain whose children are all leaves can only be reported as a parent at its own position. */
  lemma LeafParentOnlyAtTop(e: Entity, q: Path, x: string)
    requires e.DomainEntity? && forall k :: k in e.entities ==> !e.entities[k].DomainEntity?
    ensures q != [] ==> !ParentAt(e, q, x)
  {
    if q != [] && q[0] in e.entities {
      assert At(e, q) == At(e.entities[q[0]], q[1..]);
    }
  }

  /** Replacing a node brings in no id that was neither in the tree nor in the new node. */
  lemma {:induction false} ReplaceOccurs(e: Entity, p: Path, n: Entity, x: string)
    requires At(e, p).Some? && Occurs(x, Replace(e, p, n))
    ensures Occurs(x, e) || Occurs(x, n)
    decreases |p|
  {
    if p != [] {
      var r := Replace(e, p, n);
      if r.id != x {
        var j :| j in r.entities && Occurs(x, r.entities[j]);
        if j == p[0] {
          ReplaceOccurs(e.entities[j], p[1..], n, x);
        } else {
          assert Occurs(x, e.entities[j]);
        }
      }
    }
  }

  /**
   * The index entry for a collected entity: its whole subtree is findable,
   * and the entity itself is what its id maps to exactly when that id
   * does not repeat below it.
   */
  lemma {:induction false} CollectedFindsEntity(before: Index, e: Entity, after: Index)
    requires Collected(before, e, after) && IndexKeyed(after)
    ensures e.id in after
    ensures forall x :: Occurs(x, e) ==> x in after
    ensures after[e.id] == e <==> !OccursBelow(e.id, e)
  {
    assert Occurs(e.id, e);
    var n := after[e.id];
    if n != e {
      var k :| k in e.entities && IsNode(n, e.entities[k]);
      NodeIdOccurs(n, e.entities[k]);
    }
  }

  /**
   * Adding an entity to a domain of the tree and collecting it into the
   * index keeps every id of the tree findable.
   */
  lemma {:induction false} AddKeepsCovers(root: Entity, index: Index, p: Path, e: Entity, user: string,
                                          children: Domain.Children, index': Index)
    requires Covers(root, index)
    requires At(root, p).Some? && At(root, p).value.DomainEntity?
    requires Domain.AddChild(At(root, p).value.id, At(root, p).value.adminId, At(root, p).value.entities, Some(e), user)
             == Success(children)
    requires Collected(index, e, index')
    ensures Covers(Replace(root, p, DomainEntity(At(root, p).value.id, At(root, p).value.adminId, children)), index')
  {
    var t := At(root, p).value;
    var t' := DomainEntity(t.id, t.adminId, children);
    var root' := Replace(root, p, t');
    forall x | Occurs(x, root') ensures x in index' {
      ReplaceOccurs(root, p, t', x);
      if !Occurs(x, root) && !Occurs(x, e) {
        if x == t.id {
          OccursAt(root, p, x);
        } else {
          var k :| k in children && Occurs(x, children[k]);
          if k != e.id {
            assert Occurs(x, t);
            OccursAt(root, p, x);
          }
        }
      }
    }
  }

  /**
   * Erasing a child from a domain of the tree and its id from the index
   * keeps every id of the tree findable exactly when that id no longer
   * occurs anywhere in the tree.
   */
  lemma {:induction false} RemoveKeepsCoversIff(root: Entity, index: Index, p: Path, x: string, user: string,
                                                children: Domain.Children)
    requires Covers(root, index)
    requires At(root, p).Some? && At(root, p).value.DomainEntity?
    requires Domain.RemoveChild(At(root, p).value.id, At(root, p).value.adminId, At(root, p).value.entities, x, user)
             == Success(children)
    ensures var root' := Replace(root, p, DomainEntity(At(root, p).value.id, At(root, p).value.adminId, children));
            Covers(root', index - {x}) <==> !Occurs(x, root')
  {
    var t := At(root, p).value;
    var t' := DomainEntity(t.id, t.adminId, children);
    var root' := Replace(root, p, t');
    if !Occurs(x, root') {
      forall y | Occurs(y, root') ensures y in index - {x} {
        ReplaceOccurs(root, p, t', y);
        if !Occurs(y, root) {
          if y == t.id {
            OccursAt(root, p, y);
          } else {
            var k :| k in children && Occurs(y, children[k]);
            assert Occurs(y, t);
            OccursAt(root, p, y);
          }
        }
      }
    }
  }
}
