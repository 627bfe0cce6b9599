/**
 * The corporate network (CorporateNetwork.h, CorporateNetwork.cpp): a root
 * domain with the fixed id "root_domain" and a flat index from id to entity
 * for fast lookup.
 *
 * The tree is a value (`DomainTree`); a change to a nested domain is made at
 * the path the search found it under. The index is NOT kept equal to the
 * tree: ids are unique only among one domain's direct children, an insert
 * into the index overwrites, and removing a sub-domain erases only its own
 * entry. What holds instead is stated operation by operation and in the
 * lemmas of `DomainTree` and of this module.
 */
module CorporateNetwork {
  import opened Wrappers
  import opened NetworkExceptions
  import opened Entities
  import opened DomainTree
  import Domain

  const RootId: string := "root_domain"

  function DomainNotFoundText(domainId: string): string {
    "Домен с идентификатором '" + domainId + "' не найден"
  }

  function EntityNotFoundText(entityId: string): string {
    "Сущность с идентификатором '" + entityId + "' не найдена"
  }

  function NoParentText(entityId: string): string {
    "Не удалось найти домен, содержащий сущность '" + entityId + "'"
  }

  /** Ids reached from `d` through the children whose keys are in `done`, `d` itself included. */
  ghost predicate Reached(x: string, d: Entity, done: set<string>)
    requires d.DomainEntity?
  {
    x == d.id || exists k :: k in done && k in d.entities && Occurs(x, d.entities[k])
  }

  /** Ids reached from `d` through the children whose keys are in `done`, `d` itself left out. */
  ghost predicate ReachedBelow(x: string, d: Entity, done: set<string>)
    requires d.DomainEntity?
  {
    exists k :: k in done && k in d.entities && Occurs(x, d.entities[k])
  }

  /**
   * The loop of `collectAllEntities(d)` after the children with keys in
   * `done`: `Collected`, restricted to what has been reached so far; `d`
   * itself may still be the entry for its id while no collected child has
   * brought that id again.
   */
  ghost predicate CollectedSoFar(start: Index, d: Entity, done: set<string>, index: Index)
    requires d.DomainEntity?
  {
    && (forall x :: x in index <==> x in start || Reached(x, d, done))
    && (forall x :: x in start && !Reached(x, d, done) ==> index[x] == start[x])
    && (forall x :: Reached(x, d, done) ==> x in index && IsNode(index[x], d))
    && (forall x :: Reached(x, d, done) ==>
          (x == d.id && index[x] == d && !ReachedBelow(x, d, done)) || !OccursBelow(x, index[x]))
  }

  lemma CollectStart(start: Index, d: Entity)
    requires d.DomainEntity?
    ensures CollectedSoFar(start, d, {}, start[d.id := d])
  {
  }

  /** One more child collected extends what has been reached by that child's subtree. */
  lemma CollectStep(start: Index, d: Entity, done: set<string>, k: string, before: Index, after: Index)
    requires d.DomainEntity? && k in d.entities
    requires CollectedSoFar(start, d, done, before)
    requires Collected(before, d.entities[k], after)
    ensures CollectedSoFar(start, d, done + {k}, after)
  {
    var child := d.entities[k];
    assert forall x :: Reached(x, d, done + {k}) <==> Reached(x, d, done) || Occurs(x, child);
    assert forall x :: ReachedBelow(x, d, done + {k}) <==> ReachedBelow(x, d, done) || Occurs(x, child);
    forall x | Reached(x, d, done + {k}) ensures x in after && IsNode(after[x], d) {
      if !Occurs(x, child) {
        assert after[x] == before[x];
      }
    }
  }

  /** The loop body of `collectAllEntities`: the child written under its id, then, for a domain, collected. */
  lemma CollectChild(start: Index, d: Entity, done: set<string>, k: string, before: Index, mid: Index, after: Index)
    requires d.DomainEntity? && k in d.entities
    requires CollectedSoFar(start, d, done, before)
    requires mid == before[d.entities[k].id := d.entities[k]]
    requires if d.entities[k].DomainEntity? then Collected(mid, d.entities[k], after) else after == mid
    ensures CollectedSoFar(start, d, done + {k}, after)
  {
    var child := d.entities[k];
    if child.DomainEntity? {
      CollectedAfterWrite(before, child, after);
    } else {
      CollectedLeaf(before, child);
    }
    CollectStep(start, d, done, k, before, after);
  }

  lemma CollectEnd(start: Index, d: Entity, done: set<string>, index: Index)
    requires d.DomainEntity? && done == d.entities.Keys && CollectedSoFar(start, d, done, index)
    ensures Collected(start, d, index)
  {
    assert forall x :: Reached(x, d, done) <==> Occurs(x, d);
    assert forall x :: ReachedBelow(x, d, done) <==> OccursBelow(x, d);
  }

  /** Collecting a leaf is writing it under its id. */
  lemma CollectedLeaf(before: Index, e: Entity)
    requires !e.DomainEntity?
    ensures Collected(before, e, before[e.id := e])
  {
    assert forall x :: Occurs(x, e) <==> x == e.id;
    assert IsNode(e, e);
  }

  /** Writing an entity under its id before collecting it changes nothing that collecting does not. */
  lemma CollectedAfterWrite(before: Index, e: Entity, after: Index)
    requires Collected(before[e.id := e], e, after)
    ensures Collected(before, e, after)
  {
    assert Occurs(e.id, e);
  }

  class CorporateNetwork {
    var rootDomain: Entity
    var allEntities: Index

    ghost predicate Valid()
      reads this
    {
      && rootDomain.DomainEntity?
      && rootDomain.id == RootId
      && rootDomain.adminId != ""
      && IndexKeyed(allEntities)
    }

    /** The constructor: a root domain with no children, collected into an empty index. */
    constructor (rootAdminId: string)
      requires Domain.ValidateDomain(RootId, rootAdminId).Pass?
      ensures Valid()
      ensures rootDomain == DomainEntity(RootId, rootAdminId, map[])
      ensures allEntities == map[RootId := rootDomain]
      ensures Covers(rootDomain, allEntities)
    {
      rootDomain := DomainEntity(RootId, rootAdminId, map[]);
      allEntities := map[];
      new;
      CollectAllEntities(rootDomain);
      forall x | x in allEntities ensures x == RootId && allEntities[x] == rootDomain {
        assert Occurs(x, rootDomain);
      }
    }

    /**
     * `CorporateNetwork(rootAdminId)`: the root `Domain` rejects an empty
     * administrator; otherwise the index holds exactly the root.
     */
    static method New(rootAdminId: string) returns (r: Result<CorporateNetwork, NetworkError>)
      ensures r.Failure? <==> rootAdminId == ""
      ensures r.Failure? ==> r.error == Validation(Domain.EmptyAdminText)
      ensures r.Success? ==> fresh(r.value) && r.value.Valid()
      ensures r.Success? ==> r.value.rootDomain == DomainEntity(RootId, rootAdminId, map[])
      ensures r.Success? ==> r.value.allEntities == map[RootId := r.value.rootDomain]
    {
      match Domain.ValidateDomain(RootId, rootAdminId)
      case Fail(e) =>
        r := Failure(e);
      case Pass =>
        var n := new CorporateNetwork(rootAdminId);
        r := Success(n);
    }

    function GetRootDomain(): (d: Entity)
      reads this
      requires Valid()
      ensures d.DomainEntity? && d.id == RootId && d.adminId != ""
    {
      rootDomain
    }

    /** `findEntity`: a lookup in the index only; an absent id gives null. */
    function FindEntity(entityId: string): (r: Option<Entity>)
      reads this
      requires Valid()
      ensures r.Some? <==> entityId in allEntities
      ensures r.Some? ==> r.value == allEntities[entityId] && r.value.id == entityId
    {
      if entityId in allEntities then Some(allEntities[entityId]) else None
    }

    /**
     * `addEntityToDomain`: an empty `domainId` means the root, otherwise the
     * domain the search finds (a missing one is a DomainOperationException);
     * the target domain's `addEntity` then decides, and only after it
     * succeeds is the entity, with its whole subtree, written to the index.
     */
    method AddEntityToDomain(domainId: string, entity: Option<Entity>, user: string)
      returns (out: Outcome<NetworkError>, ghost at: Option<Path>)
      requires Valid()
      modifies this
      ensures Valid()
      ensures domainId == "" || domainId == RootId ==> at == Some([])
      ensures at.None? <==> domainId != "" && !HasDomain(old(rootDomain), domainId)
      ensures at.None? ==> out == Fail(DomainOperation(DomainNotFoundText(domainId)))
      ensures at.Some? && domainId != "" ==> DomainAt(old(rootDomain), at.value, domainId)
      ensures at.Some? ==> At(old(rootDomain), at.value).Some? && At(old(rootDomain), at.value).value.DomainEntity?
      ensures at.Some? ==>
                var t := At(old(rootDomain), at.value).value;
                var r := Domain.AddChild(t.id, t.adminId, t.entities, entity, user);
                && (r.Failure? ==> out == Fail(r.error))
                && (r.Success? ==>
                      && out.Pass?
                      && rootDomain == Replace(old(rootDomain), at.value, DomainEntity(t.id, t.adminId, r.value))
                      && Collected(old(allEntities), entity.value, allEntities))
      ensures out.Fail? ==> rootDomain == old(rootDomain) && allEntities == old(allEntities)
      ensures old(Covers(rootDomain, allEntities)) ==> Covers(rootDomain, allEntities)
    {
      var target: Option<Path>;
      if domainId == "" {
        target := Some([]);
      } else {
        target := FindDomainRecursive(rootDomain, domainId);
      }
      at := target;
      if target.None? {
        out := Fail(DomainOperation(DomainNotFoundText(domainId)));
        return;
      }
      var t := At(rootDomain, target.value).value;
      var r := Domain.AddChild(t.id, t.adminId, t.entities, entity, user);
      if r.Failure? {
        out := Fail(r.error);
        return;
      }
      ghost var root0, index0 := rootDomain, allEntities;
      var e := entity.value;
      rootDomain := Replace(rootDomain, target.value, DomainEntity(t.id, t.adminId, r.value));
      allEntities := allEntities[e.id := e];
      if e.DomainEntity? {
        CollectAllEntities(e);
        CollectedAfterWrite(index0, e, allEntities);
      } else {
        CollectedLeaf(index0, e);
      }
      out := Pass;
      if Covers(root0, index0) {
        AddKeepsCovers(root0, index0, target.value, e, user, r.value, allEntities);
      }
    }

    /**
     * `removeEntity`: the id must be in the index, then some domain must have
     * it as a direct child; that domain's `removeEntity` decides, and only
     * after it succeeds is the id's own index entry erased.
     */
    method RemoveEntity(entityId: string, user: string) returns (out: Outcome<NetworkError>, ghost at: Option<Path>)
      requires Valid()
      modifies this
      ensures Valid()
      ensures at.Some? <==> entityId in old(allEntities) && HasParentOf(old(rootDomain), entityId)
      ensures entityId !in old(allEntities) ==> out == Fail(DomainOperation(EntityNotFoundText(entityId)))
      ensures entityId in old(allEntities) && !HasParentOf(old(rootDomain), entityId) ==>
                out == Fail(DomainOperation(NoParentText(entityId)))
      ensures at.Some? ==> ParentAt(old(rootDomain), at.value, entityId)
      ensures at.Some? ==>
                var t := At(old(rootDomain), at.value).value;
                var r := Domain.RemoveChild(t.id, t.adminId, t.entities, entityId, user);
                && (out.Pass? <==> user == t.adminId)
                && (r.Failure? ==> out == Fail(r.error))
                && (r.Success? ==> rootDomain == Replace(old(rootDomain), at.value, DomainEntity(t.id, t.adminId, r.value))
                                   && allEntities == old(allEntities) - {entityId})
      ensures out.Fail? ==> rootDomain == old(rootDomain) && allEntities == old(allEntities)
      ensures old(Covers(rootDomain, allEntities)) && out.Pass? ==>
                (Covers(rootDomain, allEntities) <==> !Occurs(entityId, rootDomain))
    {
      at := None;
      if FindEntity(entityId).None? {
        out := Fail(DomainOperation(EntityNotFoundText(entityId)));
        return;
      }
      var parent := FindDomainContainingEntity(rootDomain, entityId);
      if parent.None? {
        out := Fail(DomainOperation(NoParentText(entityId)));
        return;
      }
      at := parent;
      var t := At(rootDomain, parent.value).value;
      var r := Domain.RemoveChild(t.id, t.adminId, t.entities, entityId, user);
      if r.Failure? {
        out := Fail(r.error);
        return;
      }
      ghost var root0, index0 := rootDomain, allEntities;
      rootDomain := Replace(rootDomain, parent.value, DomainEntity(t.id, t.adminId, r.value));
      allEntities := allEntities - {entityId};
      out := Pass;
      if Covers(root0, index0) {
        RemoveKeepsCoversIff(root0, index0, parent.value, entityId, user, r.value);
      }
    }

    /**
     * `findDomainRecursive`: the start domain when its id matches (pre-order),
     * otherwise a match below some domain child. Returns the path to the
     * domain found; which of several matches is found is left open.
     */
    static method FindDomainRecursive(domain: Entity, domainId: string) returns (found: Option<Path>)
      requires domain.DomainEntity?
      ensures found.Some? <==> HasDomain(domain, domainId)
      ensures found.Some? ==> DomainAt(domain, found.value, domainId)
      ensures domain.id == domainId ==> found == Some([])
      ensures found.Some? ==> forall i :: 0 <= i < |found.value| ==> !DomainAt(domain, found.value[..i], domainId)
      decreases domain
    {
      if domain.id == domainId {
        return Some([]);
      }
      var keys := domain.entities.Keys;
      while keys != {}
        invariant keys <= domain.entities.Keys
        invariant forall k :: k in domain.entities && k !in keys ==> !HasDomain(domain.entities[k], domainId)
        decreases |keys|
      {
        var k :| k in keys;
        var child := domain.entities[k];
        if child.DomainEntity? {
          var f := FindDomainRecursive(child, domainId);
          if f.Some? {
            var q := [k] + f.value;
            assert q[1..] == f.value;
            forall i | 0 <= i < |q| ensures !DomainAt(domain, q[..i], domainId) {
              if i > 0 {
                assert q[..i][1..] == f.value[..i - 1];
              }
            }
            return Some(q);
          }
        }
        keys := keys - {k};
      }
      return None;
    }

    /**
     * `findDomainContainingEntity`: the start domain when one of its direct
     * children has the id, otherwise a match below some domain child; none
     * when no domain in the subtree has it as a direct child.
     */
    static method FindDomainContainingEntity(domain: Entity, entityId: string) returns (found: Option<Path>)
      requires domain.DomainEntity?
      ensures found.Some? <==> HasParentOf(domain, entityId)
      ensures found.Some? ==> ParentAt(domain, found.value, entityId)
      ensures Domain.FindChild(domain.entities, entityId).Some? ==> found == Some([])
      ensures found.Some? ==> forall i :: 0 <= i < |found.value| ==> !ParentAt(domain, found.value[..i], entityId)
      decreases domain
    {
      if Domain.FindChild(domain.entities, entityId).Some? {
        return Some([]);
      }
      var keys := domain.entities.Keys;
      while keys != {}
        invariant keys <= domain.entities.Keys
        invariant forall k :: k in domain.entities && k !in keys ==> !HasParentOf(domain.entities[k], entityId)
        decreases |keys|
      {
        var k :| k in keys;
        var child := domain.entities[k];
        if child.DomainEntity? {
          var f := FindDomainContainingEntity(child, entityId);
          if f.Some? {
            var q := [k] + f.value;
            assert q[1..] == f.value;
            forall i | 0 <= i < |q| ensures !ParentAt(domain, q[..i], entityId) {
              if i > 0 {
                assert q[..i][1..] == f.value[..i - 1];
              }
            }
            return Some(q);
          }
        }
        keys := keys - {k};
      }
      return None;
    }

    /**
     * `collectAllEntities`: writes the domain under its id, then each child
     * under its id, descending into child domains; every write overwrites.
     */
    method CollectAllEntities(d: Entity)
      requires d.DomainEntity? && IndexKeyed(allEntities)
      modifies this`allEntities
      ensures IndexKeyed(allEntities)
      ensures Collected(old(allEntities), d, allEntities)
      decreases d
    {
      ghost var start := allEntities;
      allEntities := allEntities[d.id := d];
      CollectStart(start, d);
      var keys := d.entities.Keys;
      ghost var done: set<string> := {};
      while keys != {}
        invariant keys <= d.entities.Keys && done == d.entities.Keys - keys
        invariant IndexKeyed(allEntities)
        invariant CollectedSoFar(start, d, done, allEntities)
        decreases |keys|
      {
        var k :| k in keys;
        var child := d.entities[k];
        ghost var before := allEntities;
        allEntities := allEntities[child.id := child];
        ghost var mid := allEntities;
        if child.DomainEntity? {
          CollectAllEntities(child);
        }
        CollectChild(start, d, done, k, before, mid, allEntities);
        keys := keys - {k};
        done := done + {k};
      }
      CollectEnd(start, d, done, allEntities);
    }
  }

  /**
   * Uniqueness is checked among the target's direct children only: an id
   * already present deeper in the tree is accepted at the root, and its
   * index entry is overwritten by the newcomer.
   */
  lemma DuplicateIdElsewhereAccepted(index: Index, index': Index)
    requires index == map[RootId := Tree1(), "a" := DomainA(), "x" := PrinterX()]
    requires Collected(index, PrinterX2(), index')
    ensures Occurs("x", Tree1())
    ensures Domain.AddChild(RootId, "admin", Tree1().entities, Some(PrinterX2()), "admin")
            == Success(Tree1().entities["x" := PrinterX2()])
    ensures index'["x"] == PrinterX2() != index["x"]
  {
    assert Occurs("x", DomainA().entities["x"]);
    assert Occurs("x", Tree1().entities["a"]);
    CollectedFindsEntity(index, PrinterX2(), index');
  }

  function PrinterX(): Entity { PrinterEntity("x", "00:1A:2B:3C:4D:5E") }
  function PrinterX2(): Entity { PrinterEntity("x", "00:1A:2B:3C:4D:5F") }
  function DomainA(): Entity { DomainEntity("a", "a_admin", map["x" := PrinterX()]) }
  function Tree1(): Entity { DomainEntity(RootId, "admin", map["a" := DomainA()]) }

  function DomainB(): Entity { DomainEntity("b", "b_admin", map["x" := PrinterX2()]) }
  function Tree2(): Entity { DomainEntity(RootId, "admin", map["a" := DomainA(), "b" := DomainB()]) }

  /**
   * With the same id under two sub-domains, the parent search may report
   * either one; removing the id from whichever is reported leaves it in the
   * tree (under the other) but not in the index.
   */
  lemma RemoveOfDuplicateLosesIndexEntry(p: Path, index: Index)
    requires ParentAt(Tree2(), p, "x")
    ensures p == ["a"] || p == ["b"]
    ensures var t := At(Tree2(), p).value;
            && Domain.RemoveChild(t.id, t.adminId, t.entities, "x", t.adminId).Success?
            && var root' := Replace(Tree2(), p, DomainEntity(t.id, t.adminId, t.entities - {"x"}));
               Occurs("x", root') && !Covers(root', index - {"x"})
  {
    var root := Tree2();
    assert p != [];
    var c := root.entities[p[0]];
    assert p[0] == "a" || p[0] == "b";
    if |p| > 1 {
      assert At(root, p) == At(c, p[1..]);
      LeafParentOnlyAtTop(c, p[1..], "x");
      assert false;
    }
    assert p == [p[0]];
    assert At(root, p) == At(c, []) == Some(c);
    var t := At(root, p).value;
    var root' := Replace(root, p, DomainEntity(t.id, t.adminId, t.entities - {"x"}));
    var other := if p[0] == "a" then "b" else "a";
    assert root'.entities[other] == root.entities[other];
    assert Occurs("x", root.entities[other].entities["x"]);
    assert Occurs("x", root'.entities[other]);
  }

  function Ws1(): Entity { WorkstationEntity("ws1", "00:1A:2B:3C:4D:5F", "user", 0) }
  function EmptySub(): Entity { DomainEntity("subdomain", "sub_admin", map[]) }
  function RootWithSub(): Entity { DomainEntity(RootId, "admin", map["subdomain" := EmptySub()]) }
  function RootWithWs(): Entity {
    DomainEntity(RootId, "admin", map["subdomain" := DomainEntity("subdomain", "sub_admin", map["ws1" := Ws1()])])
  }

  /** In `RootWithSub()` the only domain with id "subdomain" is the root's child of that key. */
  lemma SubDomainFoundAtItsKey(q: Path)
    requires DomainAt(RootWithSub(), q, "subdomain")
    ensures q == ["subdomain"]
  {
    DomainAtOnlyMatch(RootWithSub(), "subdomain", q, "subdomain");
  }

  /** In `RootWithWs()` the only domain with a direct child "subdomain" is the root. */
  lemma SubDomainParentIsRoot(q: Path)
    requires ParentAt(RootWithWs(), q, "subdomain")
    ensures q == []
  {
    var c := RootWithWs().entities["subdomain"];
    assert !HasParentOf(c.entities["ws1"], "subdomain");
    ParentAtOnlyMatch(RootWithWs(), q, "subdomain");
  }

  /** `addEntityToDomain("", subdomain, "admin")` on a fresh network. */
  method AddSubDomainStep(net: CorporateNetwork) returns (out: Outcome<NetworkError>)
    requires net.Valid() && net.rootDomain == DomainEntity(RootId, "admin", map[])
    modifies net
    ensures net.Valid() && out == Pass && net.rootDomain == RootWithSub()
    ensures "subdomain" in net.allEntities
  {
    ghost var at;
    out, at := net.AddEntityToDomain("", Some(EmptySub()), "admin");
    assert Occurs("subdomain", EmptySub());
  }

  /** `addEntityToDomain("subdomain", ws1, "sub_admin")`: the workstation lands in the sub-domain and the index. */
  method AddWorkstationStep(net: CorporateNetwork) returns (out: Outcome<NetworkError>)
    requires net.Valid() && net.rootDomain == RootWithSub() && "subdomain" in net.allEntities
    modifies net
    ensures net.Valid() && out == Pass && net.rootDomain == RootWithWs()
    ensures "subdomain" in net.allEntities
    ensures "ws1" in net.allEntities && net.allEntities["ws1"] == Ws1()
  {
    assert HasDomain(RootWithSub().entities["subdomain"], "subdomain");
    ghost var at;
    out, at := net.AddEntityToDomain("subdomain", Some(Ws1()), "sub_admin");
    SubDomainFoundAtItsKey(at.value);
    assert At(RootWithSub(), ["subdomain"]) == At(EmptySub(), []);
    assert IsNode(net.allEntities["ws1"], Ws1());
  }

  /** `removeEntity("subdomain", "admin")`: the root loses its child, the index only the sub-domain's entry. */
  method RemoveSubDomainStep(net: CorporateNetwork) returns (out: Outcome<NetworkError>)
    requires net.Valid() && net.rootDomain == RootWithWs() && "subdomain" in net.allEntities
    modifies net
    ensures net.Valid() && out == Pass && net.rootDomain == DomainEntity(RootId, "admin", map[])
    ensures net.allEntities == old(net.allEntities) - {"subdomain"}
  {
    ghost var at;
    out, at := net.RemoveEntity("subdomain", "admin");
    SubDomainParentIsRoot(at.value);
  }

  /**
   * The sub-domain tests' sequence of calls, then removal of the sub-domain:
   * the workstation added under it is still returned by `findEntity`, and
   * removing it afterwards fails because no domain holds it any more.
   */
  method OrphanAfterSubDomainRemoval() returns (added: Outcome<NetworkError>, removed: Outcome<NetworkError>,
                                                 found: Option<Entity>, again: Outcome<NetworkError>)
    ensures added == Pass && removed == Pass
    ensures found == Some(Ws1())
    ensures again == Fail(DomainOperation(NoParentText("ws1")))
  {
    var created := CorporateNetwork.New("admin");
    var net := created.value;
    var first := AddSubDomainStep(net);
    added := AddWorkstationStep(net);
    removed := RemoveSubDomainStep(net);
    found := net.FindEntity("ws1");
    ghost var at;
    again, at := net.RemoveEntity("ws1", "sub_admin");
  }
}
