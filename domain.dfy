/**
 * A domain (Domain.h, Domain.cpp): a composite entity that owns its direct
 * children in a map keyed by child id and lets only its administrator add or
 * remove them. Every failure is raised before the map is touched.
 *
 * The operations on the child map are stated once as functions (`AddChild`,
 * `RemoveChild`, `FindChild`); the `Domain` class applies them to its own map
 * in place, and the network applies them to domains nested in its tree.
 */
module Domain {
  import opened Wrappers
  import opened NetworkExceptions
  import opened Entities

  type Children = map<string, Entity>

  function AccessDeniedText(user: string, domainId: string, adminId: string): string {
    "Пользователь '" + user + "' не является администратором домена '" + domainId +
    "'. Требуются права администратора '" + adminId + "'"
  }

  const NullEntityText: string := "Попытка добавить пустую сущность в домен"
  const EmptyEntityIdText: string := "Сущность с пустым идентификатором не может быть добавлена в домен"
  const EmptyRemoveIdText: string := "Идентификатор сущности для удаления не может быть пустым"
  const EmptyDomainIdText: string := "Идентификатор домена не может быть пустым"
  const EmptyAdminText: string := "Идентификатор администратора домена не может быть пустым"

  function DuplicateText(entityId: string, domainId: string): string {
    "Сущность с идентификатором '" + entityId + "' уже существует в домене '" + domainId + "'"
  }

  function NotFoundText(entityId: string, domainId: string): string {
    "Сущность с идентификатором '" + entityId + "' не найдена в домене '" + domainId + "'"
  }

  /** Every child is stored under its own id, as `addEntity` stores it. */
  ghost predicate Keyed(children: Children) {
    forall k :: k in children ==> children[k].id == k
  }

  /** `checkAdminRights`: only the administrator passes; anyone else gets AccessDenied. */
  function CheckAdminRights(domainId: string, adminId: string, user: string): (r: Outcome<NetworkError>)
    ensures r.Pass? <==> user == adminId
    ensures r.Fail? ==> r.error == AccessDenied(AccessDeniedText(user, domainId, adminId))
  {
    if user != adminId then Fail(AccessDenied(AccessDeniedText(user, domainId, adminId))) else Pass
  }

  /** `validateEntity`: a null entity, then an entity with an empty id, are ValidationExceptions. */
  function ValidateEntity(entity: Option<Entity>): (r: Outcome<NetworkError>)
    ensures r.Pass? <==> entity.Some? && entity.value.id != ""
    ensures entity.None? ==> r == Fail(Validation(NullEntityText))
    ensures entity.Some? && entity.value.id == "" ==> r == Fail(Validation(EmptyEntityIdText))
  {
    match entity
    case None => Fail(Validation(NullEntityText))
    case Some(e) => if e.id == "" then Fail(Validation(EmptyEntityIdText)) else Pass
  }

  /** `findEntity`: never fails; the empty id and an absent id both give null. */
  function FindChild(children: Children, entityId: string): (r: Option<Entity>)
    ensures r.Some? <==> entityId != "" && entityId in children
    ensures r.Some? ==> r.value == children[entityId]
  {
    if entityId == "" then None
    else if entityId in children then Some(children[entityId])
    else None
  }

  /**
   * `addEntity` on a domain with the given id, administrator and children:
   * the admin check, then entity validation, then the duplicate check; on
   * success exactly one child is added and every other child is kept.
   */
  function AddChild(domainId: string, adminId: string, children: Children, entity: Option<Entity>, user: string)
    : (r: Result<Children, NetworkError>)
    ensures r.Success? <==> user == adminId && entity.Some? && entity.value.id != "" && entity.value.id !in children
    ensures user != adminId ==> r == Failure(CheckAdminRights(domainId, adminId, user).error)
    ensures user == adminId && ValidateEntity(entity).Fail? ==> r == Failure(ValidateEntity(entity).error)
    ensures user == adminId && entity.Some? && entity.value.id != "" && entity.value.id in children ==>
              r == Failure(DomainOperation(DuplicateText(entity.value.id, domainId)))
    ensures r.Success? ==> r.value.Keys == children.Keys + {entity.value.id} && |r.value| == |children| + 1
    ensures r.Success? ==> FindChild(r.value, entity.value.id) == entity
    ensures r.Success? ==> forall k :: k in children ==> r.value[k] == children[k]
    ensures r.Success? && Keyed(children) ==> Keyed(r.value)
  {
    match CheckAdminRights(domainId, adminId, user)
    case Fail(e) => Failure(e)
    case Pass =>
      match ValidateEntity(entity)
      case Fail(e) => Failure(e)
      case Pass =>
        var id := entity.value.id;
        if id in children then Failure(DomainOperation(DuplicateText(id, domainId)))
        else Success(children[id := entity.value])
  }

  /**
   * `removeEntity` on a domain with the given id, administrator and children:
   * the admin check, then the empty id, then an absent id; on success exactly
   * that key is erased and every other child is kept.
   */
  function RemoveChild(domainId: string, adminId: string, children: Children, entityId: string, user: string)
    : (r: Result<Children, NetworkError>)
    ensures r.Success? <==> user == adminId && entityId != "" && entityId in children
    ensures user != adminId ==> r == Failure(CheckAdminRights(domainId, adminId, user).error)
    ensures user == adminId && entityId == "" ==> r == Failure(Validation(EmptyRemoveIdText))
    ensures user == adminId && entityId != "" && entityId !in children ==>
              r == Failure(DomainOperation(NotFoundText(entityId, domainId)))
    ensures r.Success? ==> r.value.Keys == children.Keys - {entityId} && |r.value| == |children| - 1
    ensures r.Success? ==> FindChild(r.value, entityId).None?
    ensures r.Success? ==> forall k :: k in r.value ==> r.value[k] == children[k]
    ensures r.Success? && Keyed(children) ==> Keyed(r.value)
  {
    match CheckAdminRights(domainId, adminId, user)
    case Fail(e) => Failure(e)
    case Pass =>
      if entityId == "" then Failure(Validation(EmptyRemoveIdText))
      else if entityId !in children then Failure(DomainOperation(NotFoundText(entityId, domainId)))
      else Success(children - {entityId})
  }

  /** The `Domain` constructor's checks: an empty id, then an empty administrator, are ValidationExceptions. */
  function ValidateDomain(id: string, admin: string): (r: Outcome<NetworkError>)
    ensures r.Pass? <==> id != "" && admin != ""
    ensures id == "" ==> r == Fail(Validation(EmptyDomainIdText))
    ensures id != "" && admin == "" ==> r == Fail(Validation(EmptyAdminText))
  {
    if id == "" then Fail(Validation(EmptyDomainIdText))
    else if admin == "" then Fail(Validation(EmptyAdminText))
    else Pass
  }

  class Domain {
    const id: string
    const adminId: string
    var entities: Children

    /** The constructor's checks held, and only `addEntity` ever filled the map: keyed by id, never by "". */
    ghost predicate Valid()
      reads this
    {
      ValidateDomain(id, adminId).Pass? && Keyed(entities) && "" !in entities
    }

    constructor (id: string, admin: string)
      requires ValidateDomain(id, admin).Pass?
      ensures Valid() && this.id == id && adminId == admin && entities == map[]
    {
      this.id := id;
      adminId := admin;
      entities := map[];
    }

    /** `new Domain(id, admin)`: throws as `ValidateDomain` says, or yields a fresh empty domain. */
    static method New(id: string, admin: string) returns (r: Result<Domain, NetworkError>)
      ensures r.Failure? <==> ValidateDomain(id, admin).Fail?
      ensures r.Failure? ==> r.error == ValidateDomain(id, admin).error
      ensures r.Success? ==> fresh(r.value) && r.value.Valid()
      ensures r.Success? ==> r.value.id == id && r.value.adminId == admin
      ensures r.Success? ==> r.value.EntityCount() == 0 && TypeName(r.value.AsEntity()) == "Domain"
    {
      match ValidateDomain(id, admin)
      case Fail(e) =>
        r := Failure(e);
      case Pass =>
        var d := new Domain(id, admin);
        r := Success(d);
    }

    /** `addEntity`: the checks in order, each thrown before the map is touched, then one insertion. */
    method AddEntity(entity: Option<Entity>, user: string) returns (out: Outcome<NetworkError>)
      requires Valid()
      modifies this
      ensures Valid()
      ensures AddChild(id, adminId, old(entities), entity, user).Success? ==>
                out.Pass? && entities == AddChild(id, adminId, old(entities), entity, user).value
      ensures AddChild(id, adminId, old(entities), entity, user).Failure? ==>
                out == Fail(AddChild(id, adminId, old(entities), entity, user).error) && entities == old(entities)
    {
      out := CheckAdminRights(id, adminId, user);
      if out.Fail? {
        return;
      }
      out := ValidateEntity(entity);
      if out.Fail? {
        return;
      }
      var e := entity.value;
      if e.id in entities {
        out := Fail(DomainOperation(DuplicateText(e.id, id)));
        return;
      }
      entities := entities[e.id := e];
    }

    /** `removeEntity`: the checks in order, each thrown before the map is touched, then one erasure. */
    method RemoveEntity(entityId: string, user: string) returns (out: Outcome<NetworkError>)
      requires Valid()
      modifies this
      ensures Valid()
      ensures RemoveChild(id, adminId, old(entities), entityId, user).Success? ==>
                out.Pass? && entities == RemoveChild(id, adminId, old(entities), entityId, user).value
      ensures RemoveChild(id, adminId, old(entities), entityId, user).Failure? ==>
                out == Fail(RemoveChild(id, adminId, old(entities), entityId, user).error) && entities == old(entities)
    {
      out := CheckAdminRights(id, adminId, user);
      if out.Fail? {
        return;
      }
      if entityId == "" {
        out := Fail(Validation(EmptyRemoveIdText));
        return;
      }
      if entityId !in entities {
        out := Fail(DomainOperation(NotFoundText(entityId, id)));
        return;
      }
      entities := entities - {entityId};
    }

    /** `findEntity`: the child stored under the id, which carries that id; null for "" or an absent id. */
    function FindEntity(entityId: string): (r: Option<Entity>)
      reads this
      requires Valid()
      ensures r.Some? <==> entityId in entities
      ensures r.Some? ==> r.value.id == entityId
    {
      FindChild(entities, entityId)
    }

    /** `getAdminId`: the administrator, never empty. */
    function GetAdminId(): (a: string)
      reads this
      requires Valid()
      ensures a != "" && CheckAdminRights(id, adminId, a).Pass?
    {
      adminId
    }

    /** `getEntityCount`: the number of entries of the map `getAllEntities` shows. */
    function EntityCount(): (n: nat)
      reads this
      ensures n == |GetAllEntities()|
      ensures n == 0 <==> GetAllEntities() == map[]
    {
      |entities|
    }

    /** `getAllEntities`: a read-only view of the child map, each child found by `findEntity` under its own id. */
    function GetAllEntities(): (m: Children)
      reads this
      ensures Valid() ==> forall k :: k in m ==> k != "" && m[k].id == k && FindEntity(k) == Some(m[k])
    {
      entities
    }

    /** The value this domain contributes when it is stored in another domain. */
    function AsEntity(): (e: Entity)
      reads this
      ensures e.DomainEntity? && e.id == id && e.adminId == adminId && e.entities == entities
    {
      DomainEntity(id, adminId, entities)
    }
  }

  /** A domain holds at most one direct child per id: two children with the same id are the same key. */
  lemma {:induction false} AtMostOneChildPerId(d: Domain, k1: string, k2: string)
    requires d.Valid() && k1 in d.entities && k2 in d.entities
    requires d.entities[k1].id == d.entities[k2].id
    ensures k1 == k2
  {
    assert d.entities[k1].id == k1 && d.entities[k2].id == k2;
  }

  /**
   * Adding then removing the same entity restores the children; the count
   * goes up by one and back down.
   */
  lemma {:induction false} AddThenRemoveRestores(domainId: string, adminId: string, children: Children, e: Entity)
    requires e.id != "" && e.id !in children
    ensures AddChild(domainId, adminId, children, Some(e), adminId).Success?
    ensures RemoveChild(domainId, adminId, AddChild(domainId, adminId, children, Some(e), adminId).value, e.id, adminId)
            == Success(children)
  {
    var added := AddChild(domainId, adminId, children, Some(e), adminId).value;
    assert added - {e.id} == children;
  }
}
