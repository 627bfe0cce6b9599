# NetSphere corporate network, modelled in Dafny

NetSphere keeps a company's network as a tree of administrative domains. The
root domain has the fixed id `root_domain`. The devices are data storages,
workstations and printers. Each domain keeps its direct children in a map
keyed by child id. Only the domain's administrator may add or remove
children. The network also keeps a flat index from entity id to entity, so
that any entity can be found in one lookup. Devices validate their id and
MAC address when they are built. Every error is one of a small family of
exceptions. The base `NetworkException` keeps the caller's text as given, and
each of its four subclasses puts a fixed Russian prefix before that text. An
empty workstation user is the one error outside this family: it is a
standard `std::invalid_argument`.

The model has these modules:

- `Wrappers`: `Option` stands for a nullable pointer. `Result` and `Outcome`
  stand for "returns normally or throws".
- `NetworkExceptions`: the error family and the text `what()` returns.
- `Entities`: the tagged `Entity` value, with `getType()`.
- `Device`, `Printer`, `Workstation`, `DataStorage`: the leaf entities and
  their validation. A leaf's fields that are updated in place are fields of
  a class.
- `Domain`: a domain's checks and child-map operations, stated as functions.
  The `Domain` class applies them in place to its own map.
- `DomainTree`: the domain tree as a value. It gives paths to nodes,
  replacement of the node at a path, and the predicates used to specify the
  searches and the index.
- `CorporateNetwork`: a class holding the root domain and the index. The
  recursive searches and the index collection loop over the children in
  unspecified order, as `unordered_map` iteration does.

The index is deliberately not kept equal to the tree, because the code does
not keep it so:

- An id is checked for uniqueness only among the target domain's direct
  children.
- Writing into the index overwrites an existing entry.
- Removing a sub-domain erases only that sub-domain's own entry, so its
  descendants stay in the index with no path to them from the root.

The model proves what holds instead. If every id in the tree could be found
through the index before a successful add, that still holds after it. If it
held before a successful remove, it still holds after it exactly when the
removed id no longer occurs in the tree. The failures are shown on concrete
trees.

## Model

| member | source | states |
|---|---|---|
| NetworkExceptions.What | src/NetSphere/NetworkExceptions.h:20-63 | The message is the class's fixed prefix followed by the caller's text. For the base class it is the text unchanged. |
| NetworkExceptions.WhatDeterminesText | src/NetSphere/NetworkExceptions.h:29-63 | Within one exception class, the message determines the caller's text. |
| NetworkExceptions.PrefixedClassesDistinguishable | src/NetSphere/NetworkExceptions.h:29-63 | Two different prefixed classes never produce the same message, whatever their texts. |
| Entities.TypeName | src/NetSphere/Domain.cpp:78-80 | `getType()` names each kind of entity (for domains here, for workstations at `Workstation.cpp:42-44`, for printers at `Printer.cpp:18-20`), and each name identifies exactly one kind. |
| Device.ValidateId | src/NetSphere/Device.h:49-61 | An id passes exactly when it is 1 to 50 characters from [A-Za-z0-9_-]. The empty id, an id longer than 50 bytes in UTF-8, and a bad character each fail with their own ValidationException text, checked in that order. An id of at most 50 characters but more than 50 bytes gets the "too long" text. |
| Device.ValidIdIsShort | src/NetSphere/Device.h:53-55 | A valid id is as long in bytes as in characters, and at most 50. |
| Device.IsValidMacAddress | src/NetSphere/Device.h:36-42 | A MAC is valid exactly when it has 17 characters, with hex digits at the group positions and ':' or '-' at positions 2, 5, 8, 11 and 14. |
| Device.MacAcceptedByGroups | src/NetSphere/Device.h:40-41 | The separators are checked one by one, so any mix of ':' and '-' is accepted. |
| Device.MacExamplesAccepted | src/NetSphere/Device.h:33-34 | The two documented forms, all colons and all dashes, are valid, and so is an address mixing the two separators. |
| Device.MacExamplesRejected | src/NetSphere/Device.h:36-39 | The empty string, five groups only, and "invalid_mac" are invalid. |
| Device.ValidateDevice | src/NetSphere/Device.h:70-77 | The constructor passes exactly when both the id and the MAC are valid. The id is checked first, and both failures are ValidationException. |
| Printer.NewPrinter | src/NetSphere/Printer.cpp:9-20 | A printer fails exactly as the device checks do. Otherwise it keeps the id and MAC unchanged, with type "Printer". |
| Workstation.ValidateUserId | src/NetSphere/Workstation.h:30-34 | An empty user fails with `std::invalid_argument`, which is outside the NetworkException family. |
| Workstation.CheckWorkstation | src/NetSphere/Workstation.cpp:14-18 | The device checks come before the user check, so an id or MAC error wins over an empty user. |
| Workstation.Workstation.New | src/NetSphere/Workstation.cpp:14-26 | Construction fails exactly when the checks fail. Otherwise the getters return exactly the supplied id, MAC, user and time. |
| Workstation.Workstation.constructor | src/NetSphere/Workstation.cpp:14-18 | A constructed workstation holds the arguments and satisfies the checks. |
| Workstation.Workstation.UpdatePowerOnTime | src/NetSphere/Workstation.cpp:28-30 | Only the stored time changes, and it becomes the new time. |
| Workstation.Workstation.GetUserId | src/NetSphere/Workstation.cpp:20-22 | The user of a constructed workstation is never empty. |
| Workstation.Workstation.GetLastPowerOnTime | src/NetSphere/Workstation.cpp:24-26 | Returns the time the workstation holds, which `updatePowerOnTime` sets. |
| Workstation.Workstation.AsEntity | src/NetSphere/Workstation.cpp:42-44 | The stored entity carries the workstation's fields, with type "Workstation". |
| DataStorage.Without | src/NetSphere/DataStorage.cpp:100-105 | Erasing a user removes every occurrence and keeps every other user's count. An absent user leaves the list unchanged. |
| DataStorage.WithoutKeepsOrder | src/NetSphere/DataStorage.cpp:100-105 | Erasing distributes over concatenation, so the survivors keep their relative order. |
| DataStorage.DataStorage.AddTrustedUser | src/NetSphere/DataStorage.cpp:92-94 | Appends the user at the end and keeps the earlier entries. |
| DataStorage.DataStorage.RemoveTrustedUser | src/NetSphere/DataStorage.cpp:100-105 | The list becomes the old list with every occurrence of the user erased. |
| DataStorage.DataStorage.GetTrustedUsers | src/NetSphere/DataStorage.cpp:143-145 | Returns the trusted-user list the storage holds. |
| DataStorage.DataStorage.Less | src/NetSphere/DataStorage.cpp:66-68 | `<` compares ids only, is asymmetric, and never holds between equal ids. |
| DataStorage.DataStorage.Equal | src/NetSphere/DataStorage.cpp:75-77 | `==` compares ids only, ignoring MAC and capacity. It holds exactly when neither storage is less than the other. |
| DataStorage.DataStorage.NotEqual | src/NetSphere/DataStorage.cpp:84-86 | `!=` compares ids only and is exactly the negation of `==`. |
| DataStorage.LexLessIrreflexive | src/NetSphere/DataStorage.cpp:66-68 | No id is less than itself. |
| DataStorage.LexLessTransitive | src/NetSphere/DataStorage.cpp:66-68 | String `<` is transitive. |
| DataStorage.LexLessTrichotomy | src/NetSphere/DataStorage.cpp:66-68 | Two ids are equal, or exactly one is less than the other. |
| DataStorage.StorageOrderIsStrictTotal | src/NetSphere/DataStorage.cpp:66-86 | `<`, `==` and `!=` look only at ids. `!=` is the negation of `==`, and `<` is a strict total order on ids. |
| DataStorage.StorageAsWritten | src/NetSphere/DataStorage.cpp:15-17 | The constructor as written stores the id and MAC as given, with no trusted users. |
| DataStorage.StorageAsWrittenSkipsValidation | src/NetSphere/DataStorage.cpp:15-17 | That constructor accepts an id and a MAC which the device checks reject. |
| DataStorage.NewStorage | src/NetSphere/DataStorage.cpp:15-17 | The corrected constructor fails exactly as the device checks do. Otherwise it gives a storage with the given id and MAC, no trusted users, and type "DataStorage". |
| DataStorage.DataStorage.New | src/NetSphere/DataStorage.cpp:15-17 | Construction fails exactly when `NewStorage` fails. Otherwise the new object is the storage `NewStorage` describes. |
| DataStorage.DataStorage.constructor | src/NetSphere/DataStorage.cpp:15-17 | A constructed storage is valid, with an empty trusted-user list. |
| DataStorage.DataStorage.AsEntity | src/NetSphere/DataStorage.cpp:111-121 | The stored entity carries the id, the MAC and the trusted users. |
| Domain.CheckAdminRights | src/NetSphere/Domain.h:35-40 | Passes exactly when the user is the administrator. Otherwise it fails with AccessDenied and the text naming user, domain and administrator. |
| Domain.ValidateEntity | src/NetSphere/Domain.h:47-54 | A null entity fails first, then an entity with an empty id, both as ValidationException. Anything else passes. |
| Domain.FindChild | src/NetSphere/Domain.cpp:48-58 | Finds the child exactly when the id is non-empty and present. It never fails. |
| Domain.AddChild | src/NetSphere/Domain.cpp:19-30 | Succeeds exactly for the administrator, a non-null entity with a non-empty id, and an id not yet a child. Failures come in this order: admin check, validation, duplicate. On success exactly the new key is added, the count rises by one, the child is findable, and every other child is kept. |
| Domain.RemoveChild | src/NetSphere/Domain.cpp:32-46 | Succeeds exactly for the administrator with a non-empty id that is a child. Failures come in this order: admin check, empty id, absent id. On success exactly that key is erased, the count drops by one, and the other children are kept. |
| Domain.ValidateDomain | src/NetSphere/Domain.cpp:9-17 | A domain passes exactly when the id and the administrator are non-empty. The id is checked first, and both failures are ValidationException. |
| Domain.Domain.New | src/NetSphere/Domain.cpp:9-17 | Construction fails exactly as `ValidateDomain` does. Otherwise the new domain has the given id and administrator, no children, and type "Domain". |
| Domain.Domain.constructor | src/NetSphere/Domain.cpp:9-17 | A constructed domain is valid and empty. |
| Domain.Domain.AddEntity | src/NetSphere/Domain.cpp:19-30 | The domain's map becomes what `AddChild` gives. On failure it throws `AddChild`'s error and the map is untouched. Children stay keyed by their ids. |
| Domain.Domain.RemoveEntity | src/NetSphere/Domain.cpp:32-46 | The domain's map becomes what `RemoveChild` gives. On failure it throws `RemoveChild`'s error and the map is untouched. |
| Domain.Domain.FindEntity | src/NetSphere/Domain.cpp:48-58 | Finds exactly the ids that are keys of the child map, and what it returns carries the id looked up. The empty id is never a key, so it gives null. |
| Domain.Domain.GetAdminId | src/NetSphere/Domain.cpp:60-62 | The administrator is never empty and is the one user the admin check lets through. |
| Domain.Domain.EntityCount | src/NetSphere/Domain.cpp:64-66 | The count is the size of the map `getAllEntities` returns, and it is 0 exactly when that map is empty. |
| Domain.Domain.GetAllEntities | src/NetSphere/Domain.cpp:68-70 | In a valid domain every key is a non-empty id, the child under it carries that id, and `findEntity` returns that child. |
| Domain.Domain.AsEntity | src/NetSphere/Domain.h:25-28 | The value stored in a parent carries the domain's id, administrator and children. |
| Domain.AtMostOneChildPerId | src/NetSphere/Domain.h:28 | Two children of one domain with the same id are the same key. |
| Domain.AddThenRemoveRestores | src/NetSphere/Domain.cpp:19-46 | Adding a new entity and then removing it, both as administrator, restores the children. |
| DomainTree.Replace | src/NetSphere/CorporateNetwork.cpp:25 | Updating the domain found at a path changes that node only. The domains on the way keep their ids, administrators and other children. |
| DomainTree.DomainAtOnlyMatch | src/NetSphere/CorporateNetwork.cpp:97-113 | When the root does not match and the only domain below it with the searched id is a direct child of the root, every position the search may report is that child's key. |
| DomainTree.ParentAtOnlyMatch | src/NetSphere/CorporateNetwork.cpp:115-131 | When only the root holds the id as a direct child, every position the search may report is the root. |
| DomainTree.CollectedFindsEntity | src/NetSphere/CorporateNetwork.cpp:78-95 | After collecting an entity, every id in its subtree is in the index. The entity is what its own id maps to exactly when that id does not repeat below it. |
| DomainTree.AddKeepsCovers | src/NetSphere/CorporateNetwork.cpp:18-32 | If every id in the tree was in the index, that still holds after adding a child to a domain and collecting the child. |
| DomainTree.RemoveKeepsCoversIff | src/NetSphere/CorporateNetwork.cpp:34-51 | After erasing a child and its index entry, every id in the tree is still in the index exactly when the removed id no longer occurs in the tree. |
| CorporateNetwork.CorporateNetwork.constructor | src/NetSphere/CorporateNetwork.cpp:9-12 | The root is an empty domain "root_domain" with the given administrator, and the index holds exactly the root. |
| CorporateNetwork.CorporateNetwork.New | src/NetSphere/CorporateNetwork.cpp:9-12 | Construction fails exactly for an empty administrator, with the root domain's ValidationException. Otherwise the index holds exactly the root. |
| CorporateNetwork.CorporateNetwork.GetRootDomain | src/NetSphere/CorporateNetwork.cpp:14-16 | The root is a domain with id "root_domain" and a non-empty administrator. |
| CorporateNetwork.CorporateNetwork.FindEntity | src/NetSphere/CorporateNetwork.cpp:53-59 | Finds exactly the ids in the index, and what it returns has that id. An absent id gives null. |
| CorporateNetwork.CorporateNetwork.AddEntityToDomain | src/NetSphere/CorporateNetwork.cpp:18-32 | An empty domain id (and "root_domain") targets the root. A domain id that no domain in the tree has fails with DomainOperation. Otherwise the target's `addEntity` decides, and its error propagates. On success the target changes as `AddChild` says and the entity's subtree is collected into the index. Any failure changes nothing, and coverage of the tree by the index is preserved. |
| CorporateNetwork.CorporateNetwork.RemoveEntity | src/NetSphere/CorporateNetwork.cpp:34-51 | An id not in the index fails with DomainOperation. So does an id that no domain holds as a direct child. Otherwise the parent's `removeEntity` decides, and it succeeds exactly for that parent's administrator. On success the parent changes as `RemoveChild` says and exactly that index entry is erased. Any failure changes nothing. Coverage is kept exactly when the id no longer occurs in the tree. |
| CorporateNetwork.CorporateNetwork.FindDomainRecursive | src/NetSphere/CorporateNetwork.cpp:97-113 | Finds a domain exactly when some domain reachable through domains has the id, and the reported position holds such a domain. When the start domain matches, it is returned (pre-order), and no domain above the reported one on its path has the id. |
| CorporateNetwork.CorporateNetwork.FindDomainContainingEntity | src/NetSphere/CorporateNetwork.cpp:115-131 | Finds a parent exactly when some domain in the subtree has the id as a direct child, and the reported position holds such a domain. When the start domain qualifies, it is returned, and no domain above the reported one on its path has the id as a child. |
| CorporateNetwork.CorporateNetwork.CollectAllEntities | src/NetSphere/CorporateNetwork.cpp:78-95 | Every id in the domain's subtree becomes a key that maps to a node of that subtree with no node of the same id below it, since a node is written before its children are visited. Every other entry is kept. Entries stay keyed by their ids. |
| CorporateNetwork.DuplicateIdElsewhereAccepted | src/NetSphere/CorporateNetwork.cpp:25-26 | An id that already exists deeper in the tree is accepted at the root, and its index entry is overwritten by the newcomer. |
| CorporateNetwork.RemoveOfDuplicateLosesIndexEntry | src/NetSphere/CorporateNetwork.cpp:47-50 | With one id under two sub-domains, the parent search may report either one. Removing the id from the reported one leaves it in the tree, under the other, but not in the index. |
| CorporateNetwork.SubDomainFoundAtItsKey | src/NetSphere/CorporateNetwork.cpp:97-113 | In a root with one empty sub-domain, the search for that sub-domain can only report its own key. |
| CorporateNetwork.SubDomainParentIsRoot | src/NetSphere/CorporateNetwork.cpp:115-131 | In that tree, the only domain holding the sub-domain as a child is the root. |
| CorporateNetwork.AddSubDomainStep | tests/NetSphereTests/CorporateNetworkTests.cpp:43-45 | Adding the sub-domain to the root of a fresh network succeeds and puts it in the tree and the index. |
| CorporateNetwork.AddWorkstationStep | tests/NetSphereTests/CorporateNetworkTests.cpp:47-52 | Adding the workstation to the sub-domain as its administrator succeeds, and `findEntity("ws1")` then finds it. |
| CorporateNetwork.RemoveSubDomainStep | src/NetSphere/CorporateNetwork.cpp:47-50 | Removing the sub-domain empties the root but erases only the sub-domain's own index entry. |
| CorporateNetwork.OrphanAfterSubDomainRemoval | src/NetSphere/CorporateNetwork.cpp:34-51 | After the sub-domain is removed, its workstation is still found through the index. Removing the workstation then fails, because no domain holds it. |

## Left out

- Printing is not modelled: `printInfo`, `printDetailedInfo`, `printDomainInfo`, `printNetworkInfo` and the locale setup are console output only.
- `main.cpp`, the documentation, the C wrapper `NetSphereWrapper` and the Python GUI and loader are not modelled. They are a demo, text, or adapters over the core.
- DataStorage capacity is not modelled: `operator+=`, `operator-=`, `operator=(double)`, `validateSize` and the size getters work on `double`.
- `isUserTrusted` and `getFreeSize` are declared but have no definition in the code, so they are not modelled.
- `DataStorage::getType` is declared (`DataStorage.h:62`) but has no definition either. The name "DataStorage" that `Entities.TypeName` gives storages is taken from what `DataStorageTests.cpp:23` and `CorporateNetworkTests.cpp:76` expect.
- The test expectations that the code does not implement are not modelled. These are errors on empty, duplicate or unknown trusted users, and DeviceOperationException on capacity errors.
- `NetworkEntity.h` is not part of this model. Only a stored `id`, `getId()` and `getType()` are assumed of it.
- Shared ownership is not modelled. Entities are values, and the index stores a copy of each entity as it was when written. In the code the index holds `shared_ptr`s, so a domain's entry also shows children added to that domain later. The model's index entries for domains can therefore lack later children. Id lookups and every property stated here depend only on ids.
- Pointer aliasing is not modelled. Inserting the same object into two domains, or into its own subtree, cannot be expressed with values.
- Traversal order is not modelled. The searches and the collection visit the children of an `unordered_map` in an unspecified order. The model picks any unvisited child and proves results for every order. Which of several matching domains is found is left open. When an id repeats inside a collected subtree on nodes that are not above one another, which of them the id maps to is left open too. A node above another of the same id never wins, whatever the order.
- The null-domain checks at the start of `collectAllEntities`, `findDomainRecursive` and `findDomainContainingEntity` are not modelled. They are unreachable, because every caller passes the root or a child already known to be a domain.
- The null `entity` in `addEntityToDomain` is modelled as `None`. `Domain::addEntity` rejects it before `entity->getId()` runs.
- `Workstation::printInfo`'s time formatting uses the local clock and time zone, so it is not modelled. `time_t` is a signed 64-bit integer.
- Device ids are measured in bytes of their UTF-8 encoding, as `std::string::length()` counts them. Any non-ASCII id is rejected by the character check in any case.
- Ids are documented as unique ("Уникальный строковый идентификатор", `Device.h:66`, `Domain.h:59`). The model follows the code instead: `Domain::addEntity` checks only the target's direct children, so the same id can occur in several places in the tree.
- Errors as the code raises them:
  - An id that is in the index but has no parent domain is reported as an ordinary DomainOperationException with its own text (`CorporateNetwork.cpp:41-44`). There is no separate failure kind for it.
  - An empty workstation user is a `std::invalid_argument` (`Workstation.h:30-34`), not a ValidationException.

## Findings

| source | as written | input that shows it | evidently intended | confidence | as-written member | corrected member |
|---|---|---|---|---|---|---|
| src/NetSphere/DataStorage.cpp:15-17 | The `DataStorage` constructor initialises `id` and `macAddress` itself and never constructs its `Device` base with them. So the id and MAC checks that `Device` runs, and that the tests expect, are skipped. As written it does not even compile, because `Device` has no default constructor and base members cannot be initialised from a derived class's initialiser list. | `DataStorage("", "invalid_mac", 1000.0)` would be accepted. `DeviceTests.cpp:19-40` expects a ValidationException. | Construct the base as `Device(id, mac)`, as `Workstation` and `Printer` do, so that invalid ids and MACs throw. | not executed | DataStorage.StorageAsWrittenSkipsValidation | DataStorage.NewStorage |
