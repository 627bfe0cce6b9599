/**
 * A data storage device (DataStorage.h, DataStorage.cpp): a device with a
 * list of trusted users that is appended to and filtered in place, and
 * comparison operators that look only at the id.
 */
module DataStorage {
  import opened Wrappers
  import opened NetworkExceptions
  import opened Device
  import opened Entities

  /** `users` with every occurrence of `user` erased, as `erase(remove(...), end())` leaves it. */
  function Without(users: seq<string>, user: string): (r: seq<string>)
    ensures user !in r
    ensures forall x :: x != user ==> multiset(r)[x] == multiset(users)[x]
    ensures user !in users ==> r == users
    ensures |r| <= |users|
  {
    if users == [] then []
    else
      var rest := Without(users[1..], user);
      assert users == [users[0]] + users[1..];
      if users[0] == user then rest else [users[0]] + rest
  }

  /** Erasing distributes over concatenation, so the survivors keep their relative order. */
  lemma {:induction false} WithoutKeepsOrder(a: seq<string>, b: seq<string>, user: string)
    ensures Without(a + b, user) == Without(a, user) + Without(b, user)
  {
    if a != [] {
      assert (a + b)[1..] == a[1..] + b;
      WithoutKeepsOrder(a[1..], b, user);
    } else {
      assert a + b == b;
    }
  }

  /** `std::string::operator<`: lexicographic, a proper prefix coming first; UTF-8 byte order is code point order. */
  predicate LexLess(a: string, b: string) {
    if a == [] then b != []
    else if b == [] then false
    else if a[0] != b[0] then a[0] < b[0]
    else LexLess(a[1..], b[1..])
  }

  lemma {:induction false} LexLessIrreflexive(a: string)
    ensures !LexLess(a, a)
  {
    if a != [] {
      LexLessIrreflexive(a[1..]);
    }
  }

  lemma {:induction false} LexLessTransitive(a: string, b: string, c: string)
    requires LexLess(a, b) && LexLess(b, c)
    ensures LexLess(a, c)
  {
    if a != [] && b != [] && c != [] && a[0] == b[0] && b[0] == c[0] {
      LexLessTransitive(a[1..], b[1..], c[1..]);
    }
  }

  lemma {:induction false} LexLessTrichotomy(a: string, b: string)
    ensures a == b || LexLess(a, b) || LexLess(b, a)
    ensures !(LexLess(a, b) && LexLess(b, a))
  {
    if a != [] && b != [] && a[0] == b[0] {
      LexLessTrichotomy(a[1..], b[1..]);
      if a[1..] == b[1..] {
        assert a == [a[0]] + a[1..] && b == [b[0]] + b[1..];
      }
    }
  }

  /**
   * The `DataStorage` constructor as DataStorage.cpp writes it: it stores id
   * and MAC directly and runs none of the `Device` checks.
   */
  function StorageAsWritten(id: string, mac: string): (e: Entity)
    ensures e.StorageEntity? && e.id == id && e.macAddress == mac && e.trustedUsers == []
  {
    StorageEntity(id, mac, [])
  }

  /** What that constructor lets through: a storage whose id and MAC fail the device checks. */
  lemma StorageAsWrittenSkipsValidation()
    ensures ValidateDevice("", "invalid_mac").Fail?
    ensures StorageAsWritten("", "invalid_mac").id == ""
    ensures !IsValidMacAddress(StorageAsWritten("", "invalid_mac").macAddress)
  {
    assert !MacLayout("invalid_mac", 17);
  }

  /**
   * The constructor as the class hierarchy intends it: the `Device` base
   * validates id and MAC first; a new storage trusts nobody.
   */
  function NewStorage(id: string, mac: string): (r: Result<Entity, NetworkError>)
    ensures r.Success? <==> IsValidId(id) && IsValidMacAddress(mac)
    ensures r.Failure? ==> ValidateDevice(id, mac) == Fail(r.error) && r.error.Validation?
    ensures r.Success? ==> r.value.StorageEntity? && r.value.id == id && r.value.macAddress == mac
    ensures r.Success? ==> r.value.trustedUsers == [] && TypeName(r.value) == "DataStorage"
  {
    match ValidateDevice(id, mac)
    case Fail(e) => Failure(e)
    case Pass => Success(StorageAsWritten(id, mac))
  }

  class DataStorage {
    const id: string
    const macAddress: string
    var trustedUsers: seq<string>

    ghost predicate Valid() {
      IsValidId(id) && IsValidMacAddress(macAddress)
    }

    constructor (id: string, mac: string)
      requires NewStorage(id, mac).Success?
      ensures Valid() && AsEntity() == NewStorage(id, mac).value
    {
      this.id := id;
      macAddress := mac;
      trustedUsers := [];
    }

    /** `new DataStorage(id, mac, size)`: throws as `NewStorage` does, or yields a fresh storage with no trusted users. */
    static method New(id: string, mac: string) returns (r: Result<DataStorage, NetworkError>)
      ensures r.Failure? <==> NewStorage(id, mac).Failure?
      ensures r.Failure? ==> r.error == NewStorage(id, mac).error
      ensures r.Success? ==> fresh(r.value) && r.value.Valid() && r.value.AsEntity() == NewStorage(id, mac).value
    {
      match NewStorage(id, mac)
      case Failure(e) =>
        r := Failure(e);
      case Success(_) =>
        var s := new DataStorage(id, mac);
        r := Success(s);
    }

    /** `addTrustedUser`: appends, duplicates and the empty name included. */
    method AddTrustedUser(user: string)
      modifies this
      ensures trustedUsers == old(trustedUsers) + [user]
    {
      trustedUsers := trustedUsers + [user];
    }

    /** `removeTrustedUser`: erases every occurrence; an absent user is no error. */
    method RemoveTrustedUser(user: string)
      modifies this
      ensures trustedUsers == Without(old(trustedUsers), user)
    {
      trustedUsers := Without(trustedUsers, user);
    }

    /** `getTrustedUsers`: the list as stored, which is also what the stored entity carries. */
    function GetTrustedUsers(): (users: seq<string>)
      reads this
      ensures users == AsEntity().trustedUsers
    {
      trustedUsers
    }

    /** `operator<`: compares the ids only, so it is asymmetric. */
    predicate Less(other: DataStorage)
      ensures Less(other) ==> !LexLess(other.id, id) && id != other.id
    {
      LexLessTrichotomy(id, other.id);
      LexLessIrreflexive(id);
      LexLess(id, other.id)
    }

    /** `operator==`: compares the ids only (MAC and capacity are ignored): neither storage is less than the other. */
    predicate Equal(other: DataStorage)
      ensures Equal(other) <==> !Less(other) && !other.Less(this)
    {
      LexLessTrichotomy(id, other.id);
      id == other.id
    }

    /** `operator!=`: compares the ids only, and is the complement of `==`. */
    predicate NotEqual(other: DataStorage)
      ensures NotEqual(other) <==> !Equal(other)
    {
      id != other.id
    }

    /** The value this object contributes when it is stored in a domain. */
    function AsEntity(): (e: Entity)
      reads this
      ensures e.StorageEntity? && e.id == id && e.macAddress == macAddress && e.trustedUsers == trustedUsers
    {
      StorageEntity(id, macAddress, trustedUsers)
    }
  }

  /**
   * The three operators order storages by id: for any two, exactly one of
   * `a < b`, `b < a`, `a == b` holds, `!=` is the negation of `==`, and `<` is
   * transitive.
   */
  lemma {:induction false} StorageOrderIsStrictTotal(a: DataStorage, b: DataStorage, c: DataStorage)
    ensures a.NotEqual(b) <==> !a.Equal(b)
    ensures a.Less(b) || b.Less(a) || a.Equal(b)
    ensures !(a.Less(b) && b.Less(a)) && !(a.Equal(b) && a.Less(b))
    ensures a.Less(b) && b.Less(c) ==> a.Less(c)
  {
    LexLessTrichotomy(a.id, b.id);
    LexLessIrreflexive(a.id);
    if a.Less(b) && b.Less(c) {
      LexLessTransitive(a.id, b.id, c.id);
    }
  }
}
