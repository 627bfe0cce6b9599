/**
 * A user's workstation (Workstation.h, Workstation.cpp): a device with the
 * user it is assigned to and the time it was last powered on, which a setter
 * overwrites in place.
 */
module Workstation {
  import opened Wrappers
  import opened NetworkExceptions
  import opened Device
  import opened Entities

  const EmptyUserText: string := "Идентификатор пользователя не может быть пустым"

  /** `validateUserId`: an empty user is a `std::invalid_argument`, not a ValidationException. */
  function ValidateUserId(user: string): (r: Outcome<NetworkError>)
    ensures r.Pass? <==> user != ""
    ensures r.Fail? ==> r.error.InvalidArgument? && !IsNetworkException(r.error)
  {
    if user == "" then Fail(InvalidArgument(EmptyUserText)) else Pass
  }

  /**
   * The checks of the `Workstation` constructor: the `Device` base is built
   * first, so an id or MAC error takes precedence over an empty user.
   */
  function CheckWorkstation(id: string, mac: string, user: string): (r: Outcome<NetworkError>)
    ensures r.Pass? <==> IsValidId(id) && IsValidMacAddress(mac) && user != ""
    ensures !(IsValidId(id) && IsValidMacAddress(mac)) ==> r == ValidateDevice(id, mac) && r.error.Validation?
    ensures IsValidId(id) && IsValidMacAddress(mac) && user == "" ==> r == Fail(InvalidArgument(EmptyUserText))
  {
    match ValidateDevice(id, mac)
    case Fail(e) => Fail(e)
    case Pass => ValidateUserId(user)
  }

  class Workstation {
    const id: string
    const macAddress: string
    const userId: string
    var lastPowerOnTime: TimeT

    /** Every workstation that exists passed the constructor's checks. */
    ghost predicate Valid() {
      CheckWorkstation(id, macAddress, userId).Pass?
    }

    constructor (id: string, mac: string, user: string, powerOnTime: TimeT)
      requires CheckWorkstation(id, mac, user).Pass?
      ensures Valid()
      ensures this.id == id && macAddress == mac && userId == user && lastPowerOnTime == powerOnTime
    {
      this.id := id;
      macAddress := mac;
      userId := user;
      lastPowerOnTime := powerOnTime;
    }

    /** `new Workstation(id, mac, user, powerOnTime)`, which either throws or yields a fresh object holding exactly the arguments. */
    static method New(id: string, mac: string, user: string, powerOnTime: TimeT) returns (r: Result<Workstation, NetworkError>)
      ensures r.Failure? <==> CheckWorkstation(id, mac, user).Fail?
      ensures r.Failure? ==> CheckWorkstation(id, mac, user) == Fail(r.error)
      ensures r.Success? ==> fresh(r.value) && r.value.Valid()
      ensures r.Success? ==> r.value.id == id && r.value.macAddress == mac && r.value.userId == user
      ensures r.Success? ==> r.value.lastPowerOnTime == powerOnTime
    {
      match CheckWorkstation(id, mac, user)
      case Fail(e) =>
        r := Failure(e);
      case Pass =>
        var w := new Workstation(id, mac, user, powerOnTime);
        r := Success(w);
    }

    /** `getUserId`: the user given at construction, never empty. */
    function GetUserId(): (u: string)
      requires Valid()
      ensures u != "" && ValidateUserId(u).Pass?
    {
      userId
    }

    /** `getLastPowerOnTime`: the time the stored entity carries. */
    function GetLastPowerOnTime(): (t: TimeT)
      reads this
      ensures t == AsEntity().lastPowerOnTime
    {
      lastPowerOnTime
    }

    /** `updatePowerOnTime`: replaces the stored time; id, MAC and user are constants. */
    method UpdatePowerOnTime(newTime: TimeT)
      modifies this
      ensures GetLastPowerOnTime() == newTime
      ensures AsEntity() == WorkstationEntity(id, macAddress, userId, newTime)
    {
      lastPowerOnTime := newTime;
    }

    /** The value this object contributes when it is stored in a domain. */
    function AsEntity(): (e: Entity)
      reads this
      ensures e.WorkstationEntity? && TypeName(e) == "Workstation"
      ensures e.id == id && e.macAddress == macAddress && e.userId == userId && e.lastPowerOnTime == lastPowerOnTime
    {
      WorkstationEntity(id, macAddress, userId, lastPowerOnTime)
    }
  }
}
