/**
 * The entities the network stores, as one tagged variant with a shared `id`.
 * A domain holds its direct children in a map keyed by child id; the leaf
 * kinds carry the fields their classes store.
 */
module Entities {

  /** `time_t`: a signed 64-bit count of seconds since the Unix epoch. */
  newtype TimeT = x: int | -0x8000_0000_0000_0000 <= x < 0x8000_0000_0000_0000

  datatype Entity =
    | DomainEntity(id: string, adminId: string, entities: map<string, Entity>)
    | StorageEntity(id: string, macAddress: string, trustedUsers: seq<string>)
    | WorkstationEntity(id: string, macAddress: string, userId: string, lastPowerOnTime: TimeT)
    | PrinterEntity(id: string, macAddress: string)

  /** The virtual `getType()` of each class; each name identifies exactly one kind. */
  function TypeName(e: Entity): (t: string)
    ensures t == "Domain" <==> e.DomainEntity?
    ensures t == "DataStorage" <==> e.StorageEntity?
    ensures t == "Workstation" <==> e.WorkstationEntity?
    ensures t == "Printer" <==> e.PrinterEntity?
  {
    match e
    case DomainEntity(_, _, _) => "Domain"
    case StorageEntity(_, _, _) => "DataStorage"
    case WorkstationEntity(_, _, _, _) => "Workstation"
    case PrinterEntity(_, _) => "Printer"
  }
}
