/** A network printer (Printer.h, Printer.cpp): a device with no state of its own. */
module Printer {
  import opened Wrappers
  import opened NetworkExceptions
  import opened Device
  import opened Entities

  /**
   * The `Printer` constructor: it only runs the `Device` checks, so it fails
   * exactly as they do and otherwise stores the id and MAC unchanged.
   */
  function NewPrinter(id: string, mac: string): (r: Result<Entity, NetworkError>)
    ensures r.Success? <==> IsValidId(id) && IsValidMacAddress(mac)
    ensures r.Failure? ==> ValidateDevice(id, mac) == Fail(r.error) && r.error.Validation?
    ensures r.Success? ==> r.value.PrinterEntity? && r.value.id == id && r.value.macAddress == mac
    ensures r.Success? ==> TypeName(r.value) == "Printer"
  {
    match ValidateDevice(id, mac)
    case Fail(e) => Failure(e)
    case Pass => Success(PrinterEntity(id, mac))
  }
}
