/**
 * The closed family of errors the core throws (NetworkExceptions.h), plus the
 * standard `std::invalid_argument` that Workstation throws for an empty user.
 * Each NetworkException subclass builds its `what()` text as a fixed Russian
 * prefix followed by the caller's text; the base class keeps the text as given.
 */
module NetworkExceptions {

  datatype NetworkError =
    | NetworkException(text: string)   // the base class, thrown as is
    | AccessDenied(text: string)       // AccessDeniedException
    | Validation(text: string)         // ValidationException
    | DeviceOperation(text: string)    // DeviceOperationException
    | DomainOperation(text: string)    // DomainOperationException
    | InvalidArgument(text: string)    // std::invalid_argument, outside the NetworkException family

  const AccessDeniedPrefix: string := "Ошибка доступа: "
  const ValidationPrefix: string := "Ошибка валидации: "
  const DeviceOperationPrefix: string := "Ошибка операции с устройством: "
  const DomainOperationPrefix: string := "Ошибка операции с доменом: "

  /** Whether a handler for `NetworkException` catches this error. */
  predicate IsNetworkException(e: NetworkError) {
    !e.InvalidArgument?
  }

  /** The four subclasses whose message carries a prefix. */
  predicate IsPrefixed(e: NetworkError) {
    e.AccessDenied? || e.Validation? || e.DeviceOperation? || e.DomainOperation?
  }

  /** The fixed prefix each exception class puts before the caller's text. */
  function Prefix(e: NetworkError): string {
    match e
    case NetworkException(_) => ""
    case AccessDenied(_) => AccessDeniedPrefix
    case Validation(_) => ValidationPrefix
    case DeviceOperation(_) => DeviceOperationPrefix
    case DomainOperation(_) => DomainOperationPrefix
    case InvalidArgument(_) => ""
  }

  /** The text `what()` returns. */
  function What(e: NetworkError): (m: string)
    ensures |m| >= |e.text| && m[|m| - |e.text|..] == e.text
    ensures !IsPrefixed(e) ==> m == e.text
    ensures IsPrefixed(e) ==> |m| > |e.text| && m[..|m| - |e.text|] == Prefix(e)
  {
    var m := Prefix(e) + e.text;
    assert m[|Prefix(e)|..] == e.text;
    assert m[..|Prefix(e)|] == Prefix(e);
    m
  }

  /** Within one exception class, the message determines the caller's text. */
  lemma WhatDeterminesText(e1: NetworkError, e2: NetworkError)
    requires Prefix(e1) == Prefix(e2) && What(e1) == What(e2)
    ensures e1.text == e2.text
  {
    var n := |Prefix(e1)|;
    calc {
      e1.text;
      (Prefix(e1) + e1.text)[n..];
      (Prefix(e2) + e2.text)[n..];
      e2.text;
    }
  }

  /** Messages of two different prefixed classes never coincide, whatever the texts. */
  lemma PrefixedClassesDistinguishable(e1: NetworkError, e2: NetworkError)
    requires IsPrefixed(e1) && IsPrefixed(e2) && Prefix(e1) != Prefix(e2)
    ensures What(e1) != What(e2)
  {
    var m1, m2 := Prefix(e1) + e1.text, Prefix(e2) + e2.text;
    if (e1.DeviceOperation? && e2.DomainOperation?) || (e1.DomainOperation? && e2.DeviceOperation?) {
      assert m1[18] != m2[18];
    } else {
      assert m1[7] != m2[7];
    }
  }
}
