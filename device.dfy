/**
 * The validation every device runs on construction (Device.h): an id check
 * (non-empty, at most 50 bytes, only [a-zA-Z0-9_-]) and a MAC-address check
 * (six two-hex-digit groups, each of the first five followed by ':' or '-').
 */
module Device {
  import opened Wrappers
  import opened NetworkExceptions

  /** The longest id `validateId` accepts, counted by `std::string::length()`, i.e. in bytes. */
  const MaxIdLength: nat := 50

  const EmptyIdText: string := "Идентификатор устройства не может быть пустым"
  const LongIdText: string := "Идентификатор устройства слишком длинный (максимум 50 символов)"
  const BadIdCharsText: string := "Идентификатор устройства содержит недопустимые символы"

  function BadMacText(mac: string): string {
    "Неверный формат MAC-адреса: " + mac + " (ожидается формат XX:XX:XX:XX:XX:XX или XX-XX-XX-XX-XX-XX)"
  }

  predicate IsHexDigit(c: char) {
    ('0' <= c <= '9') || ('A' <= c <= 'F') || ('a' <= c <= 'f')
  }

  predicate IsMacSeparator(c: char) {
    c == ':' || c == '-'
  }

  predicate IsIdChar(c: char) {
    ('a' <= c <= 'z') || ('A' <= c <= 'Z') || ('0' <= c <= '9') || c == '_' || c == '-'
  }

  /** The number of bytes the UTF-8 encoding of `c` takes. */
  function Utf8Width(c: char): nat {
    if c as int < 0x80 then 1
    else if c as int < 0x800 then 2
    else if c as int < 0x1_0000 then 3
    else 4
  }

  /** `std::string::length()` of the UTF-8 encoding of `s`. */
  function Utf8Length(s: string): (n: nat)
    ensures n >= |s|
    ensures n == 0 <==> s == []
  {
    if s == [] then 0 else Utf8Width(s[0]) + Utf8Length(s[1..])
  }

  /** The regular expression `^[a-zA-Z0-9_-]+$`. */
  predicate MatchesIdPattern(id: string) {
    |id| > 0 && forall i :: 0 <= i < |id| ==> IsIdChar(id[i])
  }

  /** A valid device id: 1 to 50 characters, all from [A-Za-z0-9_-]. */
  predicate IsValidId(id: string) {
    0 < |id| <= MaxIdLength && forall i :: 0 <= i < |id| ==> IsIdChar(id[i])
  }

  lemma {:induction false} IdCharsAreSingleBytes(s: string)
    requires forall i :: 0 <= i < |s| ==> IsIdChar(s[i])
    ensures Utf8Length(s) == |s|
  {
    if s != [] {
      assert IsIdChar(s[0]);
      IdCharsAreSingleBytes(s[1..]);
    }
  }

  lemma ValidIdIsShort(id: string)
    ensures IsValidId(id) ==> Utf8Length(id) == |id| <= MaxIdLength
  {
    if IsValidId(id) {
      IdCharsAreSingleBytes(id);
    }
  }

  /**
   * `validateId`: empty, then too long (in bytes), then a character outside
   * the pattern, each a ValidationException with its own text.
   */
  function ValidateId(id: string): (r: Outcome<NetworkError>)
    ensures r.Pass? <==> IsValidId(id)
    ensures r.Fail? ==> r.error.Validation?
    ensures id == [] ==> r == Fail(Validation(EmptyIdText))
    ensures Utf8Length(id) > MaxIdLength ==> r == Fail(Validation(LongIdText))
    ensures 0 < Utf8Length(id) <= MaxIdLength && !IsValidId(id) ==> r == Fail(Validation(BadIdCharsText))
  {
    if id == [] then Fail(Validation(EmptyIdText))
    else if Utf8Length(id) > MaxIdLength then
      ValidIdIsShort(id);
      Fail(Validation(LongIdText))
    else if !MatchesIdPattern(id) then Fail(Validation(BadIdCharsText))
    else
      IdCharsAreSingleBytes(id);
      Pass
  }

  /** `n` groups of the regular expression `([0-9A-Fa-f]{2}[:-])`, then one final `[0-9A-Fa-f]{2}`. */
  predicate MacGroups(s: string, n: nat)
    decreases n
  {
    if n == 0 then |s| == 2 && IsHexDigit(s[0]) && IsHexDigit(s[1])
    else |s| >= 3 && IsHexDigit(s[0]) && IsHexDigit(s[1]) && IsMacSeparator(s[2]) && MacGroups(s[3..], n - 1)
  }

  /**
   * `isValidMacAddress`: false for the empty string, else a full match of
   * `^([0-9A-Fa-f]{2}[:-]){5}([0-9A-Fa-f]{2})$`. That is exactly a
   * 17-character `XX?XX?XX?XX?XX?XX` with each `?` ':' or '-'.
   */
  predicate IsValidMacAddress(mac: string)
    ensures IsValidMacAddress(mac) <==> MacLayout(mac, 17)
  {
    MacGroupsIsLayout(mac, 5);
    if mac == [] then false else MacGroups(mac, 5)
  }

  /** The position-wise reading of a MAC: separators at positions 2, 5, 8, ..., hex digits elsewhere. */
  predicate MacLayout(s: string, len: nat) {
    |s| == len && forall i :: 0 <= i < |s| ==> if i % 3 == 2 then IsMacSeparator(s[i]) else IsHexDigit(s[i])
  }

  lemma {:induction false} MacGroupsIsLayout(s: string, n: nat)
    ensures MacGroups(s, n) <==> MacLayout(s, 3 * n + 2)
    decreases n
  {
    if n > 0 && |s| >= 3 {
      var t := s[3..];
      MacGroupsIsLayout(t, n - 1);
      if MacLayout(s, 3 * n + 2) {
        forall i | 0 <= i < |t|
          ensures if i % 3 == 2 then IsMacSeparator(t[i]) else IsHexDigit(t[i])
        {
          assert t[i] == s[i + 3] && (i + 3) % 3 == i % 3;
        }
      }
      if MacGroups(s, n) {
        forall i | 3 <= i < |s|
          ensures if i % 3 == 2 then IsMacSeparator(s[i]) else IsHexDigit(s[i])
        {
          assert s[i] == t[i - 3] && (i - 3) % 3 == i % 3;
        }
      }
    }
  }

  /** A MAC whose five separators are checked one by one: a full address is accepted group by group. */
  lemma {:induction false} MacAcceptedByGroups(mac: string)
    requires |mac| == 17
    requires IsHexDigit(mac[0]) && IsHexDigit(mac[1]) && IsHexDigit(mac[3]) && IsHexDigit(mac[4])
    requires IsHexDigit(mac[6]) && IsHexDigit(mac[7]) && IsHexDigit(mac[9]) && IsHexDigit(mac[10])
    requires IsHexDigit(mac[12]) && IsHexDigit(mac[13]) && IsHexDigit(mac[15]) && IsHexDigit(mac[16])
    requires IsMacSeparator(mac[2]) && IsMacSeparator(mac[5]) && IsMacSeparator(mac[8])
    requires IsMacSeparator(mac[11]) && IsMacSeparator(mac[14])
    ensures IsValidMacAddress(mac)
  {
    assert MacGroups(mac[15..], 0);
    assert mac[12..][3..] == mac[15..];
    assert MacGroups(mac[12..], 1);
    assert mac[9..][3..] == mac[12..];
    assert MacGroups(mac[9..], 2);
    assert mac[6..][3..] == mac[9..];
    assert MacGroups(mac[6..], 3);
    assert mac[3..][3..] == mac[6..];
    assert MacGroups(mac[3..], 4);
  }

  /**
   * The two forms the documentation of `isValidMacAddress` names (colons, as
   * NetSphere's tests use, and dashes), and separators mixed within one address.
   */
  lemma MacExamplesAccepted()
    ensures IsValidMacAddress("00:1A:2B:3C:4D:5E")
    ensures IsValidMacAddress("00-1A-2B-3C-4D-5E")
    ensures IsValidMacAddress("00:1A-2B:3C-4D:5E")
  {
    MacAcceptedByGroups("00:1A:2B:3C:4D:5E");
    MacAcceptedByGroups("00-1A-2B-3C-4D-5E");
    MacAcceptedByGroups("00:1A-2B:3C-4D:5E");
  }

  /** Addresses NetSphere's tests reject: five groups, no groups at all, and the empty string. */
  lemma MacExamplesRejected()
    ensures !IsValidMacAddress("00:1A:2B:3C:4D")
    ensures !IsValidMacAddress("invalid_mac")
    ensures !IsValidMacAddress("")
  {
    assert !MacLayout("00:1A:2B:3C:4D", 17);
    assert !MacLayout("invalid_mac", 17);
  }

  /**
   * The checks of the `Device` constructor: the id first, then the MAC, both
   * ValidationException. Success means the fields are stored as given.
   */
  function ValidateDevice(id: string, mac: string): (r: Outcome<NetworkError>)
    ensures r.Pass? <==> IsValidId(id) && IsValidMacAddress(mac)
    ensures r.Fail? ==> r.error.Validation?
    ensures !IsValidId(id) ==> r == ValidateId(id)
    ensures IsValidId(id) && !IsValidMacAddress(mac) ==> r == Fail(Validation(BadMacText(mac)))
  {
    match ValidateId(id)
    case Fail(e) => Fail(e)
    case Pass => if !IsValidMacAddress(mac) then Fail(Validation(BadMacText(mac))) else Pass
  }
}
