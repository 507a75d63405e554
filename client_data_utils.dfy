/** Phone numbers between the client entity and its DTOs. The entity keeps
    the ten national digits; a DTO carries `+7` followed by those digits, and
    requests may also send the domestic form `8` followed by ten digits. */
module ClientDataUtils {
  import opened Errors

  /** What a formatting call ends in: a phone, the service exception the
      validator raises, or the `StringIndexOutOfBoundsException` of
      `substring` on a string shorter than ten characters. */
  datatype PhoneOutcome = Formatted(phone: string) | Raised(code: ErrorCode) | SubstringOutOfRange

  /** The length of the national part of a phone. */
  const NationalDigits := 10

  /** `\d` without the Unicode flag: an ASCII digit. */
  predicate IsDigit(c: char) {
    '0' <= c <= '9'
  }

  predicate AllDigits(s: string) {
    forall i :: 0 <= i < |s| ==> IsDigit(s[i])
  }

  /** A full match of `DTO_PHONE_REGEXP`, `^(\+7|8)\d{10}$`: `+7` or `8`,
      then exactly ten digits. */
  predicate MatchesDtoPhonePattern(s: string) {
    (|s| == 2 + NationalDigits && s[..2] == "+7" && AllDigits(s[2..])) ||
    (|s| == 1 + NationalDigits && s[0] == '8' && AllDigits(s[1..]))
  }

  // ---------------------------------------------------------------------
  // As written

  /** `validateDTOPhoneFormat` as written: it raises INTERNAL_SERVER_ERROR
      exactly when the phone MATCHES the pattern. */
  function ValidateDtoPhoneFormat(s: string): (r: Outcome)
    ensures r.Fail? <==> MatchesDtoPhonePattern(s)
    ensures r.Fail? ==> r.error == InternalServerError
  {
    if MatchesDtoPhonePattern(s) then Fail(InternalServerError) else Pass
  }

  /** `formatPhoneForDTO`: prefixes `+7` and validates the prefixed string. */
  function FormatPhoneForDto(entityPhone: string): (r: PhoneOutcome)
    ensures r.Formatted? || r == Raised(InternalServerError)
    ensures r.Formatted? <==> !MatchesDtoPhonePattern("+7" + entityPhone)
    ensures r.Formatted? ==> |r.phone| >= 2 && r.phone[..2] == "+7" && r.phone[2..] == entityPhone
  {
    var dtoPhone := "+7" + entityPhone;
    match ValidateDtoPhoneFormat(dtoPhone)
    case Fail(e) => Raised(e)
    case Pass => Formatted(dtoPhone)
  }

  /** `formatPhoneForEntity`: validates, then keeps the last ten characters. */
  function FormatPhoneForEntity(dtoPhone: string): (r: PhoneOutcome)
    ensures MatchesDtoPhonePattern(dtoPhone) <==> r == Raised(InternalServerError)
    ensures r == SubstringOutOfRange <==> !MatchesDtoPhonePattern(dtoPhone) && |dtoPhone| < NationalDigits
    ensures r.Formatted? ==> |r.phone| == NationalDigits &&
                             dtoPhone == dtoPhone[..|dtoPhone| - NationalDigits] + r.phone
  {
    match ValidateDtoPhoneFormat(dtoPhone)
    case Fail(e) => Raised(e)
    case Pass =>
      if |dtoPhone| < NationalDigits then SubstringOutOfRange
      else Formatted(dtoPhone[|dtoPhone| - NationalDigits..])
  }

  /** As written, every well-formed entity phone (ten digits) makes
      `formatPhoneForDTO` raise, because `+7` and ten digits is exactly what
      the pattern accepts. */
  lemma DtoFormattingRejectsEveryEntityPhone(entityPhone: string)
    requires |entityPhone| == NationalDigits && AllDigits(entityPhone)
    ensures FormatPhoneForDto(entityPhone) == Raised(InternalServerError)
  {
    var s := "+7" + entityPhone;
    assert s[..2] == "+7" && s[2..] == entityPhone;
  }

  /** As written, every DTO phone that passes request validation makes
      `formatPhoneForEntity` raise. */
  lemma EntityFormattingRejectsEveryDtoPhone(dtoPhone: string)
    requires MatchesDtoPhonePattern(dtoPhone)
    ensures FormatPhoneForEntity(dtoPhone) == Raised(InternalServerError)
  {
  }

  /** A concrete instance: the entity phone `9161234567`. */
  lemma DtoFormattingRejectsSample()
    ensures FormatPhoneForDto("9161234567") == Raised(InternalServerError)
  {
    DtoFormattingRejectsEveryEntityPhone("9161234567");
  }

  // ---------------------------------------------------------------------
  // Corrected: the validator raises when the phone does NOT match

  function ValidateDtoPhoneFormatFixed(s: string): (r: Outcome)
    ensures r.Pass? <==> MatchesDtoPhonePattern(s)
    ensures r.Fail? ==> r.error == InternalServerError
  {
    if MatchesDtoPhonePattern(s) then Pass else Fail(InternalServerError)
  }

  function FormatPhoneForDtoFixed(entityPhone: string): (r: PhoneOutcome)
    ensures r.Formatted? || r == Raised(InternalServerError)
    ensures r.Formatted? <==> MatchesDtoPhonePattern("+7" + entityPhone)
    ensures r.Formatted? ==> |r.phone| >= 2 && r.phone[..2] == "+7" && r.phone[2..] == entityPhone
  {
    var dtoPhone := "+7" + entityPhone;
    match ValidateDtoPhoneFormatFixed(dtoPhone)
    case Fail(e) => Raised(e)
    case Pass => Formatted(dtoPhone)
  }

  function FormatPhoneForEntityFixed(dtoPhone: string): (r: PhoneOutcome)
    ensures r.Formatted? || r == Raised(InternalServerError)
    ensures r.Formatted? <==> MatchesDtoPhonePattern(dtoPhone)
    ensures r.Formatted? ==> |r.phone| == NationalDigits && AllDigits(r.phone) &&
                             dtoPhone == dtoPhone[..|dtoPhone| - NationalDigits] + r.phone
  {
    match ValidateDtoPhoneFormatFixed(dtoPhone)
    case Fail(e) => Raised(e)
    case Pass =>
      if |dtoPhone| < NationalDigits then SubstringOutOfRange
      else Formatted(dtoPhone[|dtoPhone| - NationalDigits..])
  }

  /** The DTO form of a phone is `+7` and ten digits exactly when the entity
      phone is ten digits. */
  lemma DtoFormattingAcceptsExactlyEntityPhones(entityPhone: string)
    ensures FormatPhoneForDtoFixed(entityPhone).Formatted? <==>
            |entityPhone| == NationalDigits && AllDigits(entityPhone)
  {
    var s := "+7" + entityPhone;
    assert s[..2] == "+7" && s[2..] == entityPhone;
    assert s[0] == '+';
  }

  /** Entity to DTO and back gives the entity phone again. */
  lemma EntityPhoneRoundTrip(entityPhone: string)
    requires |entityPhone| == NationalDigits && AllDigits(entityPhone)
    ensures FormatPhoneForDtoFixed(entityPhone).Formatted?
    ensures FormatPhoneForEntityFixed(FormatPhoneForDtoFixed(entityPhone).phone) == Formatted(entityPhone)
  {
    DtoFormattingAcceptsExactlyEntityPhones(entityPhone);
    var s := "+7" + entityPhone;
    assert s[|s| - NationalDigits..] == entityPhone;
  }

  /** DTO to entity and back normalises either accepted form to `+7` and the
      same ten digits. */
  lemma DtoPhoneRoundTrip(dtoPhone: string)
    requires MatchesDtoPhonePattern(dtoPhone)
    ensures var e := FormatPhoneForEntityFixed(dtoPhone);
            e.Formatted? && FormatPhoneForDtoFixed(e.phone) ==
            Formatted("+7" + dtoPhone[|dtoPhone| - NationalDigits..])
  {
    var e := FormatPhoneForEntityFixed(dtoPhone).phone;
    DtoFormattingAcceptsExactlyEntityPhones(e);
  }

  /** A DTO phone already in the international form comes back unchanged. */
  lemma InternationalDtoPhoneRoundTrip(dtoPhone: string)
    requires MatchesDtoPhonePattern(dtoPhone) && dtoPhone[0] == '+'
    ensures FormatPhoneForDtoFixed(FormatPhoneForEntityFixed(dtoPhone).phone) == Formatted(dtoPhone)
  {
    DtoPhoneRoundTrip(dtoPhone);
    assert dtoPhone == dtoPhone[..2] + dtoPhone[2..];
  }
}
