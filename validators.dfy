/**
 * The part of FluentValidation the validators use: a property's rule chain,
 * evaluated with the default `Continue` cascade, so that every rule of the chain
 * that fails adds one failure for the property.
 */
module FluentRules {
  import opened Wrappers

  /** The built-in rules appearing in the validators. */
  datatype Rule =
    | GreaterThan(bound: int)
    | GreaterThanOrEqualTo(bound: int)
    | NotEmpty
    | MaximumLength(max: nat)
    | MinimumLength(min: nat)
    | PrecisionScale(precision: nat, scale: nat)
    | Must

  /** A failure's message: the rule's built-in text, or one given with `WithMessage`. */
  datatype Message = DefaultMessage(rule: Rule) | WithMessage(text: string)

  /**
   * The `errors` of a validation problem: each failing property, by name, with the
   * messages of its failing rules in rule order. A property with no failure is
   * not a key.
   */
  type Errors = map<string, seq<Message>>

  /** One rule of a chain: no message when it holds, its message otherwise. */
  function Check(ok: bool, message: Message): (r: seq<Message>)
    ensures ok <==> r == []
    ensures !ok ==> r == [message]
  {
    if ok then [] else [message]
  }

  /** Adds a property's chain to the errors; a chain without failures adds nothing. */
  function Record(errors: Errors, property: string, messages: seq<Message>): (r: Errors)
    requires property !in errors
    ensures property in r <==> messages != []
    ensures property in r ==> r[property] == messages
    ensures forall p :: p != property ==> (p in r <==> p in errors)
    ensures forall p :: p != property && p in errors ==> r[p] == errors[p]
  {
    if messages == [] then errors else errors[property := messages]
  }

  /** The messages recorded against a property, none when it is not a key. */
  function MessagesFor(errors: Errors, property: string): seq<Message> {
    if property in errors then errors[property] else []
  }
}

/** `EodReportDtoValidator`: the rules on an EodReportDto, the body `POST /api/test-validation` checks. */
module EodReportDtoValidator {
  import opened Text
  import opened Dates
  import opened Decimals
  import opened Models
  import opened FluentRules

  const StoreIdMessage := "StoreId must be greater than 0."
  const BizDateMessage := "BizDate must be in yyyy-MM-dd format (yyyy-MM-dd)."
  const NetSalesMessage := "NetSales cannot be negative."
  const TicketsMessage := "Tickets cannot be negative."

  /** A blank string is never a date: a blank BizDate fails both of its rules. */
  lemma BlankIsNotDate(s: string)
    ensures IsBlank(s) ==> ParseExact(s).None?
  {
    if IsBlank(s) && |s| == 10 {
      assert IsWhiteSpace(s[4]);
    }
  }

  /**
   * BizDate: NotEmpty with its built-in text, then the exact `yyyy-MM-dd` parse
   * with its own; NetSales: not negative with its own text, then at most 18
   * digits of which 2 after the point, trailing zeros ignored.
   */
  function Validate(dto: EodReportDto): (r: Errors)
    ensures r.Keys <= {"StoreId", "BizDate", "NetSales", "Tickets"}
    ensures "StoreId" in r <==> dto.storeId <= 0
    ensures "StoreId" in r ==> r["StoreId"] == [WithMessage(StoreIdMessage)]
    ensures "BizDate" in r <==> ParseExact(dto.bizDate).None?
    ensures "BizDate" in r ==>
              r["BizDate"] == (if IsBlank(dto.bizDate) then [DefaultMessage(NotEmpty)] else []) + [WithMessage(BizDateMessage)]
    ensures "NetSales" in r <==> IsNegative(dto.netSales) || !FitsPrecisionScale(dto.netSales, 18, 2)
    ensures "NetSales" in r ==>
              r["NetSales"] == (if IsNegative(dto.netSales) then [WithMessage(NetSalesMessage)] else [])
                               + (if FitsPrecisionScale(dto.netSales, 18, 2) then [] else [DefaultMessage(PrecisionScale(18, 2))])
    ensures "Tickets" in r <==> dto.tickets < 0
    ensures "Tickets" in r ==> r["Tickets"] == [WithMessage(TicketsMessage)]
  {
    BlankIsNotDate(dto.bizDate);
    var e1 := Record(map[], "StoreId", Check(dto.storeId > 0, WithMessage(StoreIdMessage)));
    var e2 := Record(e1, "BizDate",
                Check(!IsBlank(dto.bizDate), DefaultMessage(NotEmpty))
                + Check(ParseExact(dto.bizDate).Some?, WithMessage(BizDateMessage)));
    var e3 := Record(e2, "NetSales",
                Check(!IsNegative(dto.netSales), WithMessage(NetSalesMessage))
                + Check(FitsPrecisionScale(dto.netSales, 18, 2), DefaultMessage(PrecisionScale(18, 2))));
    Record(e3, "Tickets", Check(dto.tickets >= 0, WithMessage(TicketsMessage)))
  }

  /**
   * Each property's messages depend on that property alone: two bodies that agree
   * on a property get the same messages for it.
   */
  lemma FieldsIndependent(a: EodReportDto, b: EodReportDto)
    ensures a.storeId == b.storeId ==> MessagesFor(Validate(a), "StoreId") == MessagesFor(Validate(b), "StoreId")
    ensures a.bizDate == b.bizDate ==> MessagesFor(Validate(a), "BizDate") == MessagesFor(Validate(b), "BizDate")
    ensures a.netSales == b.netSales ==> MessagesFor(Validate(a), "NetSales") == MessagesFor(Validate(b), "NetSales")
    ensures a.tickets == b.tickets ==> MessagesFor(Validate(a), "Tickets") == MessagesFor(Validate(b), "Tickets")
  {
  }

  /** A well-formed report body is accepted. */
  lemma AcceptsWellFormed()
    ensures Validate(EodReportDto(1, "2024-02-29", Decimal(12345, 2), 10)) == map[]
  {
    LeapDayAccepted();
    TwoFractionDigitsFit();
  }

  /** A negative NetSales is the only failure of an otherwise good body, with its own text. */
  lemma RejectsNegativeNetSales(dto: EodReportDto)
    requires dto.storeId > 0 && ParseExact(dto.bizDate).Some? && dto.tickets >= 0
    requires IsNegative(dto.netSales) && FitsPrecisionScale(dto.netSales, 18, 2)
    ensures Validate(dto).Keys == {"NetSales"}
    ensures Validate(dto)["NetSales"] == [WithMessage(NetSalesMessage)]
  {
  }

  /** A NetSales with three significant decimals fails the precision rule alone. */
  lemma RejectsThreeDecimals()
    ensures var r := Validate(EodReportDto(1, "2024-02-29", Decimal(1, 3), 10));
            r.Keys == {"NetSales"} && r["NetSales"] == [DefaultMessage(PrecisionScale(18, 2))]
  {
    LeapDayAccepted();
    ThreeFractionDigitsRejected();
  }
}

/** `EodReportValidator`: the rules on an EodReport row. */
module EodReportValidator {
  import opened Dates
  import opened Decimals
  import opened Models
  import opened FluentRules

  /** BizDate is checked twice against `default`: NotEmpty, then Must. */
  function Validate(report: EodReport): (r: Errors)
    ensures r.Keys <= {"StoreId", "NetSales", "BizDate"}
    ensures "StoreId" in r <==> report.storeId <= 0
    ensures "NetSales" in r <==> IsNegative(report.netSales)
    ensures "BizDate" in r <==> report.bizDate == Default
    ensures "BizDate" in r ==> r["BizDate"] == [DefaultMessage(NotEmpty), DefaultMessage(Must)]
  {
    var e1 := Record(map[], "StoreId", Check(report.storeId > 0, DefaultMessage(GreaterThan(0))));
    var e2 := Record(e1, "NetSales", Check(!IsNegative(report.netSales), DefaultMessage(GreaterThanOrEqualTo(0))));
    Record(e2, "BizDate",
      Check(report.bizDate != Default, DefaultMessage(NotEmpty)) + Check(report.bizDate != Default, DefaultMessage(Must)))
  }
}

/** `EmployeeDtoValidator`: the rules on the body of POST and PUT /api/employees. */
module EmployeeDtoValidator {
  import opened Wrappers
  import opened Text
  import opened Models
  import opened FluentRules

  const HireDateMessage := "HireDate must be yyyy-MM-dd."

  /**
   * HireDate is checked only when it is not blank, and then with the culture's
   * date parse, which `tryParse` stands for.
   */
  function Validate(dto: EmployeeDto, tryParse: CultureDateParser): (r: Errors)
    ensures r.Keys <= {"StoreId", "FullName", "Role", "HireDate"}
    ensures "StoreId" in r <==> dto.storeId <= 0
    ensures "FullName" in r <==> IsBlank(dto.fullName) || Utf16Length(dto.fullName) > FullNameMaxLength
    ensures "Role" in r <==> Utf16Length(dto.role) > RoleMaxLength
    ensures "HireDate" in r <==> !IsNullOrWhiteSpace(dto.hireDate) && tryParse(dto.hireDate.value).None?
    ensures "HireDate" in r ==> r["HireDate"] == [WithMessage(HireDateMessage)]
  {
    var e1 := Record(map[], "StoreId", Check(dto.storeId > 0, DefaultMessage(GreaterThan(0))));
    var e2 := Record(e1, "FullName",
                Check(!IsBlank(dto.fullName), DefaultMessage(NotEmpty))
                + Check(Utf16Length(dto.fullName) <= 100, DefaultMessage(MaximumLength(100))));
    var e3 := Record(e2, "Role", Check(Utf16Length(dto.role) <= 50, DefaultMessage(MaximumLength(50))));
    if IsNullOrWhiteSpace(dto.hireDate) then e3
    else Record(e3, "HireDate", Check(tryParse(dto.hireDate.value).Some?, WithMessage(HireDateMessage)))
  }

  /** What the validator lets through fits the `[MaxLength]` columns of Employee. */
  lemma AcceptedFitsColumns(dto: EmployeeDto, tryParse: CultureDateParser)
    requires Validate(dto, tryParse) == map[]
    ensures 1 <= Utf16Length(dto.fullName) <= FullNameMaxLength && Utf16Length(dto.role) <= RoleMaxLength
  {
    assert "FullName" !in Validate(dto, tryParse);
    NonBlankIsNonEmpty(dto.fullName);
  }
}

/** `EmployeeValidator`: the rules on an Employee row, with a Role rule the body's validator lacks. */
module EmployeeValidator {
  import opened Text
  import opened Models
  import opened FluentRules

  /** HireDate's rule accepts every value, so HireDate never fails. */
  function Validate(e: Employee): (r: Errors)
    ensures r.Keys <= {"StoreId", "FullName", "Role"}
    ensures "StoreId" in r <==> e.storeId <= 0
    ensures "FullName" in r <==> IsBlank(e.fullName) || Utf16Length(e.fullName) < 2
    ensures "Role" in r <==> IsBlank(e.role)
  {
    var e1 := Record(map[], "StoreId", Check(e.storeId > 0, DefaultMessage(GreaterThan(0))));
    var e2 := Record(e1, "FullName",
                Check(!IsBlank(e.fullName), DefaultMessage(NotEmpty))
                + Check(Utf16Length(e.fullName) >= 2, DefaultMessage(MinimumLength(2))));
    var e3 := Record(e2, "Role", Check(!IsBlank(e.role), DefaultMessage(NotEmpty)));
    Record(e3, "HireDate", Check(true, DefaultMessage(Must)))
  }
}

/** `StoreDtoValidator`: the rules on the body of POST and PUT /api/stores. */
module StoreDtoValidator {
  import opened Text
  import opened Models
  import opened FluentRules

  function Validate(dto: StoreDto): (r: Errors)
    ensures r.Keys <= {"Name"}
    ensures r == map[] <==> !IsBlank(dto.name) && Utf16Length(dto.name) <= 100
    ensures "Name" in r ==> |r["Name"]| == (if IsBlank(dto.name) then 1 else 0) + (if Utf16Length(dto.name) > 100 then 1 else 0)
  {
    Record(map[], "Name",
      Check(!IsBlank(dto.name), DefaultMessage(NotEmpty)) + Check(Utf16Length(dto.name) <= 100, DefaultMessage(MaximumLength(100))))
  }

  /** Lengths are UTF-16 units: 51 characters beyond U+FFFF are 102 units, over the limit. */
  lemma AstralNameTooLong(name: string)
    requires |name| == 51 && forall i :: 0 <= i < |name| ==> name[i] as int >= 0x1_0000
    ensures "Name" in Validate(StoreDto(name))
  {
  }
}

/** `StoreValidator`: the rules on a Store row. */
module StoreValidator {
  import opened Text
  import opened Models
  import opened FluentRules

  function Validate(store: Store): (r: Errors)
    ensures r.Keys <= {"Name"}
    ensures r == map[] <==> !IsBlank(store.name) && Utf16Length(store.name) >= 2
  {
    Record(map[], "Name",
      Check(!IsBlank(store.name), DefaultMessage(NotEmpty)) + Check(Utf16Length(store.name) >= 2, DefaultMessage(MinimumLength(2))))
  }

  /** One character beyond U+FFFF is two UTF-16 units, so it meets MinimumLength(2). */
  lemma AstralCharLongEnough()
    ensures Validate(Store(1, "\U{1F600}")) == map[]
  {
    assert !IsBlank("\U{1F600}") by {
      assert !IsWhiteSpace("\U{1F600}"[0]);
    }
  }
}

/** How the body validators and the row validators differ. */
module ValidatorComparison {
  import opened Wrappers
  import Text
  import opened Dates
  import opened Decimals
  import opened Models
  import opened FluentRules
  import EodReportDtoValidator
  import EodReportValidator
  import EmployeeDtoValidator
  import EmployeeValidator
  import StoreDtoValidator
  import StoreValidator

  /**
   * A body with an empty Role passes the body's validator, while the row built
   * from it fails the row's validator on Role.
   */
  lemma EmptyRoleOnlyRejectedOnRow(tryParse: CultureDateParser)
    ensures EmployeeDtoValidator.Validate(EmployeeDto(1, "Lee", "", None, true), tryParse) == map[]
    ensures "Role" in EmployeeValidator.Validate(Employee(1, 1, "Lee", "", None, true))
  {
    assert !Text.IsBlank("Lee") by {
      assert !Text.IsWhiteSpace("Lee"[0]);
    }
  }

  /** A one-letter store name passes the body's validator and fails the row's. */
  lemma OneLetterNameOnlyRejectedOnRow()
    ensures StoreDtoValidator.Validate(StoreDto("A")) == map[]
    ensures StoreValidator.Validate(Store(1, "A")) != map[]
  {
    assert !Text.IsBlank("A") by {
      assert !Text.IsWhiteSpace("A"[0]);
    }
  }

  /**
   * Negative Tickets always fail the body's validator, while the row validator
   * has no rule on Tickets: a row with those Tickets and otherwise good fields passes.
   */
  lemma NegativeTicketsOnlyRejectedOnBody(dto: EodReportDto, report: EodReport)
    requires dto.tickets < 0 && report.tickets == dto.tickets
    requires report.storeId > 0 && !IsNegative(report.netSales) && report.bizDate != Default
    ensures "Tickets" in EodReportDtoValidator.Validate(dto)
    ensures EodReportValidator.Validate(report) == map[]
  {
  }
}
