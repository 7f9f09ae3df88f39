/** The records of a parsed bill. */
module Bill {

  /** A calendar month as 12 * year + month, or 0 for Go's zero time: unknown. */
  type Month = nat

  function MonthOf(year: nat, month: nat): (m: Month)
    requires 1 <= month <= 12
    ensures m > 0
  {
    12 * year + month
  }

  /** One row of the contract sheet; amounts in cents. */
  datatype Kind = Kind(
    typ: string,
    abrechnungsmonat: Month,
    gutscheinnummer: string,
    name: string,
    geburtsdatum: string,
    qm: string,
    mss: string,
    hs: string,
    integration: string,
    registrierdatum: string,
    betreuungsumfang: string,
    bezirk: int,
    basisentgeld: int,
    abzugOM: int,
    elternBetreuung: int,
    elternEssen: int,
    but: int,
    anteilBezirk: int,
    zuschlagQM: int,
    zuschlagMSS: int,
    zuschlagNDH: int,
    zuschlagIntegration: int,
    summe: int)

  /** The columns of the contract sheet. */
  datatype Field =
    | Monat | Typ | GutscheinNr | NameDesKindes | GebDatum | QM | MSS | Hs | Integration | RegistrAb
    | BetreuUmfang | Bezirk | BasisEntgelt | AbzugOM | ElternBetreuung | ElternEssen | BuT | AnteilBezirk
    | ZuschlagQM | ZuschlagMSS | ZuschlagNDH | ZuschlagIntegration | AbrechnSumme

  /** Why a sheet is refused. Rows are 0-based. */
  datatype SheetError =
    | HeaderFound(times: nat)
    | MissingColumns(fields: set<Field>)
    | NoVoucherRows
    | HoleInTable(row: nat, rest: nat)
    | NotAVoucher(row: nat)
    | BadMonth(row: nat)
    | BadBezirk(row: nat)
    | BadBetreuungsumfang(row: nat)
    | BadAmount(field: Field, row: nat)

  datatype Result<+T, +E> = Ok(value: T) | Err(error: E) {
    predicate IsFailure()
    {
      Err?
    }

    function PropagateFailure<U>(): Result<U, E>
      requires Err?
    {
      Err(error)
    }

    function Extract(): T
      requires Ok?
    {
      value
    }
  }
}
