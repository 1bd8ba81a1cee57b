/**
 * The records of the LV (Leistungsverzeichnis) file and the documents written
 * to the `lv_positionen` collection.
 */
module Positions {
  import opened Wrappers

  /**
   * One entry of the parsed JSON array. `None` stands for a field that is
   * absent or `null`. Numbers are JSON numbers, modelled as reals.
   */
  datatype Position = Position(
    positionNr: Option<string>,
    hauptgruppe: Option<string>,
    untergruppe: Option<string>,
    kurztext: Option<string>,
    beschreibung: Option<string>,
    menge: Option<real>,
    mengeneinheit: Option<string>,
    einheitspreis: Option<real>,
    gesamtbetrag: Option<real>,
    seite: Option<real>,
    suchtext: Option<string>)

  /** `FieldValue.serverTimestamp()`: a sentinel the store replaces by its own clock at commit time. */
  datatype FieldValue = ServerTimestamp

  /** The object stored for one position. */
  datatype Document = Document(
    positionNr: Option<string>,
    hauptgruppe: string,
    untergruppe: string,
    kurztext: string,
    beschreibung: string,
    menge: real,
    mengeneinheit: string,
    einheitspreis: real,
    gesamtbetrag: real,
    seite: real,
    suchtext: string,
    suchwoerter: seq<string>,
    lvName: string,
    aktiv: bool,
    createdAt: FieldValue,
    updatedAt: FieldValue)

  /** JavaScript `v || d` on a string-valued field: absent, `null` and `''` are falsy. */
  function OrText(v: Option<string>, d: string): string
  {
    if v.Some? && v.value != "" then v.value else d
  }

  /** JavaScript `v || d` on a number-valued field: absent, `null` and `0` are falsy. */
  function OrNumber(v: Option<real>, d: real): real
  {
    if v.Some? && v.value != 0.0 then v.value else d
  }
}
