/**
 * The per-position part of `importLVPositionen`: the document id derived
 * from `position_nr` and the object written for the position.
 */
module Mapping {
  import opened Wrappers
  import opened Seqs
  import opened Positions
  import opened Suchwoerter

  const CollectionName: string := "lv_positionen"
  /** The `lv_name` stamped on every document. */
  const LvName: string := "Heizung-Sanitär 2025/2026"

  /** `positionNr.replace(/\./g, '_')`: the script keeps '.' out of document ids. */
  function DocId(positionNr: string): (id: string)
    ensures |id| == |positionNr|
    ensures forall i :: 0 <= i < |id| ==> id[i] == if positionNr[i] == '.' then '_' else positionNr[i]
    ensures '.' !in id
  {
    if positionNr == [] then []
    else [if positionNr[0] == '.' then '_' else positionNr[0]] + DocId(positionNr[1..])
  }

  /** Ids without a '.' are kept as they are, so deriving twice changes nothing. */
  lemma DocIdIdempotent(positionNr: string)
    ensures '.' !in positionNr ==> DocId(positionNr) == positionNr
    ensures DocId(DocId(positionNr)) == DocId(positionNr)
  {
  }

  lemma DocIdExample()
    ensures DocId("1.1.10") == "1_1_10"
  {
    assert DocId("1.1.10")[1] == '_' && DocId("1.1.10")[3] == '_';
  }

  /** The `firestoreData` object built for one position. */
  function ToDocument(pos: Position): Document
  {
    Document(
      positionNr := pos.positionNr,
      hauptgruppe := OrText(pos.hauptgruppe, ""),
      untergruppe := OrText(pos.untergruppe, ""),
      kurztext := OrText(pos.kurztext, ""),
      beschreibung := OrText(pos.beschreibung, ""),
      menge := OrNumber(pos.menge, 0.0),
      mengeneinheit := OrText(pos.mengeneinheit, ""),
      einheitspreis := OrNumber(pos.einheitspreis, 0.0),
      gesamtbetrag := OrNumber(pos.gesamtbetrag, 0.0),
      seite := OrNumber(pos.seite, 0.0),
      suchtext := OrText(pos.suchtext, ""),
      suchwoerter := GenerateSuchwoerter(pos),
      lvName := LvName,
      aktiv := true,
      createdAt := ServerTimestamp,
      updatedAt := ServerTimestamp)
  }

  /**
   * What the document holds: `position_nr` verbatim; every other field the
   * record's value when present (an empty string or a zero is its own
   * default) and '' or 0 when absent; the search words of the record; the
   * fixed metadata.
   */
  lemma ToDocumentFields(pos: Position)
    ensures ToDocument(pos).positionNr == pos.positionNr
    ensures ToDocument(pos).hauptgruppe == pos.hauptgruppe.GetOr("")
    ensures ToDocument(pos).untergruppe == pos.untergruppe.GetOr("")
    ensures ToDocument(pos).kurztext == pos.kurztext.GetOr("")
    ensures ToDocument(pos).beschreibung == pos.beschreibung.GetOr("")
    ensures ToDocument(pos).mengeneinheit == pos.mengeneinheit.GetOr("")
    ensures ToDocument(pos).suchtext == pos.suchtext.GetOr("")
    ensures ToDocument(pos).menge == pos.menge.GetOr(0.0)
    ensures ToDocument(pos).einheitspreis == pos.einheitspreis.GetOr(0.0)
    ensures ToDocument(pos).gesamtbetrag == pos.gesamtbetrag.GetOr(0.0)
    ensures ToDocument(pos).seite == pos.seite.GetOr(0.0)
    ensures ToDocument(pos).suchwoerter == GenerateSuchwoerter(pos)
    ensures ToDocument(pos).lvName == LvName && ToDocument(pos).aktiv
    ensures ToDocument(pos).createdAt == ServerTimestamp && ToDocument(pos).updatedAt == ServerTimestamp
  {
  }

  /** One `batch.set(docRef, firestoreData, { merge: true })`. */
  datatype Write = SetMerge(collection: string, docId: string, data: Document)

  /**
   * The write queued for a position whose `position_nr` is present: into
   * `lv_positionen`, under an id of the same length without '.', carrying
   * the record's number and the fixed metadata.
   */
  function WriteFor(pos: Position): (w: Write)
    requires pos.positionNr.Some?
    ensures w.collection == CollectionName
    ensures |w.docId| == |pos.positionNr.value| && '.' !in w.docId
    ensures w.data.positionNr == pos.positionNr
    ensures w.data.lvName == LvName && w.data.aktiv
  {
    SetMerge(CollectionName, DocId(pos.positionNr.value), ToDocument(pos))
  }

  /** Every position of `ps` has a `position_nr`. */
  predicate AllNumbered(ps: seq<Position>)
  {
    forall j :: 0 <= j < |ps| ==> ps[j].positionNr.Some?
  }

  /** The writes for `ps`, in input order. */
  function Writes(ps: seq<Position>): (ws: seq<Write>)
    requires AllNumbered(ps)
    ensures |ws| == |ps|
  {
    Map(WriteFor, ps)
  }

  /** The writes for `ps` are the writes of its positions, one each, in input order. */
  lemma WritesAt(ps: seq<Position>)
    requires AllNumbered(ps)
    ensures forall i :: 0 <= i < |ps| ==> Writes(ps)[i] == WriteFor(ps[i])
  {
    MapAt(WriteFor, ps);
  }
}
