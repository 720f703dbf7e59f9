/**
 * The request and response shapes of the archive service: what `/arkiv` receives
 * (ArkivModel) and answers (ArkivResponse), what `/hente` receives (HenteModel) and
 * answers (HenteResponse), and the two request checks `isEmpty` and `hasValidDokumentDato`.
 * Every field has the same default as in the service: the empty text, and false.
 */
module Models {
  import opened Wrappers
  import opened Tables
  import opened KotlinText

  /** One document to archive. */
  datatype ArkivModel = ArkivModel(
    opprettetAv: string := "",
    kilde: string := "",
    dokumentasjonId: string := "",
    dokumentasjon: KString := [],
    dokumentdato: string := "",
    aktoerid: string := "",
    fnr: string := "",
    orgnr: string := "",
    tema: string := "",
    konfidentiellt: bool := false)
  {
    predicate HasValidDokumentDato(f: Formats) {
      ValidDokumentDato(f, dokumentdato)
    }
  }

  /** A search filter: each non-empty field must equal the stored column. */
  datatype HenteModel = HenteModel(
    id: string := "",
    kilde: string := "",
    dokumentasjonId: string := "",
    dokumentdato: string := "",
    aktoerid: string := "",
    fnr: string := "",
    orgnr: string := "",
    tema: string := "")
  {
    /** No search parameter at all. */
    predicate IsEmpty() {
      && id == "" && kilde == "" && dokumentasjonId == "" && dokumentdato == ""
      && aktoerid == "" && fnr == "" && orgnr == "" && tema == ""
    }

    predicate HasValidDokumentDato(f: Formats) {
      ValidDokumentDato(f, dokumentdato)
    }
  }

  /** The answer for one inserted row: the text only as a summary, possibly redacted. */
  datatype ArkivResponse = ArkivResponse(
    id: int,
    dato: string,
    opprettetAv: string,
    kilde: string,
    dokumentasjonId: string,
    dokumentasjonSummarized: KString,
    dokumentdato: string,
    aktoerid: string,
    fnr: string,
    orgnr: string,
    tema: string,
    konfidentiellt: bool)

  /** The answer for one found row: the full text, and no confidentiality flag. */
  datatype HenteResponse = HenteResponse(
    id: int,
    dato: string,
    opprettetAv: string,
    kilde: string,
    dokumentasjonId: string,
    dokumentasjon: KString,
    dokumentdato: string,
    aktoerid: string,
    fnr: string,
    orgnr: string,
    tema: string)

  /**
   * The two Joda formatters, left abstract: `fmt_onlyDay` ("yyyy-MM-dd") as a partial parse
   * and a print, and `fmt` ("yyyy-MM-dd HH:mm:ss") as a print.
   */
  datatype Formats = Formats(
    parseDay: string -> Option<Instant>,
    printDay: Instant -> string,
    printStamp: Instant -> string)

  /** A document date is acceptable when it is empty or parses as yyyy-MM-dd. */
  predicate ValidDokumentDato(f: Formats, dokumentdato: string) {
    dokumentdato == "" || f.parseDay(dokumentdato).Some?
  }

  /**
   * The defaults: every text of a default payload and of a default filter is empty and the
   * flag is false; so a default filter is empty, and both dates pass the check whatever the
   * date parser does.
   */
  lemma Defaults(f: Formats)
    ensures ArkivModel() == ArkivModel("", "", "", [], "", "", "", "", "", false)
    ensures HenteModel() == HenteModel("", "", "", "", "", "", "", "")
    ensures HenteModel().IsEmpty() && HenteModel().HasValidDokumentDato(f)
    ensures ArkivModel().HasValidDokumentDato(f)
  {
  }
}
