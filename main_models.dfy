/**
 * The request checks of the older (ktor) service. Its data classes have the same fields and
 * defaults as the current ones, and its `hasValidDokumentDato` is the same check, so the
 * shapes and the date check of Models are reused; only `isEmpty` differs: it looks at six of
 * the eight filter fields.
 */
module MainModels {
  import opened Models

  /** `isEmpty` of the older service: dokumentasjonId and aktoerid are not looked at. */
  function IsEmptyOlder(h: HenteModel): (r: bool)
    ensures r <==> h.(dokumentasjonId := "", aktoerid := "").IsEmpty()
  {
    h.id == "" && h.kilde == "" && h.dokumentdato == "" && h.fnr == "" && h.orgnr == "" && h.tema == ""
  }

  /** A filter empty under the eight-field rule is empty under the six-field rule too. */
  lemma EmptyIsEmptyOlder(h: HenteModel)
    requires h.IsEmpty()
    ensures IsEmptyOlder(h)
  {
  }

  /** The converse fails: a filter on dokumentasjonId (or aktoerid) alone counts as empty here. */
  lemma OlderRuleIgnoresTwoFields(dokumentasjonId: string, aktoerid: string)
    requires dokumentasjonId != "" || aktoerid != ""
    ensures var h := HenteModel(dokumentasjonId := dokumentasjonId, aktoerid := aktoerid);
      IsEmptyOlder(h) && !h.IsEmpty()
  {
  }

  /**
   * The older service's data classes have the current defaults: every text empty and the flag
   * false; so its default filter is empty under its own rule as well.
   */
  lemma OlderDefaults()
    ensures ArkivModel() == ArkivModel("", "", "", [], "", "", "", "", "", false)
    ensures HenteModel() == HenteModel("", "", "", "", "", "", "", "")
    ensures IsEmptyOlder(HenteModel())
  {
  }
}
