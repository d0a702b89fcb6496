/** The persona preamble of get_prompt_for_query_type (app.py:89-107): a
    medical or legal persona, with an instruction to analyse the uploaded
    document when there is document text, and a generic preamble for every
    other query type. */
module Prompt {
  import opened Text

  datatype Option<T> = None | Some(value: T)

  const MedicalDisclaimer := "consulting healthcare professionals"
  const LegalDisclaimer := "consulting qualified legal professionals"

  /** The medical persona, the triple-quoted literal of app.py:92-94 with its
      line breaks and indentation, built around its disclaimer. */
  const MedicalPreamble := MedicalLead + MedicalDisclaimer + ".\n        "
  const MedicalLead := "You are a medical assistant AI. Provide helpful information about medical conditions, treatments, and recommendations. \n        Note that your responses should include appropriate disclaimers about "
  /** The legal persona, the triple-quoted literal of app.py:100-102. */
  const LegalPreamble := LegalLead + LegalDisclaimer + " for specific advice.\n        "
  const LegalLead := "You are a legal assistant AI. Provide helpful information about legal concepts, documents, and processes.\n        Include appropriate disclaimers about "
  const GeneralPreamble := "You are a helpful assistant. Please provide information on the following query:"

  /** The query types that get a persona of their own. */
  predicate IsDomain(queryType: string) {
    queryType == "medical" || queryType == "legal"
  }

  /** The persona text a query type selects. */
  function Preamble(queryType: string): string {
    if queryType == "medical" then MedicalPreamble
    else if queryType == "legal" then LegalPreamble
    else GeneralPreamble
  }

  /** Python's truth value of `document_text`: present and not empty. */
  predicate HasText(document: Option<string>) {
    document.Some? && document.value != ""
  }

  /** The clause that introduces the document text for a domain. */
  function AnalysisClause(domain: string): string {
    "\n\nAnalyze the following " + domain + " document and provide insights: "
  }

  /** get_prompt_for_query_type (app.py:89-107). */
  function PromptFor(queryType: string, document: Option<string>): string {
    if queryType == "medical" then
      if HasText(document) then MedicalPreamble + AnalysisClause("medical") + document.value
      else MedicalPreamble
    else if queryType == "legal" then
      if HasText(document) then LegalPreamble + AnalysisClause("legal") + document.value
      else LegalPreamble
    else
      GeneralPreamble
  }

  /** Reads the document text back out of a composed domain prompt: the
      text after the persona and the analysis clause, if they are there. */
  function DocumentOf(queryType: string, prompt: string): Option<string> {
    var head := Preamble(queryType) + AnalysisClause(queryType);
    if IsDomain(queryType) && StartsWith(prompt, head) then Some(prompt[|head|..]) else None
  }

  /** For "medical" and "legal", a non-empty document gives the persona, the
      analysis clause naming the domain, then the document text; otherwise
      the persona alone. */
  lemma DomainPrompt(queryType: string, document: Option<string>)
    requires IsDomain(queryType)
    ensures PromptFor(queryType, document) ==
      if HasText(document) then Preamble(queryType) + AnalysisClause(queryType) + document.value
      else Preamble(queryType)
  {
  }

  /** Every other query type gets the generic preamble, whatever the
      document text. */
  lemma OtherTypesGeneric(queryType: string, document: Option<string>)
    requires !IsDomain(queryType)
    ensures PromptFor(queryType, document) == GeneralPreamble
  {
  }

  /** The document text is carried verbatim: it can be read back out of a
      domain prompt, and a missing or empty document leaves no trace. */
  lemma DocumentRecovered(queryType: string, document: Option<string>)
    requires IsDomain(queryType)
    ensures DocumentOf(queryType, PromptFor(queryType, document)) ==
      if HasText(document) then document else None
  {
    var head := Preamble(queryType) + AnalysisClause(queryType);
    var prompt := PromptFor(queryType, document);
    if HasText(document) {
      assert prompt == head + document.value;
      assert prompt[..|head|] == head;
      assert prompt[|head|..] == document.value;
    } else {
      assert |prompt| < |head|;
    }
  }

  /** Both domain personas carry their consult-a-professional disclaimer,
      with or without a document. */
  lemma DisclaimersPresent(document: Option<string>)
    ensures Contains(PromptFor("medical", document), MedicalDisclaimer)
    ensures Contains(PromptFor("legal", document), LegalDisclaimer)
  {
    var medical := PromptFor("medical", document);
    assert medical[|MedicalLead|..|MedicalLead| + |MedicalDisclaimer|] == MedicalDisclaimer;
    assert OccursAt(medical, MedicalDisclaimer, |MedicalLead|);
    var legal := PromptFor("legal", document);
    assert legal[|LegalLead|..|LegalLead| + |LegalDisclaimer|] == LegalDisclaimer;
    assert OccursAt(legal, LegalDisclaimer, |LegalLead|);
  }
}
