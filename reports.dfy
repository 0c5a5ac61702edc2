/** The report object the synthesizer produces and every later stage reads. */
module Reports {
  import opened Values

  /** One entry of the `sections` object: its name and its text (`None` for JSON null). */
  datatype Section = Section(name: string, text: Option<string>)

  /**
   * A report as `json.loads` gives it. Each known key may be missing or
   * null; `sections` keeps the object's key order.
   */
  datatype Report = Report(
    title: Field<string>,
    summary: Field<string>,
    sections: Field<seq<Section>>,
    keyFindings: Field<seq<string>>,
    citedSources: Field<seq<string>>)

  /** Python's `f"{x}"` for a string or `None`. */
  function Show(x: Option<string>): string {
    match x
    case Some(s) => s
    case None => "None"
  }
}
