/**
 * The guards of `main`: refuse an all-whitespace URL before anything else,
 * stop when the list came back empty, and otherwise check every title.
 */
module Checker {
  import opened Text
  import opened Deslegte
  import opened Goodreads

  /** How a run of the checker ends, with what each stage produced. */
  datatype Outcome =
    | NoUrlEntered
    | NoBooksFound(url: string)
    | Checked(url: string, toRead: seq<string>, available: seq<string>)

  /**
   * `main` for the line `input` the user typed: `browse(url)` is what the
   * browser observes on the list at `url`, round by round, and `fetch(title)`
   * the response to the search request for `title`.
   */
  method CheckList(input: string, browse: string -> seq<PageObservation>, fetch: string -> SearchResponse)
    returns (outcome: Outcome)
    ensures outcome.NoUrlEntered? <==> forall i :: 0 <= i < |input| ==> IsSpace(input[i])
    ensures outcome.NoBooksFound? <==> Strip(input) != [] && Run(browse(Strip(input))).titles == []
    ensures !outcome.NoUrlEntered? ==> outcome.url == Strip(input)
    ensures outcome.Checked? ==> outcome.toRead == Run(browse(outcome.url)).titles && outcome.toRead != []
    ensures outcome.Checked? ==> outcome.available == Filter(outcome.toRead, Available(fetch))
  {
    var url := Strip(input);
    if url == [] {
      return NoUrlEntered;
    }
    var toRead, _ := GetToReadList(browse(url));
    if toRead == [] {
      return NoBooksFound(url);
    }
    var available := CheckBooks(toRead, fetch);
    outcome := Checked(url, toRead, available);
  }
}
