/**
 * The search tool (`search_web` in api.py).  The backend call
 * `list(DDGS().text(query, max_results=3))` is a parameter that either
 * yields the result records or reports the exception it raised; what is
 * modelled is how `search_web` turns either into the observation text.
 */
module WebSearch {
  import opened Options
  import opened Text

  /** One result record; a field the record lacks is `None`. */
  datatype Hit = Hit(body: Option<string>, href: Option<string>)

  /** The backend's answer: the result records, or the text of the exception raised. */
  datatype Backend = Results(hits: seq<Hit>) | Raised(description: string)

  /** The number of results asked of the backend. */
  const MaxResults := 3
  const NoResults := "No results found."
  const ErrorPrefix := "Error during search: "

  /** `r.get(key, '')`. */
  function Get(field: Option<string>): string {
    match field
    case Some(v) => v
    case None => ""
  }

  /** The line `- <body> (source: <href>)` for one record. */
  function FormatHit(h: Hit): (line: string)
    ensures "- " <= line
    ensures '\n' in line <==> '\n' in Get(h.body) || '\n' in Get(h.href)
  {
    "- " + Get(h.body) + " (source: " + Get(h.href) + ")"
  }

  function Lines(hits: seq<Hit>): (lines: seq<string>)
    ensures |lines| == |hits|
    ensures forall i :: 0 <= i < |hits| ==> lines[i] == FormatHit(hits[i])
  {
    seq(|hits|, i requires 0 <= i < |hits| => FormatHit(hits[i]))
  }

  /** The text for a successful search: one line per record, or "No results found.". */
  function FormatHits(hits: seq<Hit>): (text: string)
    ensures hits == [] <==> text == NoResults
  {
    if |hits| == 0 then NoResults
    else
      var text := Join("\n", Lines(hits));
      assert text[0] == '-' by { assert "- " <= Lines(hits)[0] <= text; }
      text
  }

  /** `search_web(query)`. */
  function SearchWeb(query: string, backend: (string, nat) -> Backend): (text: string)
  {
    match backend(query, MaxResults)
    case Raised(description) => ErrorPrefix + description
    case Results(hits) => FormatHits(hits)
  }

  /**
   * When no field holds a line break, splitting the text at line breaks gives
   * back exactly one line per record, in the backend's order.
   */
  lemma OneLinePerHit(hits: seq<Hit>)
    requires hits != []
    requires forall i :: 0 <= i < |hits| ==> '\n' !in Get(hits[i].body) && '\n' !in Get(hits[i].href)
    ensures var lines := Split(FormatHits(hits), "\n");
      |lines| == |hits| && forall i :: 0 <= i < |hits| ==> lines[i] == FormatHit(hits[i])
  {
    SplitJoinChar(Lines(hits), '\n');
  }

  /**
   * The three outcomes are told apart by the text alone: an exception gives
   * the error prefix, an empty result list "No results found.", and records
   * give lines that start with "- ".
   */
  lemma OutcomeFromText(query: string, backend: (string, nat) -> Backend)
    ensures var text := SearchWeb(query, backend);
      && (backend(query, MaxResults).Raised? <==> ErrorPrefix <= text)
      && (backend(query, MaxResults) == Results([]) <==> text == NoResults)
      && (backend(query, MaxResults).Results? && backend(query, MaxResults).hits != [] <==> "- " <= text)
  {
    var text := SearchWeb(query, backend);
    match backend(query, MaxResults)
    case Raised(d) =>
      assert text[0] == 'E';
    case Results(hits) =>
      if hits != [] {
        assert "- " <= Lines(hits)[0] <= text;
        assert text[0] == '-';
      } else {
        assert text == NoResults && text[0] == 'N';
      }
  }
}
