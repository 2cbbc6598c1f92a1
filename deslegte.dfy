/**
 * The availability check against De Slegte's search page: the decision
 * `search_deslegte_book` takes once the HTTP response is in hand, and the
 * loop of `check_books_in_deslegte` that keeps the titles found available.
 */
module Deslegte {
  import opened Wrappers
  import opened Text

  /** The Dutch "editions found" fragment of the search page's description. */
  const EditionsPhrase: string := "uitgaven gevonden"

  /** The one HTTP status the check treats as success. */
  const StatusOk: int := 200

  /** The page's `<meta name="description">` tag; its `content` attribute may be missing. */
  datatype MetaDescription = MetaDescription(content: Option<string>)

  /** What the search request yields, as far as the check looks at it. */
  datatype SearchResponse = SearchResponse(status: int, description: Option<MetaDescription>)

  /** `meta.get('content', '')`. */
  function ContentOf(meta: MetaDescription): string {
    meta.content.GetOr("")
  }

  /**
   * `int(content.split(' ')[0])`, with 0 where `int` raises `ValueError`:
   * positive exactly when the first token is a positive numeral.
   */
  function EditionCount(content: string): (count: int)
    ensures count > 0 <==> PositiveNumeral(Split(content, ' ')[0])
  {
    ParsedCountPositive(Split(content, ' ')[0]);
    ParseInt(Split(content, ' ')[0]).GetOr(0)
  }

  /** The result of `search_deslegte_book` for the response its request received. */
  function IsAvailable(response: SearchResponse): (available: bool)
    ensures response.status != StatusOk ==> !available
    ensures available ==> response.description.Some?
    ensures available ==> Contains(ContentOf(response.description.value), EditionsPhrase)
    ensures available ==> EditionCount(ContentOf(response.description.value)) > 0
  {
    if response.status != StatusOk then false
    else
      match response.description
      case None => false
      case Some(meta) =>
        var content := ContentOf(meta);
        if Contains(content, EditionsPhrase) then EditionCount(content) > 0 else false
  }

  /** An available title had status 200 and the phrase somewhere in its description. */
  lemma AvailableNeedsPhrase(response: SearchResponse)
    requires IsAvailable(response)
    ensures response.status == StatusOk && response.description.Some?
    ensures exists i :: OccursAt(ContentOf(response.description.value), EditionsPhrase, i)
  {
    ContainsIff(ContentOf(response.description.value), EditionsPhrase);
  }

  /**
   * With status 200 and the phrase in the description, the title is available
   * exactly when the text before the first space is a positive numeral.
   */
  lemma AvailableIffPositiveCount(response: SearchResponse)
    requires response.status == StatusOk && response.description.Some?
    requires exists i :: OccursAt(ContentOf(response.description.value), EditionsPhrase, i)
    ensures IsAvailable(response) <==> PositiveNumeral(Split(ContentOf(response.description.value), ' ')[0])
  {
    var content := ContentOf(response.description.value);
    ContainsIff(content, EditionsPhrase);
    ParsedCountPositive(Split(content, ' ')[0]);
  }

  /**
   * A description that starts with a number and a space has that number as
   * its count, unless the number has more digits than `int` converts.
   */
  lemma EditionCountOfNumber(n: nat, rest: string)
    ensures EditionCount(ShowNat(n) + " " + rest) == if |ShowNat(n)| <= MaxStrDigits then n else 0
  {
    assert ' ' !in ShowNat(n) by {
      forall i | 0 <= i < |ShowNat(n)| ensures ShowNat(n)[i] != ' ' {
        assert IsDigit(ShowNat(n)[i]);
      }
    }
    SplitAfterToken(ShowNat(n), rest, ' ');
    assert ShowNat(n) + " " + rest == ShowNat(n) + [' '] + rest;
    ParseShowNat(n);
  }

  /** A first token of more digits than `int` converts counts as 0, so the title is not available. */
  lemma OverlongCountUnavailable(ds: string, rest: string)
    requires AllDigits(ds) && |ds| > MaxStrDigits
    ensures EditionCount(ds + " " + rest) == 0
    ensures !IsAvailable(SearchResponse(StatusOk, Some(MetaDescription(Some(ds + " " + rest)))))
  {
    assert ' ' !in ds by {
      forall i | 0 <= i < |ds| ensures ds[i] != ' ' {
        assert IsDigit(ds[i]);
      }
    }
    SplitAfterToken(ds, rest, ' ');
    assert ds + " " + rest == ds + [' '] + rest;
    assert IsDigit(ds[0]);
  }

  /** A description that starts with a space has an empty first token, which counts as 0. */
  lemma LeadingSpaceCountsZero(rest: string)
    ensures EditionCount(" " + rest) == 0
  {
  }

  /** The response a found search gives: "<n> uitgaven gevonden..." with status 200. */
  function NumberedResponse(n: nat, rest: string): SearchResponse {
    SearchResponse(StatusOk, Some(MetaDescription(Some(ShowNat(n) + " " + EditionsPhrase + rest))))
  }

  /** "<n> uitgaven gevonden" means available exactly when n is positive and within the digit limit. */
  lemma NumberedDescriptionAvailable(n: nat, rest: string)
    ensures IsAvailable(NumberedResponse(n, rest)) <==> n > 0 && |ShowNat(n)| <= MaxStrDigits
  {
    var head := ShowNat(n) + " ";
    var content := head + EditionsPhrase + rest;
    assert content[|head|..|head| + |EditionsPhrase|] == EditionsPhrase;
    assert OccursAt(content, EditionsPhrase, |head|);
    ContainsIff(content, EditionsPhrase);
    assert content == ShowNat(n) + " " + (EditionsPhrase + rest);
    EditionCountOfNumber(n, EditionsPhrase + rest);
  }

  lemma TwelveEditionsAvailable()
    ensures IsAvailable(SearchResponse(200, Some(MetaDescription(Some("12 uitgaven gevonden")))))
  {
    assert ShowNat(12) == "12";
    assert "12" + " " + EditionsPhrase + "" == "12 uitgaven gevonden";
    assert NumberedResponse(12, "") == SearchResponse(200, Some(MetaDescription(Some("12 uitgaven gevonden"))));
    NumberedDescriptionAvailable(12, "");
  }

  lemma ZeroEditionsUnavailable()
    ensures !IsAvailable(SearchResponse(200, Some(MetaDescription(Some("0 uitgaven gevonden")))))
  {
  }

  // ---------------------------------------------------------------------
  // `check_books_in_deslegte`

  /** The elements of `xs` that satisfy `p`, in their order, duplicates kept. */
  function Filter<T>(xs: seq<T>, p: T -> bool): (ys: seq<T>)
    ensures |ys| <= |xs|
    ensures forall k :: 0 <= k < |ys| ==> p(ys[k])
    decreases |xs|
  {
    if xs == [] then []
    else
      var kept := Filter(xs[..|xs| - 1], p);
      if p(xs[|xs| - 1]) then kept + [xs[|xs| - 1]] else kept
  }

  /** Filtering a concatenation filters each part: a rejected title never affects the titles after it. */
  lemma {:induction false} FilterAppend<T>(a: seq<T>, b: seq<T>, p: T -> bool)
    ensures Filter(a + b, p) == Filter(a, p) + Filter(b, p)
    decreases |b|
  {
    if b == [] {
      assert a + b == a;
    } else {
      var init := b[..|b| - 1];
      FilterAppend(a, init, p);
      assert (a + b)[..|a + b| - 1] == a + init;
    }
  }

  /** A title is kept exactly when it is in the input and available. */
  lemma {:induction false} FilterMembers<T>(xs: seq<T>, p: T -> bool, x: T)
    ensures x in Filter(xs, p) <==> x in xs && p(x)
    decreases |xs|
  {
    if xs != [] {
      var init := xs[..|xs| - 1];
      FilterMembers(init, p, x);
      assert xs == init + [xs[|xs| - 1]];
    }
  }

  /** Every available title keeps all of its occurrences, every other one none. */
  lemma {:induction false} FilterMultiplicity<T>(xs: seq<T>, p: T -> bool, x: T)
    ensures multiset(Filter(xs, p))[x] == if p(x) then multiset(xs)[x] else 0
    decreases |xs|
  {
    if xs != [] {
      var init := xs[..|xs| - 1];
      FilterMultiplicity(init, p, x);
      assert xs == init + [xs[|xs| - 1]];
    }
  }

  /** The per-title check the loop applies, for a given way of answering search requests. */
  function Available(fetch: string -> SearchResponse): string -> bool {
    title => IsAvailable(fetch(title))
  }

  /** A title whose request failed is left out, and the titles around it are kept as if it were not there. */
  lemma FailedRequestSkipped(before: seq<string>, title: string, after: seq<string>, fetch: string -> SearchResponse)
    requires fetch(title).status != StatusOk
    ensures title !in Filter(before + [title] + after, Available(fetch))
    ensures Filter(before + [title] + after, Available(fetch)) == Filter(before, Available(fetch)) + Filter(after, Available(fetch))
  {
    var p := Available(fetch);
    FilterAppend(before + [title], after, p);
    FilterAppend(before, [title], p);
    assert [title][..0] == [];
    assert Filter([title], p) == [];
    FilterMembers(before + [title] + after, p, title);
  }

  /**
   * `check_books_in_deslegte`: `fetch(title)` is the response the search
   * request for `title` receives.
   */
  method CheckBooks(toRead: seq<string>, fetch: string -> SearchResponse) returns (availableBooks: seq<string>)
    ensures availableBooks == Filter(toRead, Available(fetch))
  {
    availableBooks := [];
    var i := 0;
    while i < |toRead|
      invariant 0 <= i <= |toRead|
      invariant availableBooks == Filter(toRead[..i], Available(fetch))
    {
      var book := toRead[i];
      assert toRead[..i + 1][..i] == toRead[..i];
      if IsAvailable(fetch(book)) {
        availableBooks := availableBooks + [book];
      }
      i := i + 1;
    }
    assert toRead[..i] == toRead;
  }
}
