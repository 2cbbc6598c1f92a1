/**
 * The pagination loop of `get_goodreads_to_read_list`, over what the browser
 * observes page by page. The loop is a two-state machine: it starts in
 * `Fetching`, adds each loaded page's titles, and moves to `Done` for good on
 * the first page that times out or has no usable "next" control.
 */
module Goodreads {
  import opened Text

  /**
   * What the wait for `a.next_page` found: nothing within the timeout, or the
   * control with its `class` attribute and whether the scripted click went
   * through.
   */
  datatype NextControl = Missing | Present(classAttr: string, clickSucceeds: bool)

  /** One round of the loop: the wait for the title cells timed out, or the page loaded. */
  datatype PageObservation =
    | TimedOut
    | Loaded(titles: seq<string>, next: NextControl)

  datatype Phase = Fetching | Done

  /** The titles gathered so far (`all_books`) and whether the loop has stopped. */
  datatype Extraction = Extraction(titles: seq<string>, phase: Phase)

  /** The `class` marker of the last page's "next" control. */
  const DisabledMarker: string := "disabled"

  /** The "next" control is there, its `class` does not contain "disabled", and the click went through. */
  predicate NextEnabled(next: NextControl) {
    && next.Present?
    && !Contains(next.classAttr, DisabledMarker)
    && next.clickSucceeds
  }

  /** After this page the loop goes on to the next one. */
  predicate Advances(page: PageObservation) {
    page.Loaded? && NextEnabled(page.next)
  }

  /** What a page adds to `all_books`: nothing when its wait timed out. */
  function PageTitles(page: PageObservation): seq<string> {
    if page.Loaded? then page.titles else []
  }

  /** The titles of `pages`, page after page. */
  function Concat(pages: seq<PageObservation>): seq<string>
    decreases |pages|
  {
    if pages == [] then [] else Concat(pages[..|pages| - 1]) + PageTitles(pages[|pages| - 1])
  }

  /** One round of the loop. */
  function Step(e: Extraction, page: PageObservation): (e': Extraction)
    ensures e.titles <= e'.titles
    ensures e.phase == Done ==> e' == e
  {
    if e.phase == Done then e
    else
      match page
      case TimedOut => Extraction(e.titles, Done)
      case Loaded(titles, _) => Extraction(e.titles + titles, if Advances(page) then Fetching else Done)
  }

  /**
   * The state after the loop has seen `pages`, starting from an empty list:
   * a prefix of all the titles shown, and all of them while still fetching.
   */
  function Run(pages: seq<PageObservation>): (e: Extraction)
    ensures e.titles <= Concat(pages)
    ensures e.phase == Fetching ==> e.titles == Concat(pages)
    decreases |pages|
  {
    if pages == [] then Extraction([], Fetching) else Step(Run(pages[..|pages| - 1]), pages[|pages| - 1])
  }

  /** Once stopped, the loop ignores everything the browser would show later. */
  lemma {:induction false} DoneIsFinal(pages: seq<PageObservation>, k: nat)
    requires k <= |pages| && Run(pages[..k]).phase == Done
    ensures Run(pages) == Run(pages[..k])
    decreases |pages| - k
  {
    if k < |pages| {
      assert pages[..k + 1][..k] == pages[..k];
      DoneIsFinal(pages, k + 1);
    } else {
      assert pages[..k] == pages;
    }
  }

  /** While the first `n` pages all advance, the loop keeps fetching and holds their titles in order. */
  lemma {:induction false} RunWhileAdvancing(pages: seq<PageObservation>, n: nat)
    requires n <= |pages|
    requires forall i :: 0 <= i < n ==> Advances(pages[i])
    ensures Run(pages[..n]) == Extraction(Concat(pages[..n]), Fetching)
    decreases n
  {
    if n > 0 {
      RunWhileAdvancing(pages, n - 1);
      assert pages[..n][..n - 1] == pages[..n - 1];
    }
  }

  /**
   * If `last` is the first page that does not advance, the result is the
   * titles of the pages before it and then its own (none when it timed out),
   * whatever the browser would show afterwards.
   */
  lemma RunStopsAtFirstTerminal(advancing: seq<PageObservation>, last: PageObservation, later: seq<PageObservation>)
    requires forall i :: 0 <= i < |advancing| ==> Advances(advancing[i])
    requires !Advances(last)
    ensures Run(advancing + [last] + later) == Extraction(Concat(advancing) + PageTitles(last), Done)
  {
    StopAfter(advancing, last);
    TitlesOnlyGrow(advancing + [last], later);
  }

  /** A page that does not advance, after pages that all did, stops the loop with all their titles. */
  lemma StopAfter(advancing: seq<PageObservation>, last: PageObservation)
    requires forall i :: 0 <= i < |advancing| ==> Advances(advancing[i])
    requires !Advances(last)
    ensures Run(advancing + [last]) == Extraction(Concat(advancing) + PageTitles(last), Done)
  {
    var pages := advancing + [last];
    assert pages[..|advancing|] == advancing;
    RunWhileAdvancing(pages, |advancing|);
    assert Run(pages) == Step(Run(advancing), last);
    assert Concat(pages) == Concat(advancing) + PageTitles(last);
  }

  /** The loop runs on through every page exactly when every page advances. */
  lemma {:induction false} FetchingIffAllAdvance(pages: seq<PageObservation>)
    ensures Run(pages).phase == Fetching <==> forall i :: 0 <= i < |pages| ==> Advances(pages[i])
    decreases |pages|
  {
    if pages != [] {
      var init := pages[..|pages| - 1];
      FetchingIffAllAdvance(init);
      if Run(pages).phase == Fetching {
        forall i | 0 <= i < |pages| ensures Advances(pages[i]) {
          if i < |init| {
            assert pages[i] == init[i];
          }
        }
      }
    }
  }

  /**
   * `all_books` only grows: what the loop has gathered from a run of pages is
   * kept whatever the later pages do, and after a stop nothing changes.
   */
  lemma {:induction false} TitlesOnlyGrow(pages: seq<PageObservation>, more: seq<PageObservation>)
    ensures Run(pages).titles <= Run(pages + more).titles
    ensures Run(pages).phase == Done ==> Run(pages + more) == Run(pages)
    decreases |more|
  {
    if more == [] {
      assert pages + more == pages;
    } else {
      var init := more[..|more| - 1];
      TitlesOnlyGrow(pages, init);
      assert (pages + more)[..|pages + more| - 1] == pages + init;
    }
  }

  /** A first page without a "next" control gives exactly that page's titles. */
  lemma MissingNextGivesOnePage(titles: seq<string>, later: seq<PageObservation>)
    ensures Run([Loaded(titles, Missing)] + later) == Extraction(titles, Done)
  {
    RunStopsAtFirstTerminal([], Loaded(titles, Missing), later);
    assert [] + [Loaded(titles, Missing)] + later == [Loaded(titles, Missing)] + later;
  }

  /**
   * `get_goodreads_to_read_list` from the moment the list page is open:
   * `pages[i]` is what the browser shows in round `i` of the loop. The phase
   * is `Fetching` only if the observations ran out before the loop stopped.
   */
  method GetToReadList(pages: seq<PageObservation>) returns (allBooks: seq<string>, phase: Phase)
    ensures Extraction(allBooks, phase) == Run(pages)
  {
    allBooks := [];
    phase := Fetching;
    var i := 0;
    while i < |pages|
      invariant 0 <= i <= |pages|
      invariant Run(pages[..i]) == Extraction(allBooks, Fetching)
      invariant phase == Fetching
    {
      var page := pages[i];
      assert pages[..i + 1][..i] == pages[..i];
      if page.TimedOut? {
        phase := Done;
        DoneIsFinal(pages, i + 1);
        return;
      }
      allBooks := allBooks + page.titles;
      match page.next {
        case Missing =>
          phase := Done;
          DoneIsFinal(pages, i + 1);
          return;
        case Present(classAttr, clickSucceeds) =>
          if Contains(classAttr, DisabledMarker) || !clickSucceeds {
            phase := Done;
            DoneIsFinal(pages, i + 1);
            return;
          }
      }
      i := i + 1;
    }
    assert pages[..i] == pages;
  }
}
