/** The page navigation of `main`: a session value `current_page`, five
    sidebar buttons that overwrite it, and an if/elif chain that runs the
    handler of the current page. */
module Navigation {
  import opened Wrappers

  // The values `main` stores in `st.session_state.current_page`.
  const IntroductionPage := "Introduction"
  const GeospatialPage := "Geospatial Visualisation"
  const PriceLocationPage := "Price_location Visualisation"
  const LocationBasedPage := "Location based Visualisation"
  const CorrelationPage := "Correlation Visualisation"

  /** The sidebar buttons. Their labels are "Introduction", "Geospatial
      Visualisation", "Price Location Visualisation", "Location based
      Visualisation" and "Correlation Visualisation". */
  datatype Button = IntroductionButton | GeospatialButton | PriceLocationButton
                  | LocationBasedButton | CorrelationButton

  /** The page functions the dispatch can call. */
  datatype Handler = IntroHandler | GeospatialHandler | PriceHandler
                   | LocationHandler | CorrelationHandler

  /** The value a button writes into `current_page`. */
  function Target(b: Button): (r: string)
    ensures r in [IntroductionPage, GeospatialPage, PriceLocationPage, LocationBasedPage, CorrelationPage]
  {
    match b
    case IntroductionButton => IntroductionPage
    case GeospatialButton => GeospatialPage
    case PriceLocationButton => PriceLocationPage
    case LocationBasedButton => LocationBasedPage
    case CorrelationButton => CorrelationPage
  }

  /** The if/elif chain: the handler run for a page value, if any. */
  function Dispatch(page: string): (r: Option<Handler>)
    ensures r.Some? <==> exists b: Button :: Target(b) == page
  {
    if page == IntroductionPage then
      assert Target(IntroductionButton) == page;
      Some(IntroHandler)
    else if page == GeospatialPage then
      assert Target(GeospatialButton) == page;
      Some(GeospatialHandler)
    else if page == PriceLocationPage then
      assert Target(PriceLocationButton) == page;
      Some(PriceHandler)
    else if page == LocationBasedPage then
      assert Target(LocationBasedButton) == page;
      Some(LocationHandler)
    else if page == CorrelationPage then
      assert Target(CorrelationButton) == page;
      Some(CorrelationHandler)
    else None
  }

  /** `current_page` after one run of `main`: the stored value, or
      "Introduction" when the key is absent, overwritten by the button
      pressed in this run, if any. Streamlit reports at most one pressed
      button per run. */
  function Step(current: Option<string>, pressed: Option<Button>): (r: string)
    ensures (current.None? || Dispatch(current.value).Some?) ==> Dispatch(r).Some?
    ensures pressed.Some? ==> Dispatch(r).Some?
  {
    var page := if current.None? then IntroductionPage else current.value;
    if pressed.Some? then Target(pressed.value) else page
  }

  /** `current_page` after a sequence of runs, starting from `start`. */
  function PageAfter(start: Option<string>, presses: seq<Option<Button>>): Option<string>
    decreases |presses|
  {
    if presses == [] then start
    else Some(Step(PageAfter(start, presses[..|presses| - 1]), presses[|presses| - 1]))
  }

  /** A handler runs exactly for the five stored page values. */
  lemma DispatchKnownPages(page: string)
    ensures Dispatch(page).Some? <==>
      page in [IntroductionPage, GeospatialPage, PriceLocationPage, LocationBasedPage, CorrelationPage]
  {
  }

  /** Different page values run different handlers, so each value selects one handler. */
  lemma DispatchInjective(p: string, q: string)
    requires Dispatch(p).Some? && Dispatch(p) == Dispatch(q)
    ensures p == q
  {
  }

  /** Every button leads to a handler, different buttons to different handlers,
      and every handler is reachable from its button. */
  lemma ButtonsReachEveryHandler(b: Button, b': Button, h: Handler)
    ensures Dispatch(Target(b)).Some?
    ensures Dispatch(Target(b)) == Dispatch(Target(b')) ==> b == b'
    ensures exists c: Button :: Dispatch(Target(c)) == Some(h)
  {
    match h
    case IntroHandler => assert Dispatch(Target(IntroductionButton)) == Some(h);
    case GeospatialHandler => assert Dispatch(Target(GeospatialButton)) == Some(h);
    case PriceHandler => assert Dispatch(Target(PriceLocationButton)) == Some(h);
    case LocationHandler => assert Dispatch(Target(LocationBasedButton)) == Some(h);
    case CorrelationHandler => assert Dispatch(Target(CorrelationButton)) == Some(h);
  }

  /** A press sets the page whatever it was; without a press an existing page
      is kept and an absent one becomes "Introduction". */
  lemma StepCases(current: Option<string>, pressed: Option<Button>)
    ensures pressed.Some? ==> Step(current, pressed) == Target(pressed.value)
    ensures pressed.None? && current.Some? ==> Step(current, pressed) == current.value
    ensures pressed.None? && current.None? ==> Step(current, pressed) == IntroductionPage
  {
  }

  /** The page after a sequence of runs is the target of the last press. */
  lemma {:induction false} LastPressWins(start: Option<string>, presses: seq<Option<Button>>, k: nat)
    requires k < |presses| && presses[k].Some?
    requires forall j | k < j < |presses| :: presses[j].None?
    ensures PageAfter(start, presses) == Some(Target(presses[k].value))
  {
    if k < |presses| - 1 {
      var init := presses[..|presses| - 1];
      LastPressWins(start, init, k);
    }
  }

  /** Runs without a press keep an existing page, and leave "Introduction"
      when there was none. */
  lemma {:induction false} NoPressKeepsPage(start: Option<string>, presses: seq<Option<Button>>)
    requires forall j | 0 <= j < |presses| :: presses[j].None?
    ensures presses != [] || start.Some? ==>
      PageAfter(start, presses) == Some(if start.Some? then start.value else IntroductionPage)
  {
    if presses != [] {
      NoPressKeepsPage(start, presses[..|presses| - 1]);
    }
  }

  /** Introduction, Geospatial, Correlation, Geospatial: the session ends on
      the geospatial page and runs its handler. */
  lemma ClickSequenceEndsOnGeospatial()
    ensures var presses := [Some(IntroductionButton), Some(GeospatialButton),
                            Some(CorrelationButton), Some(GeospatialButton)];
      PageAfter(None, presses) == Some(GeospatialPage)
      && Dispatch(PageAfter(None, presses).value) == Some(GeospatialHandler)
  {
    var presses := [Some(IntroductionButton), Some(GeospatialButton),
                    Some(CorrelationButton), Some(GeospatialButton)];
    LastPressWins(None, presses, 3);
  }

  /** One user session: the `st.session_state` entry `current_page`. */
  class Session {
    /** `None` while `current_page` is not in the session state. */
    var currentPage: Option<string>

    /** The stored page is absent or one of the five page values. */
    predicate Known()
      reads this
    {
      currentPage.None? || Dispatch(currentPage.value).Some?
    }

    /** A new session has no `current_page`. */
    constructor ()
      ensures currentPage == None && Known()
    {
      currentPage := None;
    }

    /** One run of `main`: set the default page, apply the pressed button,
        and return the handler the if/elif chain runs. */
    method Rerun(pressed: Option<Button>) returns (handler: Option<Handler>)
      modifies this
      ensures currentPage == Some(Step(old(currentPage), pressed))
      ensures handler == Dispatch(currentPage.value)
      ensures old(Known()) ==> Known() && handler.Some?
    {
      if currentPage.None? {
        currentPage := Some(IntroductionPage);
      }
      if pressed == Some(IntroductionButton) {
        currentPage := Some(IntroductionPage);
      }
      if pressed == Some(GeospatialButton) {
        currentPage := Some(GeospatialPage);
      }
      if pressed == Some(PriceLocationButton) {
        currentPage := Some(PriceLocationPage);
      }
      if pressed == Some(LocationBasedButton) {
        currentPage := Some(LocationBasedPage);
      }
      if pressed == Some(CorrelationButton) {
        currentPage := Some(CorrelationPage);
      }
      handler := Dispatch(currentPage.value);
    }
  }
}
