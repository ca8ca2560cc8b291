/**
  The decisions of the home page: the secret-code dialog for a Player-vs-AI game,
  the gate on its Start action, the reset that always follows a start, and where
  the page navigates once the new game is created.
 */
module HomePage {
  import opened Wrappers
  import opened GameApi
  import opened CodeInput

  /** Whether the dialog is showing, and its secret-code field. */
  datatype Home = Home(modalOpen: bool, code: CodeField)

  /** The page as first rendered. */
  const Initial := Home(false, EmptyField)

  /** The dialog and the page after a press of Start or Enter, with the secret code
      sent to the server, if any. */
  datatype StartOutcome = StartOutcome(page: Home, request: Option<string>)

  /** The Player-vs-AI card opens the dialog and leaves the field as it was. */
  function OpenPlayerVsAi(h: Home): (h': Home)
    ensures h'.modalOpen && h'.code == h.code
  {
    h.(modalOpen := true)
  }

  /** Closing the dialog puts the page back as it was first rendered. */
  function CloseModal(h: Home): (h': Home)
    ensures h' == Initial
    ensures !h'.modalOpen && h'.code.value == "" && h'.code.error == ""
  {
    h.(modalOpen := false, code := EmptyField)
  }

  /** The change handler of the secret-code box, the same cleaning and validation
      as the guess box. */
  function ChangeCode(h: Home, raw: string): (h': Home)
    ensures h'.modalOpen == h.modalOpen
    ensures Consistent(h'.code) && h'.code.value == Normalize(raw)
    ensures Submittable(h'.code) <==> IsValidCode(Normalize(raw))
  {
    var f := Edit(raw);
    SubmittableIffValidCode(f);
    h.(code := f)
  }

  /** After a change, the dialog shows the repeated-digit message exactly when the
      cleaned code is complete and some digit repeats; while it is shorter nothing
      is shown. */
  lemma SecretCodeMessage(h: Home, raw: string)
    ensures var f := ChangeCode(h, raw).code;
            (f.error == UniqueDigitsError <==> |f.value| == CodeLength && !AllDistinct(f.value))
            && (f.error == "" || f.error == UniqueDigitsError)
            && (|f.value| < CodeLength ==> f.error == "")
  {
  }

  /** The Start button and the Enter key act only with an open dialog and a
      submittable code. */
  predicate CanStart(h: Home) {
    h.modalOpen && Submittable(h.code)
  }

  /** A press of Start or Enter: when allowed, the code is sent and the dialog is
      closed and cleared at once, before the request settles. */
  function PressStart(h: Home): (r: StartOutcome)
    ensures r.request.Some? <==> CanStart(h)
    ensures r.request.Some? ==> r.request.value == h.code.value && r.page == Initial
    ensures r.request.None? ==> r.page == h
    ensures Consistent(h.code) && r.request.Some? ==> IsValidCode(r.request.value)
  {
    if CanStart(h) then
      SubmittableIffValidCode(h.code);
      StartOutcome(CloseModal(h), Some(h.code.value))
    else
      StartOutcome(h, None)
  }

  /** The page and the route it navigates to once the start request settles. */
  datatype Settlement = Settlement(page: Home, route: Option<string>)

  /** The settlement callbacks of the start request: a created game navigates to
      its page, a failure is only logged. Neither touches the dialog. */
  function SettleStart(h: Home, outcome: Result<GameState, string>): (r: Settlement)
    ensures r.page == h
    ensures r.route.Some? <==> outcome.Success?
    ensures outcome.Success? ==>
              |r.route.value| == 6 + |outcome.value.gameId|
              && r.route.value[..6] == "/game/" && r.route.value[6..] == outcome.value.gameId
  {
    match outcome
    case Success(state) => Settlement(h, Some("/game/" + state.gameId))
    case Failure(_) => Settlement(h, None)
  }

  /** The dialog is reset when Start is pressed, before the request settles, and the
      settlement leaves it reset, so the page ends in its first state whatever the
      request's outcome. */
  lemma StartResetsWhateverTheOutcome(h: Home, outcome: Result<GameState, string>)
    requires CanStart(h)
    ensures SettleStart(PressStart(h).page, outcome).page == Initial
  {
  }
}
