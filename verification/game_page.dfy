/**
  The decisions of the game page: when a guess may be submitted and what
  submitting does to the field, which guesses have their reasoning expanded, and
  how the end-of-game notice behaves when fed by the live stream.
 */
module GamePage {
  import opened Wrappers
  import opened GameApi
  import opened CodeInput
  import opened CompletionModal
  import opened GameStream

  /** The guess request: the game identifier taken from the route, and the code. */
  datatype GuessRequest = GuessRequest(gameId: string, guess: string)

  /** The guess field after a press, and the request sent, if any. */
  datatype SubmitOutcome = SubmitOutcome(field: CodeField, request: Option<GuessRequest>)

  /** The route's optional mode segment; anything but `ai-vs-ai` is Player vs AI. */
  predicate IsAiVsAiMode(mode: Option<string>) {
    mode == Some("ai-vs-ai")
  }

  predicate IsPlayer1Turn(s: GameState) {
    s.waitingForPlayer == Player1
  }

  predicate IsGameCompleted(s: GameState) {
    s.status == Completed
  }

  /** The `disabled` condition of the Submit button. */
  predicate SubmitButtonDisabled(f: CodeField, s: GameState) {
    !Submittable(f) || !IsPlayer1Turn(s) || IsGameCompleted(s)
  }

  /** Whether the Enter key in the guess box is bound to the submit handler. */
  predicate EnterSubmits(f: CodeField, s: GameState) {
    Submittable(f) && IsPlayer1Turn(s) && !IsGameCompleted(s)
  }

  /** The Enter key and the button use the same gate, and on a field produced by
      the change handler that gate is: a valid code, player 1 to move, and a game
      that is in progress or cancelled. A cancelled game does not close it. */
  lemma SubmitGate(f: CodeField, s: GameState)
    requires Consistent(f)
    ensures EnterSubmits(f, s) <==> !SubmitButtonDisabled(f, s)
    ensures EnterSubmits(f, s) <==>
              IsValidCode(f.value) && s.waitingForPlayer == Player1 && s.status in {InProgress, Cancelled}
  {
  }

  /** A press of the Submit button or of Enter in the guess box. The form exists
      only when the route names a game, the mode is Player vs AI and a snapshot
      has arrived; a press that passes the gate sends the guess and clears the field
      and its message. */
  function PressSubmit(gameId: string, mode: Option<string>, f: CodeField, gs: Option<GameState>): (r: SubmitOutcome)
    ensures r.request.Some? <==>
              gameId != "" && !IsAiVsAiMode(mode) && gs.Some? && !SubmitButtonDisabled(f, gs.value)
    ensures r.request.Some? ==> r.request.value == GuessRequest(gameId, f.value) && r.field == EmptyField
    ensures r.request.None? ==> r.field == f
    ensures Consistent(f) && r.request.Some? ==> IsValidCode(r.request.value.guess)
  {
    if gameId != "" && !IsAiVsAiMode(mode) && gs.Some? && EnterSubmits(f, gs.value) then
      SubmittableIffValidCode(f);
      SubmitOutcome(EmptyField, Some(GuessRequest(gameId, f.value)))
    else
      SubmitOutcome(f, None)
  }

  /** The change handler never lets a guess through that is not four distinct
      digits: whatever was typed, a request sent right after it carries a valid
      code built from the first four digits typed. */
  lemma TypedThenSubmitted(gameId: string, mode: Option<string>, raw: string, gs: Option<GameState>)
    ensures var r := PressSubmit(gameId, mode, Edit(raw), gs);
            r.request.Some? ==>
              IsValidCode(r.request.value.guess) && r.request.value.guess == Digits(raw)[..CodeLength]
  {
  }

  /** Expanding or collapsing the reasoning shown for the guess at `index`. */
  function ToggleReasoning(expanded: set<int>, index: int): (r: set<int>)
    ensures index in r <==> index !in expanded
    ensures forall j :: j != index ==> (j in r <==> j in expanded)
  {
    if index in expanded then expanded - {index} else expanded + {index}
  }

  lemma ToggleTwice(expanded: set<int>, index: int)
    ensures ToggleReasoning(ToggleReasoning(expanded, index), index) == expanded
  {
  }

  /** The status the page sees after each event of the stream. */
  function StatusesSeen(events: seq<Event>): (statuses: seq<Option<Status>>)
    ensures |statuses| == |events|
  {
    seq(|events|, k requires 0 <= k < |events| =>
      var s := Replay(events[..k + 1]);
      if s.gameState.Some? then Some(s.gameState.value.status) else None)
  }

  /** The stream closes on the first completed snapshot, so the status the page sees
      never leaves `completed`. */
  lemma StreamStaysCompleted(events: seq<Event>)
    ensures StaysCompleted(StatusesSeen(events))
  {
    var statuses := StatusesSeen(events);
    forall i, j | 0 <= i < j < |statuses| && statuses[i] == Some(Completed)
      ensures statuses[j] == Some(Completed)
    {
      var upToI := events[..i + 1];
      ReplayInvariant(upToI);
      assert Replay(upToI).closed;
      assert upToI + events[i + 1..j + 1] == events[..j + 1];
      ClosedAbsorbs(upToI, events[i + 1..j + 1]);
    }
  }

  /** Fed by the live stream, the end-of-game notice opens at most once. */
  lemma NoticeOpensAtMostOnce(events: seq<Event>)
    ensures var trace := FireTrace(Mounted, StatusesSeen(events));
            forall i, j :: (0 <= i < |trace| && 0 <= j < |trace| && trace[i] && trace[j]) ==> i == j
  {
    StreamStaysCompleted(events);
    FiresAtMostOnce(StatusesSeen(events));
  }
}
