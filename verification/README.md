# Code Breaker client: decision logic in Dafny

This project models the decision logic of the web client for a four-digit,
unique-digit code-breaking game ("Player vs AI" or "AI vs AI"). The client shows a
game's state, lets the human player submit guesses, and follows a
server-pushed stream of game snapshots. The model covers:

- the code field shared by the game page (a guess) and the home page (a secret
  code). Every change strips non-digits and keeps the first four characters of
  the text the box passes to its handler. A
  complete value with a repeated digit gets the message "All digits must be
  unique". `validateGuess` (`src/pages/game.tsx:78-91`) and `validateSecretCode`
  (`src/pages/home.tsx:32-45`) are textually identical, so both are modelled by
  the one function `CodeInput.Validate`. Both change handlers are modelled by
  `CodeInput.Edit`.
- the gate on submitting a guess, and the reset of the field after a submit;
- the grouping of the history into display rounds, newest first;
- the end-of-game notice, which opens on the transition into `completed`;
- the set of guesses whose AI reasoning is expanded;
- the live stream as a state machine over decoded snapshots. Each message
  replaces the snapshot. A `completed` snapshot is stored and then the connection
  closes. The hook closes its connection on cleanup and when the game id changes.
- the home page dialog: opening it, closing it, the Start gate, the reset after a
  start, and navigation to the new game.

Modules, one file each: `Wrappers` (Option, Result), `GameApi` (status, player,
guess, snapshot), `CodeInput`, `Rounds`, `CompletionModal`, `GameStream`,
`GamePage`, `HomePage`.

Each operation is paired with an independent statement of what it means:

- The rounds scan is paired with `Canonical`, a description of well-formed
  groupings. Every canonical grouping that flattens back to a history is the one
  the scan produces.
- The stream replay is paired with an index-based description of which message's
  snapshot is held.
- The notice's step function is paired with a per-position description of when it
  fires.
- The digit filter is characterised by how it distributes over concatenation.

The predicates `CodeInput.Submittable` (`isGuessValid`, `src/pages/game.tsx:122`;
`isCodeValid`, `src/pages/home.tsx:77`), `HomePage.CanStart` and
`GamePage.IsAiVsAiMode` (`src/pages/game.tsx:51-52`) transcribe source
expressions; the lemmas that use them state what they mean.

Strings are `seq<char>`. The input box and its validator only ever hold ASCII
digits, so the difference between UTF-16 code units and Dafny characters does not
arise.

## Model

| member | source | states |
|---|---|---|
| CodeInput.Digits | src/pages/game.tsx:94 | removing non-digits leaves only ASCII digits, never lengthens the text, and leaves a digit string unchanged |
| CodeInput.DigitsAppend | src/pages/game.tsx:94 | removing non-digits distributes over concatenation, so it keeps every digit in its original order |
| CodeInput.DigitsSingle | src/pages/game.tsx:94 | a single character survives the filter iff it is a digit |
| CodeInput.DigitsKeepsAll | src/pages/game.tsx:94 | the filter removes nothing iff every character is a digit |
| CodeInput.Normalize | src/pages/game.tsx:94 | the cleaned value holds only digits, has at most four characters, is a prefix of the input's digits, and is exactly min(4, number of digits) long |
| CodeInput.NormalizeIdempotent | src/pages/game.tsx:94 | cleaning twice equals cleaning once; the values cleaning leaves unchanged are exactly the digit strings of length at most four |
| CodeInput.NormalizeIncremental | src/pages/game.tsx:93-96 | for text passed to the change handler: appending more text after the cleaned value and cleaning again gives the same value as cleaning the whole text at once (a fact about the cleaning function; the box's four-character cap decides what text the handler actually receives) |
| CodeInput.CharSetSize | src/pages/game.tsx:85-87 | a string has as many distinct characters as characters exactly when no character repeats |
| CodeInput.Validate | src/pages/game.tsx:78-91 | no message below four characters; at four characters the unique-digits message appears iff some character repeats; no other message exists |
| CodeInput.Edit | src/pages/game.tsx:93-97 | the change handler stores the cleaned value together with that value's validation message |
| CodeInput.SubmittableIffValidCode | src/pages/game.tsx:122 | for a field produced by the change handler, "length 4 and no message" holds iff the value is four pairwise-distinct digits |
| CodeInput.EditSubmittable | src/pages/home.tsx:57-61 | after a change, the field is submittable iff the text passed to the handler has at least four digits and its first four are pairwise distinct |
| CodeInput.CleanWithinMaxLength | src/pages/game.tsx:273 | on the at most four characters the box lets through, cleaning only drops the non-digits |
| CodeInput.EditWithinMaxLength | src/pages/game.tsx:273 | on the at most four characters the box lets through, the field is submittable iff that text is itself four distinct digits |
| CodeInput.EmptyFieldConsistent | src/pages/home.tsx:26-27 | the initial empty field is a consistent field and cannot be submitted |
| Rounds.Reverse | src/pages/game.tsx:181 | reversal keeps the length and puts element i at position length-1-i |
| Rounds.Player1OpensRound | src/pages/game.tsx:167-169 | a player-1 guess always appends a new round holding only itself |
| Rounds.Player2JoinsOpenRound | src/pages/game.tsx:174-176 | a player-2 guess fills the latest round's empty player-2 slot and leaves the earlier rounds alone |
| Rounds.Player2OpensRound | src/pages/game.tsx:172-173 | a player-2 guess with no round yet, or with the latest slot taken, appends a player-2-only round |
| Rounds.ChronologicalRoundTrip | src/pages/game.tsx:164-178 | the scan yields well-formed non-empty rounds, never a player-2-only round right after an open slot, and they flatten back to the exact history |
| Rounds.ChronologicalUnique | src/pages/game.tsx:164-178 | any canonical grouping that flattens to a history is the grouping the scan produces |
| Rounds.GroupGuessesIntoRounds | src/pages/game.tsx:161-182 | read oldest first, the rounds returned flatten back to the exact history and form a canonical grouping (well-formed rounds, no player-2-only round right after an open slot); with ChronologicalUnique this fixes the result |
| Rounds.ExampleCompleteThenOpen | src/pages/game.tsx:167-181 | P1, P2, P1 is shown as [P1-only round, complete round] |
| Rounds.ExampleConsecutivePlayer2 | src/pages/game.tsx:172-173 | two consecutive player-2 guesses give two player-2-only rounds |
| CompletionModal.OnStatus | src/pages/game.tsx:56-65 | an update opens the notice iff the new status is completed and the recorded one is known and not completed; the new status is then recorded |
| CompletionModal.Dismiss | src/pages/game.tsx:509 | closing the notice hides it and keeps the recorded status |
| CompletionModal.RerunIsNoop | src/pages/game.tsx:56-65 | a run whose status equals the remembered one changes nothing, including after the notice was closed and right after mounting, so the dependency filter does not alter behaviour |
| CompletionModal.FireTraceCharacterized | src/pages/game.tsx:56-65 | over any sequence of updates, update k opens the notice iff it is completed and the status before it was known and not completed |
| CompletionModal.FiresAtMostOnce | src/pages/game.tsx:55-65 | along statuses that stay completed once completed, the notice opens at most once |
| CompletionModal.NeverFiresWithoutEarlierStatus | src/pages/game.tsx:57-61 | if no status other than completed is ever known, the notice never opens |
| CompletionModal.ExampleFiresOnThird | src/pages/game.tsx:57-64 | in_progress, in_progress, completed, completed opens the notice on the third update only |
| GameStream.Receive | src/hooks/useGameState.tsx:15-26 | an open connection replaces the snapshot with the message's snapshot and closes iff it is completed; errors and closed connections change nothing |
| GameStream.ReplayInvariant | src/hooks/useGameState.tsx:5-26 | after any events, the connection is closed iff it holds a completed snapshot, and the error slot is still null |
| GameStream.ClosedAbsorbs | src/hooks/useGameState.tsx:19-21 | once closed, later events leave the connection unchanged |
| GameStream.ReplayCharacterized | src/hooks/useGameState.tsx:15-22 | closed iff some message was completed; no snapshot iff no message arrived; the held snapshot is that of the first completed message, or else of the last message |
| GameStream.Mount | src/hooks/useGameState.tsx:4-13 | the hook starts with no snapshot, no error and exactly one open connection for its game |
| GameStream.Deliver | src/hooks/useGameState.tsx:15-26 | an event on the open connection acts as one step of the stream; a closed connection delivers nothing; other connections are untouched |
| GameStream.Unmount | src/hooks/useGameState.tsx:28-32 | cleanup leaves every connection closed |
| GameStream.ChangeGameId | src/hooks/useGameState.tsx:8-33 | a new game id closes every earlier connection and opens one for the new id, keeping the stored snapshot; the same id changes nothing |
| GameStream.AtMostOneOpen | src/hooks/useGameState.tsx:8-33 | in every reachable hook state at most one connection is open |
| GameStream.MountedHookFollowsReplay | src/hooks/useGameState.tsx:4-35 | events on a freshly mounted hook give the same snapshot and closed flag as the single-connection replay, and the error stays null |
| GamePage.SubmitGate | src/pages/game.tsx:275-287 | the Enter key and the button share one gate: a valid four-distinct-digit code, player 1 to move, and status in_progress or cancelled |
| GamePage.PressSubmit | src/pages/game.tsx:99-108 | a press passing the gate sends exactly the field's code and clears value and message; a blocked press changes nothing; a sent guess is always a valid code |
| GamePage.TypedThenSubmitted | src/pages/game.tsx:93-108 | a guess sent right after a change is the first four digits of the text passed to the handler, and they are pairwise distinct |
| GamePage.ToggleReasoning | src/pages/game.tsx:110-120 | the toggled index flips membership and every other index keeps its membership |
| GamePage.ToggleTwice | src/pages/game.tsx:110-120 | toggling the same index twice restores the set |
| GamePage.StreamStaysCompleted | src/hooks/useGameState.tsx:17-21 | the status the page sees from the stream never leaves completed once it is completed |
| GamePage.NoticeOpensAtMostOnce | src/pages/game.tsx:55-65 | when fed by the live stream, the end-of-game notice opens at most once |
| HomePage.OpenPlayerVsAi | src/pages/home.tsx:47-49 | the Player-vs-AI card opens the dialog and leaves the field alone |
| HomePage.CloseModal | src/pages/home.tsx:51-55 | closing the dialog hides it and clears both the code and its message |
| HomePage.ChangeCode | src/pages/home.tsx:57-61 | the secret-code box cleans and validates like the guess box; it is submittable iff the cleaned code is four distinct digits |
| HomePage.SecretCodeMessage | src/pages/home.tsx:32-45 | the dialog shows the unique-digits message iff the code is complete with a repeat, and nothing while it is shorter |
| HomePage.PressStart | src/pages/home.tsx:63-75 | Start/Enter act iff the dialog is open and the code submittable; they send exactly that code, a valid one, and reset the page at once |
| HomePage.SettleStart | src/pages/home.tsx:66-73 | when the request settles the page is untouched; a created game navigates to /game/ followed by its id; a failed start navigates nowhere |
| HomePage.StartResetsWhateverTheOutcome | src/pages/home.tsx:63-75 | after Start and the request's settlement, success or failure, the page is in its first state |

## Left out

- HTTP requests (`src/mutations/games.ts`), EventSource transport and JSON
  decoding are not modelled. Requests appear as values the model emits. Messages
  arrive already decoded. Parse errors are not caught in the code, so the model
  has no "malformed message" case.
- Asynchronous timing is not modelled: promise settlement, React render and
  effect scheduling, and the race between a guess response and a stream push. The
  guess response is discarded, so the stream is the only writer of the snapshot.
- The browser's automatic EventSource reconnection after a transport error is
  not modelled. The hook only logs the error.
- A closed connection is modelled as delivering nothing. The message handler
  itself does not check this; the browser stops dispatching after `close()`.
- The browser's `maxLength={4}` cap on both boxes (`src/pages/game.tsx:273`,
  `src/pages/home.tsx:175`) is not modelled as an editing operation: which
  characters a paste or a mid-text insertion keeps is browser behaviour. The
  change handlers are modelled on any text. `CodeInput.EditWithinMaxLength` states
  what holds for the at most four characters the cap lets through, so on the page a
  paste of "1a2b3c4d" reaches the handler as "1a2b" and leaves "12".
- Validation runs only on cleaned values of at most four characters. On longer
  strings `CodeInput.Validate` follows the code as written: it flags anything
  without exactly four distinct characters.
- Presentation is not modelled: layout, theme, routing table
  (`src/App.tsx`), winner labels (`src/components/GameEndModal.tsx`), clipboard
  copy, the `findIndex` lookups that choose toggle indices, the disabled state of
  the guess box, and the dialog's `closable` flag.
- The AI-vs-AI card on the home page only logs; there is nothing to model.
