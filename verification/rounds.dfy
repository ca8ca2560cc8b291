/**
  Grouping of a game's history into display rounds. A single left-to-right scan
  pairs guesses: a player-1 guess always opens a round; a player-2 guess fills the
  open player-2 slot of the latest round, or opens a player-2-only round when
  there is no round yet or that slot is taken. The rounds are shown newest first.
 */
module Rounds {
  import opened Wrappers
  import opened GameApi

  /** At most one guess of each player. */
  datatype Round = Round(player1: Option<Guess>, player2: Option<Guess>)

  /** The guesses of a round in the order they were made: player 1, then player 2. */
  function Guesses(r: Round): seq<Guess> {
    (if r.player1.Some? then [r.player1.value] else [])
    + (if r.player2.Some? then [r.player2.value] else [])
  }

  /** Rounds in chronological order, back to one sequence of guesses. */
  function Flatten(rounds: seq<Round>): seq<Guess> {
    if rounds == [] then []
    else Flatten(rounds[..|rounds| - 1]) + Guesses(rounds[|rounds| - 1])
  }

  function Reverse<T>(s: seq<T>): (r: seq<T>)
    ensures |r| == |s|
    ensures forall i :: 0 <= i < |s| ==> r[i] == s[|s| - 1 - i]
  {
    if s == [] then [] else Reverse(s[1..]) + [s[0]]
  }

  lemma ReverseReverse<T>(s: seq<T>)
    ensures Reverse(Reverse(s)) == s
  {
  }

  /** A round that holds at least one guess, each in its own player's slot. */
  predicate WellFormedRound(r: Round) {
    && (r.player1.Some? || r.player2.Some?)
    && (r.player1.Some? ==> r.player1.value.player == Player1)
    && (r.player2.Some? ==> r.player2.value.player == Player2)
  }

  /** The shape the scan produces, stated without reference to the scan: every
      round is well formed, and a player-2-only round never directly follows a
      round whose player-2 slot is still open. */
  predicate Canonical(rounds: seq<Round>) {
    && (forall i :: 0 <= i < |rounds| ==> WellFormedRound(rounds[i]))
    && (forall i :: 0 <= i < |rounds| - 1 ==>
          !(rounds[i].player2.None? && rounds[i + 1].player1.None?))
  }

  /** One step of the scan: where the next guess of the history goes. */
  function Place(rounds: seq<Round>, g: Guess): seq<Round> {
    if g.player == Player1 then rounds + [Round(Some(g), None)]
    else if |rounds| == 0 || rounds[|rounds| - 1].player2.Some? then rounds + [Round(None, Some(g))]
    else rounds[..|rounds| - 1] + [rounds[|rounds| - 1].(player2 := Some(g))]
  }

  /** The rounds of a history in chronological order: the scan as a left fold. */
  function Chronological(history: seq<Guess>): seq<Round> {
    if history == [] then []
    else Place(Chronological(history[..|history| - 1]), history[|history| - 1])
  }

  /** A player-1 guess always opens a new round of its own. */
  lemma Player1OpensRound(history: seq<Guess>, g: Guess)
    requires g.player == Player1
    ensures Chronological(history + [g]) == Chronological(history) + [Round(Some(g), None)]
  {
  }

  /** A player-2 guess joins the latest round when its player-2 slot is open. */
  lemma Player2JoinsOpenRound(history: seq<Guess>, g: Guess)
    requires g.player == Player2
    requires var rs := Chronological(history); |rs| > 0 && rs[|rs| - 1].player2.None?
    ensures var rs := Chronological(history);
            Chronological(history + [g]) == rs[..|rs| - 1] + [Round(rs[|rs| - 1].player1, Some(g))]
  {
    var rs := Chronological(history);
    assert (history + [g])[..|history|] == history;
    assert Chronological(history + [g]) == Place(rs, g);
    assert rs[|rs| - 1].(player2 := Some(g)) == Round(rs[|rs| - 1].player1, Some(g));
  }

  /** A player-2 guess opens a player-2-only round when there is no round yet or
      the latest round's player-2 slot is taken. */
  lemma Player2OpensRound(history: seq<Guess>, g: Guess)
    requires g.player == Player2
    requires var rs := Chronological(history); |rs| == 0 || rs[|rs| - 1].player2.Some?
    ensures Chronological(history + [g]) == Chronological(history) + [Round(None, Some(g))]
  {
    assert (history + [g])[..|history|] == history;
  }

  lemma FlattenSnoc(rounds: seq<Round>, r: Round)
    ensures Flatten(rounds + [r]) == Flatten(rounds) + Guesses(r)
  {
  }

  lemma PlaceFlatten(rounds: seq<Round>, g: Guess)
    requires Canonical(rounds)
    ensures Flatten(Place(rounds, g)) == Flatten(rounds) + [g]
  {
  }

  lemma PlaceCanonical(rounds: seq<Round>, g: Guess)
    requires Canonical(rounds)
    ensures Canonical(Place(rounds, g))
  {
  }

  /** The scan yields canonical rounds that flatten back to the history. */
  lemma {:induction false} ChronologicalRoundTrip(history: seq<Guess>)
    ensures Canonical(Chronological(history))
    ensures Flatten(Chronological(history)) == history
  {
    if history != [] {
      var n := |history|;
      var earlier := history[..n - 1];
      var rounds := Chronological(earlier);
      ChronologicalRoundTrip(earlier);
      assert Chronological(history) == Place(rounds, history[n - 1]);
      PlaceCanonical(rounds, history[n - 1]);
      PlaceFlatten(rounds, history[n - 1]);
      assert earlier + [history[n - 1]] == history;
    }
  }

  /** Appending one round to a grouping the scan reproduces gives a grouping the
      scan also reproduces, provided the round is well formed and is not a
      player-2-only round after an open player-2 slot. */
  lemma {:induction false} ChronologicalExtend(prefix: seq<Round>, last: Round)
    requires WellFormedRound(last)
    requires |prefix| > 0 && last.player1.None? ==> prefix[|prefix| - 1].player2.Some?
    requires Chronological(Flatten(prefix)) == prefix
    ensures Chronological(Flatten(prefix) + Guesses(last)) == prefix + [last]
  {
    var h := Flatten(prefix);
    if last.player1.Some? && last.player2.None? {
      Player1OpensRound(h, last.player1.value);
    } else if last.player1.Some? {
      var a, b := last.player1.value, last.player2.value;
      Player1OpensRound(h, a);
      var rs := prefix + [Round(Some(a), None)];
      assert rs[..|rs| - 1] == prefix;
      Player2JoinsOpenRound(h + [a], b);
      assert last == Round(Some(a), Some(b));
      assert h + Guesses(last) == (h + [a]) + [b];
    } else {
      Player2OpensRound(h, last.player2.value);
    }
  }

  /** Canonical rounds are determined by the guesses they hold: any canonical
      grouping of a history is the one the scan produces. Together with
      `ChronologicalRoundTrip` this characterises the scan without running it. */
  lemma {:induction false} ChronologicalUnique(history: seq<Guess>, rounds: seq<Round>)
    requires Canonical(rounds)
    requires Flatten(rounds) == history
    ensures Chronological(history) == rounds
    decreases |rounds|
  {
    if rounds != [] {
      var n := |rounds|;
      var prefix := rounds[..n - 1];
      var last := rounds[n - 1];
      assert prefix + [last] == rounds;
      assert Canonical(prefix) by {
        assert forall i :: 0 <= i < n - 1 ==> prefix[i] == rounds[i];
      }
      assert WellFormedRound(rounds[n - 1]);
      if n > 1 {
        assert !(rounds[n - 2].player2.None? && rounds[n - 1].player1.None?);
      }
      ChronologicalUnique(Flatten(prefix), prefix);
      ChronologicalExtend(prefix, last);
      FlattenSnoc(prefix, last);
    }
  }

  /** The scan over one more guess of the same history is one more step. */
  lemma ChronologicalStep(history: seq<Guess>, i: nat)
    requires i < |history|
    ensures Chronological(history[..i + 1]) == Place(Chronological(history[..i]), history[i])
  {
    assert history[..i + 1][..i] == history[..i];
  }

  /** `groupGuessesIntoRounds`: the scan over the history, then newest first. Read
      oldest first, the result is a canonical grouping of the history, which by
      `ChronologicalUnique` is the only one. */
  method GroupGuessesIntoRounds(history: seq<Guess>) returns (rounds: seq<Round>)
    ensures Flatten(Reverse(rounds)) == history
    ensures Canonical(Reverse(rounds))
  {
    var chronological: seq<Round> := [];
    var i := 0;
    while i < |history|
      invariant 0 <= i <= |history|
      invariant chronological == Chronological(history[..i])
    {
      var guess := history[i];
      ghost var before := chronological;
      if guess.player == Player1 {
        chronological := chronological + [Round(Some(guess), None)];
      } else if |chronological| == 0 || chronological[|chronological| - 1].player2.Some? {
        chronological := chronological + [Round(None, Some(guess))];
      } else {
        var n := |chronological|;
        chronological := chronological[..n - 1] + [chronological[n - 1].(player2 := Some(guess))];
      }
      assert chronological == Place(before, guess);
      ChronologicalStep(history, i);
      i := i + 1;
    }
    assert history[..i] == history;
    rounds := Reverse(chronological);
    ReverseReverse(chronological);
    ChronologicalRoundTrip(history);
  }

  /** The three-guess history of a complete round followed by a fresh player-1 guess,
      displayed newest first. */
  lemma ExampleCompleteThenOpen(a: Guess, b: Guess, c: Guess)
    requires a.player == Player1 && b.player == Player2 && c.player == Player1
    ensures Reverse(Chronological([a, b, c]))
         == [Round(Some(c), None), Round(Some(a), Some(b))]
  {
    assert [a, b, c][..2] == [a, b];
    assert [a, b][..1] == [a];
    assert [a][..0] == [];
    assert Chronological([a]) == [Round(Some(a), None)];
    assert Chronological([a, b]) == [Round(Some(a), Some(b))];
    assert Chronological([a, b, c]) == [Round(Some(a), Some(b)), Round(Some(c), None)];
  }

  /** Consecutive player-2 guesses with no player-1 guess between them land in
      separate player-2-only rounds. */
  lemma ExampleConsecutivePlayer2(a: Guess, b: Guess)
    requires a.player == Player2 && b.player == Player2
    ensures Chronological([a, b]) == [Round(None, Some(a)), Round(None, Some(b))]
  {
    assert [a, b][..1] == [a];
    assert [a][..0] == [];
    assert Chronological([a]) == [Round(None, Some(a))];
  }
}
