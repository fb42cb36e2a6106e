/** Loops that need not end: one turn of the loop body as a function, and what it means for the loop to end. */
module Loops {

  /** The loop goes on with a new state, or it is left with a result. */
  datatype Turn<S, R> = Again(state: S) | Done(result: R)

  /** Where the loop is after at most `n` turns. */
  function After<S, R>(turn: S -> Turn<S, R>, s: S, n: nat): Turn<S, R>
    decreases n
  {
    if n == 0 then Again(s)
    else
      match turn(s)
      case Again(t) => After(turn, t, n - 1)
      case Done(r) => Done(r)
  }

  ghost predicate Ends<S, R>(turn: S -> Turn<S, R>, s: S) { exists n: nat :: After(turn, s, n).Done? }

  /** One turn neither makes a loop end nor keeps it from ending. */
  lemma EndsTurn<S, R>(turn: S -> Turn<S, R>, s: S)
    ensures Ends(turn, s) <==> match turn(s) case Again(t) => Ends(turn, t) case Done(_) => true
  {
    match turn(s)
    case Done(r) => assert After(turn, s, 1).Done?;
    case Again(t) =>
      if Ends(turn, s) {
        var n: nat :| After(turn, s, n).Done?;
        assert After(turn, t, n - 1).Done?;
      }
      if Ends(turn, t) {
        var n: nat :| After(turn, t, n).Done?;
        assert After(turn, s, n + 1).Done?;
      }
  }

  /** A turn that leads back to the same state is taken for ever. */
  lemma {:induction false} SameState<S, R>(turn: S -> Turn<S, R>, s: S, n: nat)
    requires turn(s) == Again(s)
    ensures After(turn, s, n) == Again(s)
    decreases n
  {
    if n > 0 {
      SameState(turn, s, n - 1);
    }
  }

  lemma Spins<S, R>(turn: S -> Turn<S, R>, s: S)
    requires turn(s) == Again(s)
    ensures !Ends(turn, s)
  {
    forall n: nat ensures !After(turn, s, n).Done? {
      SameState(turn, s, n);
    }
  }

  /** And so is every loop that comes to such a state. */
  lemma {:induction false} NeverEnds<S, R>(turn: S -> Turn<S, R>, s: S, t: S, n: nat)
    requires After(turn, s, n) == Again(t) && turn(t) == Again(t)
    ensures !Ends(turn, s)
    decreases n
  {
    if n == 0 {
      Spins(turn, t);
    } else {
      NeverEnds(turn, turn(s).state, t, n - 1);
      EndsTurn(turn, s);
    }
  }
}
