/** A single cell of the Game of Life: a mutable state and a fixed position (cell.py). */
module Cells {
  import opened Wrappers

  /** The two states; the program spells them "dead" and "alive". */
  datatype State = Dead | Alive

  /** The error a cell raises: a state text other than "dead" or "alive". */
  datatype Error = InvalidState(text: string)

  /** The text the program stores for a state. */
  function StateName(s: State): string
  {
    match s
    case Dead => "dead"
    case Alive => "alive"
  }

  /** The membership test of _check_state_validity, returning the state the text names. */
  function CheckStateValidity(text: string): (r: Result<State, Error>)
    ensures r.Success? <==> text == "dead" || text == "alive"
    ensures r.Success? ==> StateName(r.value) == text
    ensures r.Failure? ==> r.error == InvalidState(text)
  {
    if text == "dead" then Success(Dead)
    else if text == "alive" then Success(Alive)
    else Failure(InvalidState(text))
  }

  /** The opposite state: what the argument-less change_state stores. */
  function Flip(s: State): (r: State)
    ensures r != s
  {
    if StateName(s) == "dead" then Alive else Dead
  }

  lemma FlipTwice(s: State)
    ensures Flip(Flip(s)) == s
  {
  }

  /** Lower-casing of one ASCII letter; every other character is kept. */
  function Lower(c: char): char
  {
    if 'A' <= c <= 'Z' then (c as int - 'A' as int + 'a' as int) as char else c
  }

  /** Case folding of the state text, restricted to ASCII letters. */
  function CaseFold(text: string): (r: string)
    ensures |r| == |text|
    ensures forall i :: 0 <= i < |text| ==> r[i] == Lower(text[i])
  {
    if text == [] then [] else [Lower(text[0])] + CaseFold(text[1..])
  }

  /** The validation the constructor applies: fold the text, then test it. */
  function FoldedState(text: string): (r: Result<State, Error>)
    ensures r.Success? <==> CaseFold(text) == "dead" || CaseFold(text) == "alive"
    ensures r.Success? ==> StateName(r.value) == CaseFold(text)
    ensures r.Failure? ==> r.error == InvalidState(CaseFold(text))
  {
    CheckStateValidity(CaseFold(text))
  }

  /** The default state text "dead" is accepted and names Dead. */
  lemma DefaultStateIsDead()
    ensures FoldedState("dead") == Success(Dead)
  {
  }

  /** Folding a stored state name changes nothing, and a folded text folds to itself. */
  lemma {:induction false} CaseFoldIdempotent(text: string)
    ensures CaseFold(CaseFold(text)) == CaseFold(text)
  {
    var once := CaseFold(text);
    var twice := CaseFold(once);
    forall i | 0 <= i < |text|
      ensures twice[i] == once[i]
    {
      assert once[i] == Lower(text[i]);
    }
  }

  /** Every text that equals "alive" up to ASCII case is accepted as Alive, e.g. "ALIVE". */
  lemma AnyCaseAccepted(text: string, s: State)
    requires CaseFold(text) == StateName(s)
    ensures FoldedState(text) == Success(s)
  {
  }

  class Cell {
    var state: State
    /** Never written after construction, hence a constant field. */
    const position: (int, int)

    constructor (state: State, position: (int, int))
      ensures this.state == state && this.position == position
    {
      this.state := state;
      this.position := position;
    }

    /**
     * Cell(state, position) of the program: the state text is case-folded, then
     * validated; a text other than "dead" or "alive" is refused. The position is
     * any pair of integers (no sign check).
     */
    static method New(state: string := "dead", nameonly position: (int, int)) returns (r: Result<Cell, Error>)
      ensures r.Success? <==> CaseFold(state) == "dead" || CaseFold(state) == "alive"
      ensures r.Failure? ==> r.error == InvalidState(CaseFold(state))
      ensures r.Success? ==> fresh(r.value) && r.value.position == position
      ensures r.Success? ==> StateName(r.value.state) == CaseFold(state)
    {
      var checked := FoldedState(state);
      if checked.Failure? {
        return Failure(checked.error);
      }
      var c := new Cell(checked.value, position);
      return Success(c);
    }

    /** get_current_state: the stored text, always one of the two valid names. */
    function CurrentState(): (s: string)
      reads this
      ensures s == "dead" || s == "alive"
      ensures s == "alive" <==> state == Alive
    {
      StateName(state)
    }

    function XPosition(): int
    {
      position.0
    }

    function YPosition(): int
    {
      position.1
    }

    /** get_current_position: the pair of the two coordinate getters. */
    function CurrentPosition(): (p: (int, int))
      ensures p == (XPosition(), YPosition())
    {
      position
    }

    /**
     * change_state: with no argument flip the state; with a text, validate it
     * (without folding) and store it, leaving the state unchanged on refusal.
     */
    method ChangeState(requested: Option<string> := None) returns (r: Result<(), Error>)
      modifies this
      ensures requested.None? ==> r.Success? && state == Flip(old(state))
      ensures requested.Some? ==> (r.Success? <==> requested.value == "dead" || requested.value == "alive")
      ensures requested.Some? && r.Success? ==> state == CheckStateValidity(requested.value).value
      ensures r.Failure? ==> state == old(state) && r.error == InvalidState(requested.value)
    {
      if requested.None? {
        var current := StateName(state);
        // the re-validation of the stored state; it cannot refuse a State
        var _ := CheckStateValidity(current);
        if current == "dead" {
          state := Alive;
        } else {
          state := Dead;
        }
        return Success(());
      }
      var checked := CheckStateValidity(requested.value);
      if checked.Failure? {
        return Failure(checked.error);
      }
      state := checked.value;
      return Success(());
    }
  }
}
