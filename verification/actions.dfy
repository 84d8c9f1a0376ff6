/** The reverser's actions and the integer control that selects them. */
module Actions {

  /** `action_t`. The C++ casts the integer control straight to the enum.
      The control port is declared with range `0..3`, but nothing enforces
      it, and casting a value outside the enum's range is undefined in C++.
      The model keeps such a value as `Unlisted(code)`, which `run()`'s
      switches treat like hold. */
  datatype Action = Record | Hold | Play1 | Play2 | Unlisted(code: int)
  {
    /** Both play actions; the direction comes from the separate `forward`
        control, not from the action. */
    predicate IsPlay()
    {
      Play1? || Play2?
    }

    /** `Unlisted` only ever carries a code that names no enumerator. */
    predicate WellFormed()
    {
      Unlisted? ==> !(0 <= code <= 3)
    }
  }

  /** The integer value of an action, as `static_cast<int>` would give it. */
  function Code(a: Action): int
  {
    match a
    case Record => 0
    case Hold => 1
    case Play1 => 2
    case Play2 => 3
    case Unlisted(c) => c
  }

  /** `static_cast<action_t>(static_cast<int>(action_ctrl))`: the enumerator
      with the given integer value. Converting back yields the control. */
  function FromControl(control: int): (a: Action)
    ensures a.WellFormed()
    ensures Code(a) == control
    ensures 0 <= control <= 3 <==> !a.Unlisted?
  {
    if control == 0 then Record
    else if control == 1 then Hold
    else if control == 2 then Play1
    else if control == 3 then Play2
    else Unlisted(control)
  }

  /** Every well-formed action is what its own code converts to. */
  lemma FromControlCode(a: Action)
    requires a.WellFormed()
    ensures FromControl(Code(a)) == a
  {
  }

  /** Exchanges the two play actions and leaves the others alone. */
  function SwapPlay(a: Action): (r: Action)
    ensures r.IsPlay() <==> a.IsPlay()
    ensures r.WellFormed() <==> a.WellFormed()
    ensures !a.IsPlay() ==> r == a
  {
    match a
    case Play1 => Play2
    case Play2 => Play1
    case _ => a
  }
}
