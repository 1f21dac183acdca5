/** The configuration of a spell checker: three independent settings with defaults. */
module SpellCheckerParameters {

  class SpellCheckerParameter {
    var threshold: real
    var deMiCheck: bool
    var rootNGram: bool

    /** The defaults: threshold 0.0, and both flags on. */
    constructor ()
      ensures GetThreshold() == 0.0 && DeMiCheck() && IsRootNGram()
    {
      threshold := 0.0;
      deMiCheck := true;
      rootNGram := true;
    }

    /** Any threshold is accepted, negative ones included. */
    method SetThreshold(t: real)
      modifies this
      ensures GetThreshold() == t
      ensures DeMiCheck() == old(DeMiCheck()) && IsRootNGram() == old(IsRootNGram())
    {
      threshold := t;
    }

    method SetDeMiCheck(b: bool)
      modifies this
      ensures DeMiCheck() == b
      ensures GetThreshold() == old(GetThreshold()) && IsRootNGram() == old(IsRootNGram())
    {
      deMiCheck := b;
    }

    method SetRootNGram(b: bool)
      modifies this
      ensures IsRootNGram() == b
      ensures GetThreshold() == old(GetThreshold()) && DeMiCheck() == old(DeMiCheck())
    {
      rootNGram := b;
    }

    function GetThreshold(): real
      reads this
    {
      threshold
    }

    function DeMiCheck(): bool
      reads this
    {
      deMiCheck
    }

    function IsRootNGram(): bool
      reads this
    {
      rootNGram
    }
  }
}
