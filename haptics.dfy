/** The vibration setting of the haptic feedback: a flag the player can
    switch on and off. The vibration itself is a device call and is not
    part of this model. */
module Haptics {

  class HapticFeedback {
    var enabled: bool

    /** Vibration starts switched on. */
    constructor ()
      ensures enabled
    {
      enabled := true;
    }

    /** Switches vibration on when it was off and off when it was on, and
        reports the new setting. */
    method Toggle() returns (r: bool)
      modifies this
      ensures enabled == !old(enabled)
      ensures r == enabled
    {
      enabled := !enabled;
      r := enabled;
    }

    /** Toggling twice restores the setting, and the two reports differ. */
    method ToggleTwice() returns (first: bool, second: bool)
      modifies this
      ensures enabled == old(enabled)
      ensures first != second && second == enabled
    {
      first := Toggle();
      second := Toggle();
    }
  }
}
