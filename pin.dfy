/** The access gate of `src/lib/pin.ts`: one shared secret, the environment
    variable ADMIN_PIN, compared by plain string equality. The variable is
    passed in as `adminPin`; `None` stands for "not set". */
module Pin {
  import opened Records

  /** `validatePin`: an unset or empty ADMIN_PIN admits everybody. */
  function ValidatePin(adminPin: Option<string>, pin: string): (ok: bool)
    ensures !IsPinRequired(adminPin) ==> ok
    ensures IsPinRequired(adminPin) ==> (ok <==> pin == adminPin.value)
  {
    if adminPin.None? || adminPin.value == "" then true
    else pin == adminPin.value
  }

  /** `isPinRequired`: ADMIN_PIN is defined and not empty. */
  predicate IsPinRequired(adminPin: Option<string>)
  {
    adminPin.Some? && adminPin.value != ""
  }

  /** The gate can refuse some pin exactly when a pin is required: the
      rejection of a pin is the only observable effect of configuring one. */
  lemma PinRequiredIffSomePinRefused(adminPin: Option<string>)
    ensures IsPinRequired(adminPin) <==> exists p :: !ValidatePin(adminPin, p)
  {
    if IsPinRequired(adminPin) {
      var wrong := adminPin.value + "#";
      assert |wrong| != |adminPin.value|;
      assert !ValidatePin(adminPin, wrong);
    }
  }
}
