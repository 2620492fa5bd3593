/**
 * The pixel screen: the fetch effect that runs the resolution cascade once
 * per seat id, the double-tap exit detector, and the choice between the
 * spinner, the error text and the full-screen colour. Brightness,
 * orientation, navigation-bar and keep-awake calls are not modelled.
 */
module PixelScreen {
  import opened Basics
  import opened PixelApi

  /** Two taps closer than this many milliseconds leave the screen. */
  const DoublePressDelayMs: int := 300
  const MissingConfigMessage: string := "Configura\U{E7}\U{E3}o n\U{E3}o encontrada"

  /** What the screen renders. */
  datatype View = Spinner | ErrorText(message: string) | Coloured(background: string)

  /** A truthy error message. */
  predicate HasError(error: Option<string>)
  {
    error.Some? && error.value != []
  }

  /** The render choice, in order: loading, then error or missing configuration, then the colour. */
  function Render(loading: bool, error: Option<string>, config: Option<PixelConfig>): (v: View)
    ensures v.Spinner? <==> loading
    ensures v.ErrorText? <==> !loading && (HasError(error) || config.None?)
    ensures v.ErrorText? ==> v.message == if HasError(error) then error.value else MissingConfigMessage
    ensures v.Coloured? ==> config.Some? && v.background == config.value.color
  {
    if loading then Spinner
    else if HasError(error) || config.None? then
      ErrorText(if HasError(error) then error.value else MissingConfigMessage)
    else Coloured(config.value.color)
  }

  class PixelScreenState {
    var loading: bool
    var error: Option<string>
    var config: Option<PixelConfig>
    /** The `lastTap` ref. */
    var lastTap: int

    constructor ()
      ensures loading && error == None && config == None && lastTap == 0
    {
      loading, error, config, lastTap := true, None, None, 0;
    }

    /** `handleDoubleTap`: a second tap within 300 ms goes back; any other tap is remembered. */
    method HandleDoubleTap(now: int) returns (goBack: bool)
      modifies this`lastTap
      ensures goBack <==> now - old(lastTap) < DoublePressDelayMs
      ensures lastTap == if goBack then old(lastTap) else now
    {
      if now - lastTap < DoublePressDelayMs {
        return true;
      }
      lastTap := now;
      return false;
    }

    /**
     * The fetch effect: nothing happens without a seat id (the spinner then
     * stays); otherwise the cascade's configuration is stored and loading ends.
     * The cascade never fails, so the error branch of the promise is never taken.
     */
    method FetchEffect(seatId: string, storage: DeviceStorage, outcome: FetchOutcome,
                       writeSucceeds: bool, readSucceeds: bool, now: int)
      modifies this, storage
      ensures seatId == [] ==> unchanged(this) && unchanged(storage)
      ensures seatId != [] ==>
        && !loading && error == old(error) && lastTap == old(lastTap)
        && config == Some(Cascade(seatId, outcome, writeSucceeds, readSucceeds, old(storage.lastSeatConfig), now))
      ensures seatId != [] ==>
        storage.lastSeatConfig ==
          if outcome.Fetched? && writeSucceeds then Holds(StoredRecord(LiveConfig(outcome.body), seatId, now))
          else old(storage.lastSeatConfig)
      ensures seatId != [] && !HasError(old(error)) ==>
        Render(loading, error, config) == Coloured(config.value.color)
    {
      if seatId == [] {
        return;
      }
      var c := GetPixelConfig(storage, seatId, outcome, writeSucceeds, readSucceeds, now);
      config := Some(c);
      loading := false;
    }
  }
}
