/** frontend/src/components/SessionTimeout.jsx: the poller that runs every 30 seconds
    while an admin page is open, warns in the last five minutes of the token's life and
    logs the admin out once it has run out. */
module SessionTimeout {
  import opened Wrappers
  import opened Browser
  import opened Security

  const PollIntervalMs := 30000
  const WarningWindowMs := 5 * 60 * 1000

  /** What one run of the interval callback does. */
  datatype TickEffect =
    | Stop              // no token: the interval clears itself
    | LogError          // the payload could not be decoded: only `console.error`
    | Warn(minutes: int) // inside the warning window: show the notice with the whole minutes left
    | Expire            // no time left: remove the token and go to the login page
    | Idle              // more than five minutes left, or an `exp` that is not a number

  /** The effect of a tick at wall-clock time `now` with the stored `token`. */
  function Classify(token: Option<string>, decode: string -> Payload, now: int): (e: TickEffect)
    ensures e == Stop <==> !Truthy(token)
    ensures e == LogError <==> Truthy(token) && decode(token.value).Malformed?
    ensures e == Expire <==>
              Truthy(token) && decode(token.value).Claims? && decode(token.value).exp.Some? &&
              decode(token.value).exp.value * 1000 <= now
    ensures e.Warn? ==>
              Truthy(token) && decode(token.value).Claims? && decode(token.value).exp.Some? &&
              var remaining := decode(token.value).exp.value * 1000 - now;
              0 <= e.minutes <= 4 && e.minutes * 60000 <= remaining < (e.minutes + 1) * 60000
    ensures e == Idle <==>
              Truthy(token) && decode(token.value).Claims? &&
              (decode(token.value).exp.None? || decode(token.value).exp.value * 1000 - now >= WarningWindowMs)
  {
    if !Truthy(token) then Stop
    else
      match decode(token.value)
      case Malformed => LogError
      case Claims(None) => Idle   // `NaN < x` and `NaN <= 0` are both false
      case Claims(Some(exp)) =>
        var remaining := exp * 1000 - now;
        if remaining < WarningWindowMs && remaining > 0 then Warn(remaining / 1000 / 60)
        else if remaining <= 0 then Expire
        else Idle
  }

  /** The poller and `isTokenExpired` disagree in exactly two places: a token whose
      payload cannot be decoded is expired for `isTokenExpired` but only logged by the
      poller, and a token whose expiry instant is exactly `now` is not expired for
      `isTokenExpired` but is logged out by the poller. Everywhere else a tick logs out
      exactly the tokens `isTokenExpired` calls expired (the poller stops instead when
      there is no token at all). */
  lemma PollerVersusIsTokenExpired(token: Option<string>, decode: string -> Payload, now: int)
    ensures (IsTokenExpired(token, decode, now) && Classify(token, decode, now) !in {Stop, Expire}) <==>
              Truthy(token) && decode(token.value).Malformed?
    ensures (Classify(token, decode, now) == Expire && !IsTokenExpired(token, decode, now)) <==>
              Truthy(token) && decode(token.value).Claims? && decode(token.value).exp == Some(now / 1000) &&
              now % 1000 == 0
    ensures Classify(token, decode, now) == Stop ==> IsTokenExpired(token, decode, now)
  {
    if Truthy(token) && decode(token.value).Claims? && decode(token.value).exp.Some? {
      var exp := decode(token.value).exp.value;
      if exp * 1000 == now {
        assert now / 1000 == exp;
      }
    }
  }

  /** The mounted component: its two pieces of React state, whether the interval is
      still running, and the errors it has logged. */
  class SessionMonitor {
    const window: Window
    var showWarning: bool
    var timeLeft: int
    var polling: bool
    var errorsLogged: nat

    constructor (w: Window)
      ensures window == w
      ensures !showWarning && timeLeft == 0 && polling && errorsLogged == 0
    {
      window := w;
      showWarning := false;
      timeLeft := 0;
      polling := true;
      errorsLogged := 0;
    }

    /** One run of the interval callback at time `now`. */
    method Tick(decode: string -> Payload, now: int)
      modifies this, window
      ensures var e := Classify(old(window.adminToken), decode, now);
              if !old(polling) then
                polling == old(polling) && showWarning == old(showWarning) && timeLeft == old(timeLeft) &&
                errorsLogged == old(errorsLogged) &&
                window.adminToken == old(window.adminToken) && window.history == old(window.history)
              else
                (polling <==> e != Stop) &&
                (errorsLogged == if e == LogError then old(errorsLogged) + 1 else old(errorsLogged)) &&
                (showWarning == if e.Warn? then true else old(showWarning)) &&
                (timeLeft == if e.Warn? then e.minutes else old(timeLeft)) &&
                (window.adminToken == if e == Expire then None else old(window.adminToken)) &&
                (window.history == if e == Expire then old(window.history) + [LoginPath] else old(window.history))
    {
      if !polling {
        return;
      }
      var e := Classify(window.adminToken, decode, now);
      match e
      case Stop =>
        polling := false;
      case LogError =>
        errorsLogged := errorsLogged + 1;
      case Warn(m) =>
        showWarning := true;
        timeLeft := m;
      case Expire =>
        window.Logout();
      case Idle =>
    }

    /** The close button of the notice: hides it and changes nothing else. */
    method Dismiss()
      modifies this
      ensures !showWarning
      ensures timeLeft == old(timeLeft) && polling == old(polling) && errorsLogged == old(errorsLogged)
    {
      showWarning := false;
    }

    /** What the component renders: nothing while no warning is shown, otherwise the
        notice with the minutes left. */
    function Rendered(): (r: Option<Notice>)
      reads this
      ensures r.None? <==> !showWarning
      ensures r.Some? ==> r.value.minutes == timeLeft && (r.value.unit == "minute" <==> timeLeft == 1)
    {
      if !showWarning then None else Some(Notice(timeLeft, MinuteWord(timeLeft)))
    }
  }

  datatype Notice = Notice(minutes: int, unit: string)

  /** "minute" for exactly one, "minutes" for every other count, zero included. */
  function MinuteWord(n: int): (w: string)
    ensures w == "minute" <==> n == 1
    ensures n != 1 ==> w == "minutes"
  {
    "minute" + (if n != 1 then "s" else "")
  }

  /** A dismissed notice comes back: after a dismissal, a tick inside the warning window
      shows it again with fresh minutes. */
  method DismissThenTick(m: SessionMonitor, decode: string -> Payload, now: int) returns (shown: bool)
    requires m.polling
    requires Classify(m.window.adminToken, decode, now).Warn?
    modifies m, m.window
    ensures shown && m.showWarning
  {
    m.Dismiss();
    m.Tick(decode, now);
    shown := m.showWarning;
  }
}
