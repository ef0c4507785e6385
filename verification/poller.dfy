/** The scheduled status check: the recurring task created with `cron.schedule`
    together with the effect each status reply has on it through the status
    interpreter. The task is running from the moment it is created. */
module Polling {
  import opened StatusInterpreter

  class StatusCheck {
    /** The customer hostname and effective validation method the messages
        mention. */
    const hostname: string
    const validationMethod: string
    /** Whether `destroy()` has been called on the task. */
    var stopped: bool
    /** The interpreter's log lines, oldest first. */
    var log: seq<string>

    /** A freshly scheduled task: running, nothing logged. */
    constructor (hostname: string, validationMethod: string)
      ensures this.hostname == hostname && this.validationMethod == validationMethod
      ensures !stopped && log == []
    {
      this.hostname := hostname;
      this.validationMethod := validationMethod;
      stopped := false;
      log := [];
    }

    /** Cancels the task. Cancelling an already cancelled task is harmless. */
    method Destroy()
      modifies this
      ensures stopped
      ensures log == old(log)
    {
      stopped := true;
    }

    /** Interprets one reported status: logs its message and cancels the task
        exactly when the status is `active`. A reply that arrives after the
        task was cancelled is still interpreted. */
    method Tick(status: string)
      modifies this
      ensures log == old(log) + [Message(ParseStatus(status), hostname, validationMethod)]
      ensures stopped == (old(stopped) || status == "active")
    {
      var c := ParseStatus(status);
      log := log + [Message(c, hostname, validationMethod)];
      if StopsPolling(c) {
        Destroy();
      }
    }

    /** Lets the task fire once per reported status, in order, for as long as
        it has not been cancelled. */
    method Drive(statuses: seq<string>)
      modifies this
      ensures var k := if old(stopped) then 0 else Consumed(statuses);
              log == old(log) + Messages(statuses[..k], hostname, validationMethod)
      ensures stopped == (old(stopped) || "active" in statuses)
    {
      var i := 0;
      while i < |statuses| && !stopped
        invariant 0 <= i <= |statuses|
        invariant old(stopped) ==> i == 0 && stopped && log == old(log)
        invariant !old(stopped) ==> log == old(log) + Messages(statuses[..i], hostname, validationMethod)
        invariant !old(stopped) ==> (stopped <==> "active" in statuses[..i])
        invariant !old(stopped) && !stopped ==> Consumed(statuses) == i + Consumed(statuses[i..])
        invariant !old(stopped) && stopped ==> i == Consumed(statuses)
      {
        assert statuses[..i + 1] == statuses[..i] + [statuses[i]];
        assert statuses[i..][1..] == statuses[i + 1..];
        Tick(statuses[i]);
        i := i + 1;
      }
      if !old(stopped) && !stopped {
        assert statuses[..i] == statuses;
      }
    }
  }
}
