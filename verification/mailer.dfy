/** The outbound mail transport, reduced to what the reminder fan-out relies
    on: one send per call, a boolean outcome, never an exception. */
module Mail {

  class Mailer {
    /** Recipient of every send attempted so far, in order. */
    var sent: seq<string>
    /** Whether the transport accepts a message for a recipient; stands for
        the SMTP exchange, which is not modelled. */
    const delivers: string -> bool

    constructor (delivers: string -> bool)
      ensures sent == [] && this.delivers == delivers
    {
      sent := [];
      this.delivers := delivers;
    }

    /** `sendDailyEvaluationEmail`: records the attempt and reports whether
        it went through; a failure is reported as `false`, not raised. */
    method SendDailyEvaluationEmail(to: string) returns (ok: bool)
      modifies this
      ensures sent == old(sent) + [to]
      ensures ok == delivers(to)
    {
      sent := sent + [to];
      ok := delivers(to);
    }
  }
}
