/**
 * `LogWatcher`: the object that holds the Slack webhook and the last pool
 * seen, detects failovers one pool at a time, runs them over the lines of
 * one read of the access log, and decides whether and what to post to Slack.
 */
module Watcher {
  import opened Wrappers
  import opened Text
  import opened LogParser
  import opened Failover

  /** The JSON body posted to the webhook. */
  datatype Payload = Payload(text: string, username: string, iconEmoji: string)

  /** The HTTP POST the watcher would make. */
  datatype Request = Request(url: string, payload: Payload)

  /** What the POST gave back: a status code, or an exception (timeout, connection error). */
  datatype PostOutcome = Response(statusCode: int) | RequestFailed

  const AlertPrefix: string := "\U{1F6A8} Blue/Green Alert: "
  const Placeholder: string := "placeholder"

  /**
   * The pool `process_logs` hands to `detect_failover` for one line, or
   * `None` when the `log_data and log_data['pool']` guard skips the line.
   * Since a parsed pool is never empty, a line is skipped exactly when
   * parsing it returns `None`.
   */
  function LinePool(line: string): (pool: Option<string>)
    ensures pool.Some? <==> ParseLogLine(Strip(line)).Some?
    ensures pool.Some? ==> pool.value != []
  {
    var logData := ParseLogLine(Strip(line));
    if logData.Some? && logData.value.pool != [] then Some(logData.value.pool) else None
  }

  /** The pools fed to `detect_failover` over one read, in order; none of them is empty. */
  function PoolsOf(lines: seq<string>): (pools: seq<string>)
    ensures |pools| <= |lines|
    ensures forall i :: 0 <= i < |pools| ==> pools[i] != []
  {
    if lines == [] then [] else PoolsOf(lines[..|lines| - 1]) + OptionToSeq(LinePool(lines[|lines| - 1]))
  }

  /** Taking one more line of a read feeds that line's pool, if it has one, after the earlier ones. */
  lemma PoolsOfPrefix(lines: seq<string>, i: nat)
    requires i < |lines|
    ensures PoolsOf(lines[..i + 1]) == PoolsOf(lines[..i]) + OptionToSeq(LinePool(lines[i]))
  {
    assert lines[..i + 1][..i] == lines[..i];
  }

  class LogWatcher {
    const slackWebhook: string
    var lastPool: Option<string>

    constructor (slackWebhook: string)
      ensures this.slackWebhook == slackWebhook && lastPool == None
    {
      this.slackWebhook := slackWebhook;
      lastPool := None;
    }

    /**
     * `send_slack_alert` up to the HTTP call: nothing is posted when the
     * webhook is empty or contains `placeholder`; otherwise the request goes
     * to the webhook with the message behind the alert prefix.
     */
    function SlackRequest(message: string): (r: Option<Request>)
      ensures r.None? <==> slackWebhook == [] || exists i: nat :: OccursAt(slackWebhook, Placeholder, i)
      ensures r.Some? ==> r.value.url == slackWebhook
      ensures r.Some? ==> |r.value.payload.text| == |AlertPrefix| + |message|
      ensures r.Some? ==> r.value.payload.text[..|AlertPrefix|] == AlertPrefix
      ensures r.Some? ==> r.value.payload.text[|AlertPrefix|..] == message
    {
      ContainsIff(slackWebhook, Placeholder);
      if slackWebhook == [] || Contains(slackWebhook, Placeholder) then None
      else Some(Request(slackWebhook, Payload(AlertPrefix + message, "Deployment Monitor", ":warning:")))
    }

    /**
     * `send_slack_alert(message)`, with the network call given as `post`:
     * true exactly when a request is made and answered with status 200;
     * `post` is not consulted when nothing is posted.
     */
    function SendSlackAlert(message: string, post: Request -> PostOutcome): (sent: bool)
      ensures sent ==> SlackRequest(message).Some?
      ensures SlackRequest(message).Some? ==>
        (sent <==> post(SlackRequest(message).value) == Response(200))
    {
      match SlackRequest(message)
      case None => false
      case Some(request) => post(request) == Response(200)
    }

    /**
     * `detect_failover(current_pool)`: returns the alert message instead of
     * posting it (the post's result is ignored by the source anyway).
     */
    method DetectFailover(currentPool: string) returns (alert: Option<string>)
      modifies this
      ensures alert.Some? <==>
        old(lastPool).Some? && old(lastPool).value != [] && currentPool != old(lastPool).value && currentPool != Unknown
      ensures alert.Some? ==> alert.value == FailoverMessage(old(lastPool).value, currentPool)
      ensures lastPool == if currentPool == Unknown then old(lastPool) else Some(currentPool)
      ensures alert == StepAlert(old(lastPool), currentPool) && lastPool == StepPool(old(lastPool), currentPool)
    {
      if lastPool.Some? && lastPool.value != [] && currentPool != lastPool.value && currentPool != Unknown {
        alert := Some(FailoverMessage(lastPool.value, currentPool));
      } else {
        alert := None;
      }
      if currentPool != Unknown {
        lastPool := Some(currentPool);
      }
    }

    /**
     * The `for line in lines` loop of `process_logs` over one read of the
     * log: strip and parse every line, and feed the pool of every line that
     * passes the guard to `DetectFailover`, collecting the alerts. The alerts
     * are the changes between consecutive known pools, starting from the pool
     * stored before the read.
     */
    method ProcessLines(lines: seq<string>) returns (alerts: seq<string>)
      modifies this
      ensures alerts == Alerts(old(lastPool), PoolsOf(lines))
      ensures lastPool == FinalPool(old(lastPool), PoolsOf(lines))
      ensures old(lastPool).None? || old(lastPool).value != [] ==>
        alerts == Transitions(OptionToSeq(old(lastPool)) + Known(PoolsOf(lines)))
    {
      alerts := [];
      for i := 0 to |lines|
        invariant alerts == Alerts(old(lastPool), PoolsOf(lines[..i]))
        invariant lastPool == FinalPool(old(lastPool), PoolsOf(lines[..i]))
      {
        var logData := ParseLogLine(Strip(lines[i]));
        PoolsOfPrefix(lines, i);
        if logData.Some? && logData.value.pool != [] {
          assert PoolsOf(lines[..i + 1]) == PoolsOf(lines[..i]) + [logData.value.pool];
          FeedOneMore(old(lastPool), PoolsOf(lines[..i]), logData.value.pool);
          var alert := DetectFailover(logData.value.pool);
          if alert.Some? {
            alerts := alerts + [alert.value];
          }
        } else {
          assert PoolsOf(lines[..i + 1]) == PoolsOf(lines[..i]);
        }
      }
      assert lines[..|lines|] == lines;
      if old(lastPool).None? || old(lastPool).value != [] {
        AlertsAreTransitions(old(lastPool), PoolsOf(lines));
      }
    }
  }
}
