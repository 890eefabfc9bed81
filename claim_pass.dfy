/** One claim pass (index.js:53-137): every account of the list, in order,
    inside its own try/catch. For each one the SDK calls are given as their
    outcome; the receipt logs are scanned, the amounts formatted, and when
    notifications are on a message is sent, whose failure is swallowed. */
module ClaimPass {
  import opened Text
  import opened AccountStore
  import opened Amount
  import opened LogParser

  /** What the NEAR SDK did for one account. `Rejected`: building the key
      pair, the connection or the account handle, or `functionCall`, threw.
      `Submitted`: the claim transaction went through with this hash and
      these receipt outcomes; `balance` is what `ft_balance_of` returned, or
      `None` when that view call threw. */
  datatype SdkOutcome =
    | Rejected
    | Submitted(txHash: string, receipts: seq<ReceiptOutcome>, balance: Option<string>)

  /** Whether the Telegram message was sent, and how that went. */
  datatype Notice = NotSent | Delivered | DeliveryFailed

  /** What the pass did for one account: a failure caught by the account's
      error boundary, or a successful claim with the formatted amounts. */
  datatype Report =
    | Failed(accountId: Option<string>)
    | Claimed(accountId: Option<string>, userAmount: string, villageAmount: string,
              totalBalance: string, txHash: string, notice: Notice)

  /** One iteration of the account loop, from the account entry, the SDK's
      outcome, the notification switch and whether `sendMessage` would
      succeed. */
  function ProcessAccount(entry: string, outcome: SdkOutcome, notify: bool, delivered: bool,
                          decode: string -> Decoded): Report
  {
    var id := SplitAccountLine(entry).accountId;
    match outcome
    case Rejected => Failed(id)
    case Submitted(tx, receipts, balance) =>
      match ClaimAmounts(receipts, id, decode)
      case Malformed(_) => Failed(id)
      case Scanned(a) =>
        if balance.None? then Failed(id)
        else
          var notice := if !notify then NotSent else if delivered then Delivered else DeliveryFailed;
          Claimed(id, FormatClaimed(a.user), FormatClaimed(a.village), FormatAmount(balance.value), tx, notice)
  }

  /** An account fails exactly when an SDK call threw, or a marked log of
      its receipts did not decode; otherwise it is claimed, for the account
      id its entry names. */
  lemma FailureCauses(entry: string, outcome: SdkOutcome, notify: bool, delivered: bool,
                      decode: string -> Decoded)
    ensures var r := ProcessAccount(entry, outcome, notify, delivered, decode);
      r.accountId == SplitAccountLine(entry).accountId
      && (r.Failed? <==>
            outcome.Rejected? || outcome.balance.None?
            || exists i :: 0 <= i < |Flatten(outcome.receipts)|
                 && FailsToDecode(Flatten(outcome.receipts)[i], decode))
  {
    if outcome.Submitted? {
      var id := SplitAccountLine(entry).accountId;
      var logs := Flatten(outcome.receipts);
      ScanLogsFailure(NoAmounts, logs, id, decode);
      assert ClaimAmounts(outcome.receipts, id, decode) == ScanLogs(NoAmounts, logs, id, decode);
      var r := ProcessAccount(entry, outcome, notify, delivered, decode);
      if ScanLogs(NoAmounts, logs, id, decode).Malformed? {
        assert r == Failed(id);
        assert exists i :: 0 <= i < |Flatten(outcome.receipts)| && FailsToDecode(Flatten(outcome.receipts)[i], decode);
      } else if outcome.balance.None? {
        assert r.Failed?;
      } else {
        assert r.Claimed?;
      }
    }
  }

  /** A message is sent only for a successful claim and only when
      notifications are on; whether it arrives changes nothing else in the
      account's report. */
  lemma NotificationGate(entry: string, outcome: SdkOutcome, notify: bool, delivered: bool,
                         decode: string -> Decoded)
    ensures var r := ProcessAccount(entry, outcome, notify, delivered, decode);
      (r.Claimed? && r.notice != NotSent <==> r.Claimed? && notify)
      && (r.Claimed? && r.notice == Delivered <==> r.Claimed? && notify && delivered)
    ensures var r := ProcessAccount(entry, outcome, notify, delivered, decode);
      var failedSend := ProcessAccount(entry, outcome, notify, false, decode);
      r.Claimed? == failedSend.Claimed?
      && (r.Claimed? ==> failedSend == r.(notice := failedSend.notice))
  {
  }

  /** A claim whose receipts hold no marked log still succeeds when the
      balance is known, and reports zero for both amounts. */
  lemma NoEventsClaimsZero(entry: string, txHash: string, receipts: seq<ReceiptOutcome>, balance: string,
                           notify: bool, delivered: bool, decode: string -> Decoded)
    requires forall i :: 0 <= i < |Flatten(receipts)| ==> !Marked(Flatten(receipts)[i])
    ensures var r := ProcessAccount(entry, Submitted(txHash, receipts, Some(balance)), notify, delivered, decode);
      r.Claimed? && r.userAmount == Zero && r.villageAmount == Zero
      && r.totalBalance == FormatAmount(balance) && r.txHash == txHash
  {
    UnmarkedLogsChangeNothing(NoAmounts, Flatten(receipts), SplitAccountLine(entry).accountId, decode);
    FormatClaimedDefault(None);
  }

  /** The body of the per-account `try` (index.js:56-133): `sent` tells
      whether `sendMessage` was called. */
  method ClaimAccount(entry: string, outcome: SdkOutcome, notify: bool, delivered: bool,
                      decode: string -> Decoded)
    returns (report: Report, sent: bool)
    ensures report == ProcessAccount(entry, outcome, notify, delivered, decode)
    ensures sent <==> notify && report.Claimed?
  {
    var accountId := SplitAccountLine(entry).accountId;
    report, sent := Failed(accountId), false;
    match outcome {
      case Rejected =>
      case Submitted(transactionHash, receipts, balance) =>
        var scan := ExtractAmounts(Flatten(receipts), accountId, decode);
        if scan.Scanned? && balance.Some? {
          var notice := NotSent;
          if notify {
            sent := true;
            notice := if delivered then Delivered else DeliveryFailed;
          }
          report := Claimed(accountId, FormatClaimed(scan.amounts.user), FormatClaimed(scan.amounts.village),
                            FormatAmount(balance.value), transactionHash, notice);
        }
    }
  }

  /** index.js:53-137. Every account is visited once, in list order, and
      its report depends on that account's inputs alone; `dispatched` lists,
      in order, the accounts for which `sendMessage` was called. */
  method RunPass(entries: seq<string>, outcomes: seq<SdkOutcome>, delivery: seq<bool>, notify: bool,
                 decode: string -> Decoded)
    returns (reports: seq<Report>, dispatched: seq<nat>)
    requires |outcomes| == |entries| && |delivery| == |entries|
    ensures |reports| == |entries|
    ensures forall i :: 0 <= i < |entries| ==>
              reports[i] == ProcessAccount(entries[i], outcomes[i], notify, delivery[i], decode)
    ensures forall k :: 0 <= k < |dispatched| ==> dispatched[k] < |entries|
    ensures forall k, l :: 0 <= k < l < |dispatched| ==> dispatched[k] < dispatched[l]
    ensures forall i :: 0 <= i < |entries| ==> (i in dispatched <==> notify && reports[i].Claimed?)
  {
    reports, dispatched := [], [];
    var i := 0;
    while i < |entries|
      invariant 0 <= i <= |entries| && |reports| == i
      invariant forall k :: 0 <= k < i ==>
                  reports[k] == ProcessAccount(entries[k], outcomes[k], notify, delivery[k], decode)
      invariant forall k :: 0 <= k < |dispatched| ==> dispatched[k] < i
      invariant forall k, l :: 0 <= k < l < |dispatched| ==> dispatched[k] < dispatched[l]
      invariant forall k :: 0 <= k < i ==> (k in dispatched <==> notify && reports[k].Claimed?)
    {
      var report, sent := ClaimAccount(entries[i], outcomes[i], notify, delivery[i], decode);
      ghost var dispatchedBefore, reportsBefore := dispatched, reports;
      if sent {
        dispatched := dispatched + [i];
      }
      assert forall k :: k in dispatched <==> k in dispatchedBefore || (sent && k == i);
      reports := reports + [report];
      assert forall k :: 0 <= k < i ==> reports[k] == reportsBefore[k];
      i := i + 1;
    }
  }
}
