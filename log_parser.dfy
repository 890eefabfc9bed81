/** Claim log extraction (index.js:80-101): the logs of every receipt
    outcome are flattened in order; each log that mentions `EVENT_JSON` is
    decoded, and the data entries of every `ft_mint` event overwrite the
    user amount (owner is the claiming account) or the village amount (any
    other owner whose id contains "village"). The last match wins. */
module LogParser {
  import opened Text

  /** The text `log.includes(...)` looks for. */
  const EventMarker: string := "EVENT_JSON"
  /** The text `log.split(...)` splits on; the payload is the part after it. */
  const PayloadSeparator: string := "EVENT_JSON:"
  const MintEvent: string := "ft_mint"
  const VillageTag: string := "village"

  /** One element of `receipts_outcome`: its `outcome.logs`. */
  datatype ReceiptOutcome = ReceiptOutcome(logs: seq<string>)

  /** One element of an event's `data`: `owner_id` and `amount`. */
  datatype MintEntry = MintEntry(ownerId: string, amount: string)

  /** What `JSON.parse` makes of a payload: an event with its name and data
      entries, or a thrown `SyntaxError`. */
  datatype Decoded = Parsed(event: string, data: seq<MintEntry>) | SyntaxError

  /** `userAmount` and `villageAmount`; `None` is the initial `null`. */
  datatype Amounts = Amounts(user: Option<string>, village: Option<string>)

  const NoAmounts: Amounts := Amounts(None, None)

  /** The outcome of the scan: the two amounts, or the log whose payload
      made `JSON.parse` throw. */
  datatype Scan = Scanned(amounts: Amounts) | Malformed(log: string)

  /** `receipts_outcome.map(outcome => outcome.outcome.logs).flat()`. */
  function Flatten(receipts: seq<ReceiptOutcome>): seq<string> {
    if receipts == [] then [] else receipts[0].logs + Flatten(receipts[1..])
  }

  /** Flattening keeps receipt order: the logs of earlier receipts come
      first. */
  lemma {:induction false} FlattenAppend(a: seq<ReceiptOutcome>, b: seq<ReceiptOutcome>)
    ensures Flatten(a + b) == Flatten(a) + Flatten(b)
  {
    if a == [] {
      assert a + b == b;
    } else {
      assert (a + b)[0] == a[0];
      assert (a + b)[1..] == a[1..] + b;
      FlattenAppend(a[1..], b);
    }
  }

  /** Flattening loses no log and invents none. */
  lemma {:induction false} FlattenContains(receipts: seq<ReceiptOutcome>, log: string)
    ensures log in Flatten(receipts) <==> exists i :: 0 <= i < |receipts| && log in receipts[i].logs
  {
    if receipts != [] {
      FlattenContains(receipts[1..], log);
      assert forall i :: 1 <= i < |receipts| ==> receipts[i] == receipts[1..][i - 1];
    }
  }

  /** `log.split("EVENT_JSON:")[1]`: the text between the first separator
      and the next one (or the end); `None` is `undefined`, when the log has
      no separator. */
  function Payload(log: string): Option<string> {
    match IndexOf(log, PayloadSeparator)
    case None => None
    case Some(i) =>
      var rest := log[i + |PayloadSeparator|..];
      match IndexOf(rest, PayloadSeparator)
      case None => Some(rest)
      case Some(j) => Some(rest[..j])
  }

  /** A log in the standard shape `EVENT_JSON:<json>` carries `<json>`. */
  lemma PayloadOfStandardLog(json: string)
    requires !Contains(json, PayloadSeparator)
    ensures Payload(PayloadSeparator + json) == Some(json)
  {
    var log := PayloadSeparator + json;
    assert log[..|PayloadSeparator|] == PayloadSeparator;
    assert log[|PayloadSeparator|..] == json;
  }

  /** A payload never contains the separator itself. */
  lemma PayloadHasNoSeparator(log: string)
    requires Payload(log).Some?
    ensures !Contains(Payload(log).value, PayloadSeparator)
  {
    var i := IndexOf(log, PayloadSeparator).value;
    IndexOfFirst(log, PayloadSeparator);
    var rest := log[i + |PayloadSeparator|..];
    IndexOfFirst(rest, PayloadSeparator);
    match IndexOf(rest, PayloadSeparator)
    case None =>
    case Some(j) =>
      var p := rest[..j];
      IndexOfFirst(p, PayloadSeparator);
      if IndexOf(p, PayloadSeparator).Some? {
        var k := IndexOf(p, PayloadSeparator).value;
        assert p[k..k + |PayloadSeparator|] == rest[k..k + |PayloadSeparator|];
        assert OccursAt(rest, PayloadSeparator, k) && k < j;
      }
  }

  /** `split("EVENT_JSON:")[1]` is the text that starts right after the
      first separator and runs up to the next separator or to the end of
      the log; it is undefined exactly when the log has no separator. */
  lemma PayloadSpec(log: string)
    ensures Payload(log).None? <==> forall j: nat :: j <= |log| ==> !OccursAt(log, PayloadSeparator, j)
    ensures Payload(log).Some? ==>
      var p := Payload(log).value;
      exists i: nat :: OccursAt(log, PayloadSeparator, i)
        && (forall j: nat :: j < i ==> !OccursAt(log, PayloadSeparator, j))
        && OccursAt(log, p, i + |PayloadSeparator|)
        && !Contains(p, PayloadSeparator)
        && (i + |PayloadSeparator| + |p| == |log|
            || OccursAt(log, PayloadSeparator, i + |PayloadSeparator| + |p|))
  {
    IndexOfFirst(log, PayloadSeparator);
    if IndexOf(log, PayloadSeparator).Some? {
      var i := IndexOf(log, PayloadSeparator).value;
      PayloadAfter(log, i);
      PayloadHasNoSeparator(log);
      assert OccursAt(log, PayloadSeparator, i);
    }
  }

  /** The payload sits right after the separator at `i`, and is followed by
      the end of the log or by the next separator. */
  lemma PayloadAfter(log: string, i: nat)
    requires IndexOf(log, PayloadSeparator) == Some(i)
    ensures Payload(log).Some?
    ensures var p := Payload(log).value; var start := i + |PayloadSeparator|;
      OccursAt(log, p, start)
      && (start + |p| == |log| || OccursAt(log, PayloadSeparator, start + |p|))
  {
    var start := i + |PayloadSeparator|;
    var rest := log[start..];
    match IndexOf(rest, PayloadSeparator)
    case None =>
      assert Payload(log) == Some(rest);
      assert log[start..start + |rest|] == rest;
    case Some(j) =>
      assert Payload(log) == Some(rest[..j]);
      IndexOfFirst(rest, PayloadSeparator);
      PayloadCut(log, start, j);
  }

  lemma PayloadCut(log: string, start: nat, j: nat)
    requires start <= |log| && OccursAt(log[start..], PayloadSeparator, j)
    ensures OccursAt(log, log[start..][..j], start)
    ensures OccursAt(log, PayloadSeparator, start + j)
  {
    var rest, n := log[start..], |PayloadSeparator|;
    assert log[start..start + j] == rest[..j];
    assert log[start + j..start + j + n] == rest[j..j + n];
  }

  /** `log.includes("EVENT_JSON")`. */
  predicate Marked(log: string) {
    Contains(log, EventMarker)
  }

  /** A marked log on which `JSON.parse` throws: it has no payload at all
      (`JSON.parse(undefined)`) or its payload is not valid JSON. */
  predicate FailsToDecode(log: string, decode: string -> Decoded) {
    Marked(log) && (Payload(log).None? || decode(Payload(log).value).SyntaxError?)
  }

  /** The data entries a log contributes: those of a decoded `ft_mint`
      event, and none otherwise. */
  function MintData(log: string, decode: string -> Decoded): seq<MintEntry> {
    if !Marked(log) || FailsToDecode(log, decode) then []
    else
      var d := decode(Payload(log).value);
      if d.event == MintEvent then d.data else []
  }

  /** All `ft_mint` data entries of the logs, in log order. */
  function MintEntries(logs: seq<string>, decode: string -> Decoded): seq<MintEntry> {
    if logs == [] then [] else MintData(logs[0], decode) + MintEntries(logs[1..], decode)
  }

  /** `data.owner_id === ACCOUNT_ID`; never true when the account id is
      undefined. */
  predicate SetsUser(e: MintEntry, accountId: Option<string>) {
    accountId == Some(e.ownerId)
  }

  /** The `else if (data.owner_id.includes("village"))` branch: only
      reached when the owner is not the claiming account. */
  predicate SetsVillage(e: MintEntry, accountId: Option<string>) {
    !SetsUser(e, accountId) && Contains(e.ownerId, VillageTag)
  }

  /** The body of `eventJson.data.forEach`. */
  function Apply(acc: Amounts, e: MintEntry, accountId: Option<string>): Amounts {
    if SetsUser(e, accountId) then acc.(user := Some(e.amount))
    else if SetsVillage(e, accountId) then acc.(village := Some(e.amount))
    else acc
  }

  /** The amounts after the entries, in order, have been applied to `acc`. */
  function ScanEntries(acc: Amounts, es: seq<MintEntry>, accountId: Option<string>): Amounts
    decreases |es|
  {
    if es == [] then acc else ScanEntries(Apply(acc, es[0], accountId), es[1..], accountId)
  }

  /** The body of `logs.forEach`: ignore unmarked logs, throw on a payload
      that does not decode, apply the entries of an `ft_mint` event. */
  function ScanLog(acc: Amounts, log: string, accountId: Option<string>, decode: string -> Decoded): Scan {
    if !Marked(log) then Scanned(acc)
    else if FailsToDecode(log, decode) then Malformed(log)
    else
      var d := decode(Payload(log).value);
      if d.event == MintEvent then Scanned(ScanEntries(acc, d.data, accountId)) else Scanned(acc)
  }

  /** The whole `logs.forEach`: the first throw ends it. */
  function ScanLogs(acc: Amounts, logs: seq<string>, accountId: Option<string>, decode: string -> Decoded): Scan
    decreases |logs|
  {
    if logs == [] then Scanned(acc)
    else
      match ScanLog(acc, logs[0], accountId, decode)
      case Malformed(l) => Malformed(l)
      case Scanned(next) => ScanLogs(next, logs[1..], accountId, decode)
  }

  /** Entry `i` is the last one that sets the user amount. */
  predicate LastUserAt(es: seq<MintEntry>, accountId: Option<string>, i: int) {
    0 <= i < |es| && SetsUser(es[i], accountId)
    && forall j :: i < j < |es| ==> !SetsUser(es[j], accountId)
  }

  /** Entry `i` is the last one that sets the village amount. */
  predicate LastVillageAt(es: seq<MintEntry>, accountId: Option<string>, i: int) {
    0 <= i < |es| && SetsVillage(es[i], accountId)
    && forall j :: i < j < |es| ==> !SetsVillage(es[j], accountId)
  }

  /** Last match wins: each amount is that of the last entry that sets it,
      and is left as it was when no entry sets it. */
  lemma ScanEntriesLastWins(acc: Amounts, es: seq<MintEntry>, accountId: Option<string>)
    ensures (forall i :: 0 <= i < |es| ==> !SetsUser(es[i], accountId)) ==>
              ScanEntries(acc, es, accountId).user == acc.user
    ensures forall i :: LastUserAt(es, accountId, i) ==>
              ScanEntries(acc, es, accountId).user == Some(es[i].amount)
    ensures (forall i :: 0 <= i < |es| ==> !SetsVillage(es[i], accountId)) ==>
              ScanEntries(acc, es, accountId).village == acc.village
    ensures forall i :: LastVillageAt(es, accountId, i) ==>
              ScanEntries(acc, es, accountId).village == Some(es[i].amount)
  {
    ScanEntriesLastUser(acc, es, accountId);
    ScanEntriesLastVillage(acc, es, accountId);
  }

  lemma {:induction false} ScanEntriesLastUser(acc: Amounts, es: seq<MintEntry>, accountId: Option<string>)
    decreases |es|
    ensures (forall i :: 0 <= i < |es| ==> !SetsUser(es[i], accountId)) ==>
              ScanEntries(acc, es, accountId).user == acc.user
    ensures forall i :: LastUserAt(es, accountId, i) ==>
              ScanEntries(acc, es, accountId).user == Some(es[i].amount)
  {
    if es != [] {
      var next := Apply(acc, es[0], accountId);
      var tl := es[1..];
      ScanEntriesLastUser(next, tl, accountId);
      assert forall i :: 1 <= i < |es| ==> es[i] == tl[i - 1];
      forall i | LastUserAt(es, accountId, i)
        ensures ScanEntries(acc, es, accountId).user == Some(es[i].amount)
      {
        if i > 0 {
          assert LastUserAt(tl, accountId, i - 1);
        }
      }
    }
  }

  lemma {:induction false} ScanEntriesLastVillage(acc: Amounts, es: seq<MintEntry>, accountId: Option<string>)
    decreases |es|
    ensures (forall i :: 0 <= i < |es| ==> !SetsVillage(es[i], accountId)) ==>
              ScanEntries(acc, es, accountId).village == acc.village
    ensures forall i :: LastVillageAt(es, accountId, i) ==>
              ScanEntries(acc, es, accountId).village == Some(es[i].amount)
  {
    if es != [] {
      var next := Apply(acc, es[0], accountId);
      var tl := es[1..];
      ScanEntriesLastVillage(next, tl, accountId);
      assert forall i :: 1 <= i < |es| ==> es[i] == tl[i - 1];
      forall i | LastVillageAt(es, accountId, i)
        ensures ScanEntries(acc, es, accountId).village == Some(es[i].amount)
      {
        if i > 0 {
          assert LastVillageAt(tl, accountId, i - 1);
        }
      }
    }
  }

  /** Scanning two stretches of logs one after the other is scanning their
      concatenation: later logs overwrite what earlier ones set, and a throw
      in the first stretch ends the scan. */
  lemma {:induction false} ScanLogsAppend(acc: Amounts, a: seq<string>, b: seq<string>, accountId: Option<string>, decode: string -> Decoded)
    ensures ScanLogs(acc, a + b, accountId, decode) ==
      match ScanLogs(acc, a, accountId, decode)
      case Malformed(l) => Malformed(l)
      case Scanned(mid) => ScanLogs(mid, b, accountId, decode)
    decreases |a|
  {
    if a == [] {
      assert a + b == b;
    } else {
      assert (a + b)[0] == a[0];
      assert (a + b)[1..] == a[1..] + b;
      match ScanLog(acc, a[0], accountId, decode)
      case Malformed(l) =>
      case Scanned(next) => ScanLogsAppend(next, a[1..], b, accountId, decode);
    }
  }

  /** When the scan does not throw, it is the scan of all `ft_mint`
      entries in order: unmarked logs and other events change nothing. */
  lemma {:induction false} ScanLogsViaEntries(acc: Amounts, logs: seq<string>, accountId: Option<string>, decode: string -> Decoded)
    requires ScanLogs(acc, logs, accountId, decode).Scanned?
    ensures ScanLogs(acc, logs, accountId, decode) == Scanned(ScanEntries(acc, MintEntries(logs, decode), accountId))
    decreases |logs|
  {
    if logs != [] {
      var tl := logs[1..];
      var here := MintData(logs[0], decode);
      var next := ScanEntries(acc, here, accountId);
      assert ScanLog(acc, logs[0], accountId, decode) == Scanned(next);
      ScanLogsViaEntries(next, tl, accountId, decode);
      ScanEntriesAppend(acc, here, MintEntries(tl, decode), accountId);
    }
  }

  lemma {:induction false} ScanEntriesAppend(acc: Amounts, a: seq<MintEntry>, b: seq<MintEntry>, accountId: Option<string>)
    ensures ScanEntries(acc, a + b, accountId) == ScanEntries(ScanEntries(acc, a, accountId), b, accountId)
    decreases |a|
  {
    if a == [] {
      assert a + b == b;
    } else {
      assert (a + b)[0] == a[0];
      assert (a + b)[1..] == a[1..] + b;
      ScanEntriesAppend(Apply(acc, a[0], accountId), a[1..], b, accountId);
    }
  }

  /** The scan throws exactly when some log fails to decode. */
  lemma {:induction false} ScanLogsFailure(acc: Amounts, logs: seq<string>, accountId: Option<string>, decode: string -> Decoded)
    ensures ScanLogs(acc, logs, accountId, decode).Malformed? <==>
              exists i :: 0 <= i < |logs| && FailsToDecode(logs[i], decode)
    decreases |logs|
  {
    if logs != [] {
      var tl := logs[1..];
      match ScanLog(acc, logs[0], accountId, decode)
      case Malformed(l) =>
      case Scanned(next) =>
        ScanLogsFailure(next, tl, accountId, decode);
        if exists i :: 0 <= i < |logs| && FailsToDecode(logs[i], decode) {
          var i :| 0 <= i < |logs| && FailsToDecode(logs[i], decode);
          assert i > 0 && FailsToDecode(tl[i - 1], decode);
        }
        if exists i :: 0 <= i < |tl| && FailsToDecode(tl[i], decode) {
          var i :| 0 <= i < |tl| && FailsToDecode(tl[i], decode);
          assert FailsToDecode(logs[i + 1], decode);
        }
    }
  }

  /** When the scan throws, it reports the first log that fails to
      decode. */
  lemma {:induction false} ScanLogsFirstFailure(acc: Amounts, logs: seq<string>, accountId: Option<string>,
                                                decode: string -> Decoded, i: int)
    requires 0 <= i < |logs| && FailsToDecode(logs[i], decode)
    requires forall j :: 0 <= j < i ==> !FailsToDecode(logs[j], decode)
    ensures ScanLogs(acc, logs, accountId, decode) == Malformed(logs[i])
    decreases |logs|
  {
    match ScanLog(acc, logs[0], accountId, decode)
    case Malformed(l) =>
      assert i == 0;
    case Scanned(next) =>
      var tl := logs[1..];
      assert i > 0 && tl[i - 1] == logs[i];
      assert forall j :: 0 <= j < i - 1 ==> tl[j] == logs[j + 1];
      ScanLogsFirstFailure(next, tl, accountId, decode, i - 1);
  }

  /** Logs that do not mention the marker leave both amounts as they were:
      with none at all, both stay absent. */
  lemma {:induction false} UnmarkedLogsChangeNothing(acc: Amounts, logs: seq<string>, accountId: Option<string>, decode: string -> Decoded)
    requires forall i :: 0 <= i < |logs| ==> !Marked(logs[i])
    ensures ScanLogs(acc, logs, accountId, decode) == Scanned(acc)
    decreases |logs|
  {
    if logs != [] {
      assert forall i :: 1 <= i < |logs| ==> logs[i] == logs[1..][i - 1];
      UnmarkedLogsChangeNothing(acc, logs[1..], accountId, decode);
    }
  }

  /** The amounts of a claim: the scan of the flattened receipt logs,
      starting from nothing. */
  function ClaimAmounts(receipts: seq<ReceiptOutcome>, accountId: Option<string>, decode: string -> Decoded): Scan {
    ScanLogs(NoAmounts, Flatten(receipts), accountId, decode)
  }

  /** Across all receipts, the user amount is the amount of the last
      `ft_mint` entry owned by the account and the village amount that of
      the last other entry whose owner mentions "village"; each is absent
      when no entry sets it. */
  lemma ClaimAmountsLastWins(receipts: seq<ReceiptOutcome>, accountId: Option<string>, decode: string -> Decoded)
    requires ClaimAmounts(receipts, accountId, decode).Scanned?
    ensures ClaimAmounts(receipts, accountId, decode).amounts
              == ScanEntries(NoAmounts, MintEntries(Flatten(receipts), decode), accountId)
    ensures var es := MintEntries(Flatten(receipts), decode);
      var a := ClaimAmounts(receipts, accountId, decode).amounts;
      ((forall i :: 0 <= i < |es| ==> !SetsUser(es[i], accountId)) ==> a.user.None?)
      && (forall i :: LastUserAt(es, accountId, i) ==> a.user == Some(es[i].amount))
      && ((forall i :: 0 <= i < |es| ==> !SetsVillage(es[i], accountId)) ==> a.village.None?)
      && (forall i :: LastVillageAt(es, accountId, i) ==> a.village == Some(es[i].amount))
  {
    var logs := Flatten(receipts);
    ScanLogsViaEntries(NoAmounts, logs, accountId, decode);
    var es := MintEntries(logs, decode);
    var a := ScanEntries(NoAmounts, es, accountId);
    assert ClaimAmounts(receipts, accountId, decode) == Scanned(a);
    ScanEntriesLastWins(NoAmounts, es, accountId);
  }

  /** index.js:85-101 as the loops it is: `userAmount` and `villageAmount`
      start out null and are overwritten entry by entry. */
  method ExtractAmounts(logs: seq<string>, accountId: Option<string>, decode: string -> Decoded) returns (r: Scan)
    ensures r == ScanLogs(NoAmounts, logs, accountId, decode)
  {
    var userAmount: Option<string> := None;
    var villageAmount: Option<string> := None;
    var k := 0;
    while k < |logs|
      invariant 0 <= k <= |logs|
      invariant ScanLogs(NoAmounts, logs, accountId, decode)
             == ScanLogs(Amounts(userAmount, villageAmount), logs[k..], accountId, decode)
    {
      var log := logs[k];
      assert logs[k..][0] == log && logs[k..][1..] == logs[k + 1..];
      if Contains(log, EventMarker) {
        var payload := Payload(log);
        if payload.None? {
          return Malformed(log);
        }
        var eventJson := decode(payload.value);
        if eventJson.SyntaxError? {
          return Malformed(log);
        }
        if eventJson.event == MintEvent {
          var data := eventJson.data;
          ghost var before := Amounts(userAmount, villageAmount);
          var m := 0;
          while m < |data|
            invariant 0 <= m <= |data|
            invariant ScanEntries(before, data, accountId)
                   == ScanEntries(Amounts(userAmount, villageAmount), data[m..], accountId)
          {
            assert data[m..][0] == data[m] && data[m..][1..] == data[m + 1..];
            if Some(data[m].ownerId) == accountId {
              userAmount := Some(data[m].amount);
            } else if Contains(data[m].ownerId, VillageTag) {
              villageAmount := Some(data[m].amount);
            }
            m := m + 1;
          }
        }
      }
      k := k + 1;
    }
    return Scanned(Amounts(userAmount, villageAmount));
  }
}
