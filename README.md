# hot-auto-claim, modelled in Dafny

`index.js` is a bot that claims HOT tokens on NEAR for a list of accounts.
It reads the account list once at start-up. Each pass then walks that list
and, for every account in order, sends a `claim` call to `game.hot.tg`. It then reads the user's and the village's
minted amounts out of the receipt logs and fetches the account's total
balance. The amounts are rendered with six decimals, and when the operator
opted in, a Telegram message is sent. The bot then sleeps for the chosen
interval minus a random 1 to 8 minutes.

The model covers the logic between those external calls:

- `text.dfy` (module `Text`): JavaScript's `trim` with its white-space
  set (`Trim`, `TrimStart`, `TrimEnd`; index.js:29, 104), `split` on one
  character (`Split`; index.js:28, 54), and `indexOf`/`includes`
  (`IndexOf`, `Contains`; index.js:89-90).
- `account_store.dfy` (module `AccountStore`): `ParseAccountList` turns
  the file text into the account list (index.js:27-30), through
  `KeepNonBlank` for the `map`/`filter` (index.js:29-30).
  `SplitAccountLine` turns one entry into key and id (index.js:54).
- `log_parser.dfy` (module `LogParser`): `Flatten` is the flattening of
  the receipt logs (index.js:81-83). `Payload` is
  `log.split("EVENT_JSON:")[1]` (index.js:90). `Marked` is the
  `includes("EVENT_JSON")` test (index.js:89). `Apply` and `ScanEntries`
  are the `data.forEach` (index.js:92-98). `ScanLog` and `ScanLogs` are
  the `logs.forEach` (index.js:88-101). `ClaimAmounts` scans the flattened
  logs from two null amounts (index.js:81-101). `ExtractAmounts` is the
  imperative loop of the source (index.js:85-101), and `ScanLogs` is the
  function it is proved against.
- `amount.dfy` (module `Amount`): `ParseInt` is `parseInt(amount, 10)`
  (index.js:104): `TrimStart`, then `ParseSigned` for the sign and the
  digit run. `FixedPoint` is the division by one million and
  `toFixed(6)` (index.js:104). `FormatAmount` is `formatAmount`
  (index.js:103-105, 112). `FormatClaimed` is the `amount ? ... :
  "0.000000"` default (index.js:107-108).
- `scheduler.dfy` (module `Scheduler`): `Interval` is the three offered
  intervals (index.js:37-41). `NextDelay` is the delay arithmetic
  (index.js:140-141).
- `claim_pass.dfy` (module `ClaimPass`): one pass over the accounts
  (index.js:53-137). `ProcessAccount` is the outcome of one iteration with
  its `try`/`catch` (index.js:54-136). `ClaimAccount` is the body of one
  iteration (index.js:56-133). `RunPass` is the loop with its error
  boundary and notification gate (index.js:53-137). Both methods are
  proved against the function `ProcessAccount`.

The SDK calls are taken as one input per account, `SdkOutcome`. Either a
call threw (`Rejected`), or the claim went through with a hash, receipt
outcomes and a balance, where the balance is `None` if the balance view
call threw. `JSON.parse` is a parameter `decode` that returns an event or
`SyntaxError`. Whether `sendMessage` succeeds is one boolean per account.

What the code does, and does not, do:

- The code does not check the transaction response for a hash or for
  recorded actions before using it.
- Account lines are not rejected when they lack two non-empty `|` fields.
  A line with no `|` gets an undefined account id.
- The scan does not emit every data entry. It keeps only the last amount
  for the user and the last one for the village.
- A notification is sent only after a successful claim, never for a
  failed one.
- A marked log whose payload does not parse aborts that account's claim.
  So does a marked log that contains `EVENT_JSON` but not `EVENT_JSON:`,
  because it has no payload and `JSON.parse(undefined)` throws.
- A failing balance query also fails the account, after the claim
  transaction has already been sent.

## Model

| member | source | states |
|---|---|---|
| Text.TrimShape | index.js:29 | the trimmed line starts and ends with a non-space character, and the line is white space, then the trimmed text, then white space |
| Text.TrimEmptyIffAllSpace | index.js:29-30 | a line trims to the empty string exactly when every character of it is JavaScript white space |
| Text.TrimIdempotent | index.js:29 | trimming an already trimmed entry changes nothing |
| Text.TrimStartSkips | index.js:104 | white space in front of a non-space character is exactly what `trimStart` removes |
| Text.Split | index.js:28 | splitting on a character gives at least one piece, and no piece contains the separator |
| Text.JoinSplit | index.js:28 | joining the pieces of a split with the separator gives back the original text |
| Text.SplitJoin | index.js:28 | splitting separator-free pieces joined by the separator gives back exactly those pieces |
| Text.IndexOfFirst | index.js:89-90 | `indexOf` finds the first occurrence, with none before it, and finds nothing only when the text does not occur at all |
| Text.ContainsIff | index.js:89 | `includes` holds exactly when the text occurs at some position |
| AccountStore.KeepNonBlank | index.js:29-30 | the filter keeps at most as many entries as there are lines, each one non-empty and trimmed |
| AccountStore.KeptEmptyIff | index.js:29-30 | a line is dropped exactly when it is all white space |
| AccountStore.KeepNonBlankLine | index.js:29-30 | a single line gives its trimmed text, or nothing when it is blank |
| AccountStore.KeepNonBlankAppend | index.js:27-30 | the account list keeps file order: filtering two stretches of lines one after the other is filtering their concatenation |
| AccountStore.KeepNonBlankEmptyIff | index.js:29-30 | the filter yields nothing exactly when every line is blank |
| AccountStore.ParseAccountListOfLines | index.js:27-30 | a file of newline-free lines joined by newlines gives exactly the trimmed non-blank lines, in order |
| AccountStore.ParseAccountListEntries | index.js:27-30 | every account entry is non-empty, already trimmed and free of newlines |
| AccountStore.EntryFromSomeLine | index.js:27-30 | every account entry is the trimmed text of some line of the file |
| AccountStore.ParseAccountListEmptyIff | index.js:27-30 | the account list is empty exactly when the whole file is white space |
| AccountStore.SplitAccountLineFields | index.js:54 | the private key is the text before the first bar; the account id is the text between the first and second bar (or the end), and it is undefined exactly when the entry has no bar |
| AccountStore.SplitAccountLineOf | index.js:54 | a key, a bar and an id, followed by nothing or by further bar-separated fields, give that key and that id; further fields are ignored |
| AccountStore.SplitAccountLineNoBar | index.js:54 | an entry without a bar is all private key, with an undefined account id |
| LogParser.FlattenAppend | index.js:81-83 | flattening keeps receipt order: the logs of earlier receipts come first |
| LogParser.FlattenContains | index.js:81-83 | a log is in the flattened list exactly when some receipt outcome carries it |
| LogParser.PayloadOfStandardLog | index.js:90 | a log `EVENT_JSON:<json>` hands exactly `<json>` to the decoder |
| LogParser.PayloadSpec | index.js:90 | the payload starts right after the first `EVENT_JSON:`, holds no `EVENT_JSON:` itself and runs up to the next one or to the end of the log; it is undefined exactly when the log has no `EVENT_JSON:` |
| LogParser.PayloadHasNoSeparator | index.js:90 | a payload never contains `EVENT_JSON:` itself |
| LogParser.ScanEntriesLastWins | index.js:92-98 | in one event's data, the user amount is that of the last entry owned by the account, and the village amount that of the last other entry whose owner contains "village"; each is unchanged when no entry sets it |
| LogParser.ScanEntriesLastUser | index.js:93-94 | the user amount is that of the last entry whose owner is the account, or unchanged when there is none |
| LogParser.ScanEntriesLastVillage | index.js:95-96 | the village amount is that of the last non-user entry whose owner contains "village", or unchanged when there is none |
| LogParser.ScanEntriesAppend | index.js:92-98 | applying two runs of entries one after the other is applying their concatenation |
| LogParser.ScanLogsAppend | index.js:88-101 | scanning two stretches of logs one after the other is scanning their concatenation; a throw in the first stretch ends the scan |
| LogParser.ScanLogsViaEntries | index.js:88-99 | when no log throws, the scan is the scan of all `ft_mint` data entries in log order; unmarked logs and other events add nothing |
| LogParser.ScanLogsFailure | index.js:88-90 | the scan throws exactly when some marked log has no payload or a payload that does not parse |
| LogParser.ScanLogsFirstFailure | index.js:88-90 | when the scan throws, it is on the first such log |
| LogParser.UnmarkedLogsChangeNothing | index.js:85-89 | logs that do not mention `EVENT_JSON` leave both amounts as they were, so with no such log both stay null |
| LogParser.ClaimAmountsLastWins | index.js:81-98 | across all receipts, in flattened order, each amount is that of the last `ft_mint` entry that sets it, and it is absent when none does |
| LogParser.ExtractAmounts | index.js:85-101 | the nested `forEach` loops compute exactly the scan of the logs: the two amounts, or the log on which `JSON.parse` threw |
| Amount.NatToDecimal | index.js:104 | the rendering of a whole number is a non-empty digit string with no leading zero whose value is the number |
| Amount.LowDigits | index.js:104 | the fraction is exactly six digits whose value is the amount modulo one million |
| Amount.FixedPointRoundTrip | index.js:103-105 | the six-decimal rendering of any integer amount reads back as that amount, and it ends in a point and six digits |
| Amount.ParseIntOf | index.js:104 | `parseInt` skips leading white space and one sign, reads the digit run as its value (negated after `-`) and ignores what follows |
| Amount.ParseIntNaN | index.js:104 | with no digit after the white space and the sign, `parseInt` is NaN |
| Amount.ParseIntOfDigits | index.js:104 | a plain digit string parses as its decimal value |
| Amount.FormatAmountOfDigits | index.js:103-105 | a raw amount of plain digits renders as its value divided by one million, to six places, and reads back as that value |
| Amount.FormatExample | index.js:103-105 | 1500000 renders as "1.500000" |
| Amount.FormatClaimedDefault | index.js:107-108 | an absent or empty amount renders as "0.000000", the same text as a raw amount of zero |
| Scheduler.NextDelay | index.js:140-141 | the delay lies between the interval minus 8 and the interval minus 1 minutes, and, for the three offered intervals, between 112 and 239 |
| Scheduler.DelayRangeIsCovered | index.js:140-141 | every delay in that range comes from exactly one jitter draw |
| ClaimPass.FailureCauses | index.js:56-136 | an account fails exactly when an SDK call threw, the balance query threw, or a marked log did not decode; the report carries the account id of the entry |
| ClaimPass.NotificationGate | index.js:123-133 | a message is attempted exactly for a claimed account with notifications on, and whether it arrives changes nothing else in the report |
| ClaimPass.NoEventsClaimsZero | index.js:85-112 | a claim whose logs have no `EVENT_JSON` succeeds with both amounts "0.000000", the formatted balance and the transaction hash |
| ClaimPass.ClaimAccount | index.js:56-133 | one iteration's `try` body gives the report the pass function specifies, and it calls `sendMessage` exactly when notifications are on and the claim succeeded |
| ClaimPass.RunPass | index.js:53-137 | every account is reported once, in list order, from its own outcome alone, so a failure does not stop the pass; messages go out in account order, at most once per account, exactly for the claimed accounts when notifications are on |

## Left out

- The NEAR SDK (key store, `KeyPair.fromString`, `connect`, `account`, `functionCall`, `viewFunction`; index.js:57-78, 111) is foreign code. Its results are the per-account input `SdkOutcome`, so the key and account id are not passed on to it and the SDK's own validation is not modelled.
- The Telegram bot, `dotenv` and `process.env` (index.js:6-16, 125-129) are I/O. Only whether `sendMessage` succeeds is an input, and the message text is not modelled.
- The `prompts` dialogues (index.js:33-49) are UI. The interval and the notification switch are parameters.
- `readFileSync` (index.js:27) is file I/O. The model starts from the file's text.
- `JSON.parse` (index.js:90) is a parameter. For an `ft_mint` event, a `data` that is not an array, or an entry whose `owner_id` is neither a string nor an array, makes `forEach` or `includes` throw (index.js:92-95), and `decode` gives `SyntaxError` for such a payload. The `data` of any other event is never read, so `decode` may give it any entries. An array `owner_id`, whose `includes` tests for an element `"village"`, is not modelled. The `undefined === undefined` corner, where an entry has no `owner_id` and the line has no account id, is likewise not modelled.
- `crypto.randomInt` (index.js:140) is randomness. The jitter is a parameter in [1, 8].
- The `delay` helper, `setTimeout`, the `moment` timestamps and the endless `while (true)` (index.js:19-23, 52, 143-144) are time and async. The model covers one pass.
- Console output (index.js:69-71, 114-120, 131, 135) is not modelled.
- Amount.FixedPointRoundTrip: the model uses exact integer fixed point, not the float division `/ 1e6` and `toFixed(6)`. By IEEE double arithmetic the two agree while |x| < 2^33 * 10^6 (8589934592000000). From there on, the double nearest x / 1e6 has a spacing of 2^-19, more than a millionth, so the last digit can differ. For example, 8589934592000001 gives "8589934592.000002" in JavaScript and "8589934592.000001" in the model. The exponential form that `toFixed` uses from 1e21 up is not modelled either.
- Amount.FormatAmountOfDigits: `parseInt` returns a double. It rounds digit strings above 2^53 to the nearest double and gives Infinity beyond the double range. The model reads every digit string as its exact value.
