# Diet Tracker front end: decoding, input guards and ABI generation in Dafny

The Diet Tracker records daily calorie intake and burn on a blockchain ledger
as homomorphically encrypted values and shows them after decryption. This
project models the deterministic logic of its front end that can be read in
full:

- `ClearValue` — `formatClearValue`, which turns a decrypted clear value
  (absent, boolean, bigint or numeric text) into the text shown on the page.
  An integer is read both as a 32-bit two's complement word and as an offset
  from 2^31, and the reading with the smaller magnitude is shown, the two's
  complement one winning a tie. The heuristic is modelled exactly as written:
  raw values in (2^30, 2^31) are shown as negative numbers, and the lemmas
  state precisely which ranges each encoding survives.
- `DietForm` — the "Record Daily Intake" and "Average Balance" forms as a
  class holding the field texts and the requests issued. A click on Submit
  issues `submitDailyData` and clears both calorie fields only when intake
  > 0 and burn >= 0; a click on Calculate Average issues
  `calculateAverageBalance` only for a count > 0. The class invariant says
  every request ever issued passed its guard.
- `GenAbi` — the ABI generator script: it searches the fixed network table
  (sepolia, localhost, hardhat), keeps the deployments found, takes the first
  as primary (falling back to the compiled artifact's ABI or an empty one),
  warns about ABI mismatches, and builds the addresses object keyed by
  `String(chainId)`, with zero-address placeholders so that exactly the keys
  "11155111" and "31337" are present.
- `Decimal` — the JavaScript conversions these rely on: `bigint.toString()`,
  `BigInt(text)` and `parseInt(text)`, with their round trips.
- `Wrappers` — `Option`.

The deployments folder is a map from network folder name to the deployment
file read there (a missing or unreadable file is an absent key), and the
compiled artifact is a value of type `GenAbi.Artifact`; the button readiness
flags (`canSubmit`, `canCalculateAvg`) are parameters of the click methods.

The code infers the encoding of a decrypted integer from its magnitude; the
model follows the code.

## Model

| member | source | states |
|---|---|---|
| `Decimal.NatToString` | frontend/components/DietTrackerDemo.tsx:44 | the rendering is non-empty, all digits, and starts with '0' only for zero (which is "0") |
| `Decimal.IntToString` | frontend/components/DietTrackerDemo.tsx:44 | the rendering is non-empty, starts with '-' exactly for negative values, and is canonical (no '+', no superfluous leading zero, no "-0") |
| `Decimal.ParseBigInt` | frontend/components/DietTrackerDemo.tsx:31 | `BigInt` accepts exactly the empty text, a run of digits, or a sign followed by digits; a negative result comes from a '-' (round trip: `ParseBigIntOfToString`) |
| `Decimal.CanonicalNatValue` | frontend/components/DietTrackerDemo.tsx:44 | a canonical run of digits is the rendering of its own value |
| `Decimal.CanonicalUnique` | frontend/components/DietTrackerDemo.tsx:31-44 | `n.toString()` is the only canonical text that `BigInt` reads as n |
| `Decimal.NatToStringValue` | frontend/components/DietTrackerDemo.tsx:44 | reading back the digits of a rendering gives the number |
| `Decimal.ParseBigIntOfToString` | frontend/components/DietTrackerDemo.tsx:31 | `BigInt(n.toString()) == n` for every integer |
| `Decimal.LeadingDigits` | frontend/components/DietTrackerDemo.tsx:213-214 | `parseInt` reads the longest digit prefix: all digits, a prefix, and followed by a non-digit or the end |
| `Decimal.ParseInt` | frontend/components/DietTrackerDemo.tsx:213-214 | `parseInt` is a number exactly when the text starts with a digit, or with a sign and a digit, and NaN otherwise; a negative result comes from a '-' (agreement with `BigInt`: `ParseIntAgreesWithBigInt`, `ParseIntIgnoresSuffix`) |
| `Decimal.LeadingDigitsOfDigits` | frontend/components/DietTrackerDemo.tsx:213-214 | a text made only of digits is read whole |
| `Decimal.LeadingDigitsOfRun` | frontend/components/DietTrackerDemo.tsx:213-214 | the digit prefix stops where the run of digits stops |
| `Decimal.ParseIntAgreesWithBigInt` | frontend/components/DietTrackerDemo.tsx:213-214 | `parseInt` and `BigInt` agree on every non-empty decimal literal; the empty text is NaN for `parseInt` |
| `Decimal.ParseIntOfToString` | frontend/components/DietTrackerDemo.tsx:213-214 | `parseInt(String(n)) == n` for every integer |
| `Decimal.ParseIntIgnoresSuffix` | frontend/components/DietTrackerDemo.tsx:213-214 | `parseInt` ignores whatever follows the leading integer |
| `ClearValue.Abs` | frontend/components/DietTrackerDemo.tsx:42 | the magnitude is non-negative and is the value or its negation |
| `ClearValue.TwosComplement` | frontend/components/DietTrackerDemo.tsx:39 | a 32-bit word is read as the signed 32-bit integer congruent to it modulo 2^32 |
| `ClearValue.Centered` | frontend/components/DietTrackerDemo.tsx:40 | a 32-bit word read as an offset from 2^31 lies in [-2^31, 2^31) |
| `ClearValue.Numeric` | frontend/components/DietTrackerDemo.tsx:27-34 | a clear value has an integer exactly when it is a bigint or a text `BigInt` accepts; a bigint stands for itself |
| `ClearValue.DecodeSigned` | frontend/components/DietTrackerDemo.tsx:39-43 | the shown integer is the two's complement or the centered reading, of magnitude at most both, and the two's complement one on a tie |
| `ClearValue.FormatClearValue` | frontend/components/DietTrackerDemo.tsx:13-45 | absent gives "N/A", a boolean "true"/"false", a non-numeric text itself, and a number the `toString` text of the decoded integer, which is canonical and reads back as that integer |
| `ClearValue.ShowDecoded` | frontend/components/DietTrackerDemo.tsx:44 | the text shown for an integer is canonical and reads back as its decoded value, which by `CanonicalUnique` fixes it |
| `ClearValue.ShownTextUnique` | frontend/components/DietTrackerDemo.tsx:39-44 | any canonical text that reads back as the decoded integer is exactly the text shown |
| `ClearValue.DecodeSignedByRange` | frontend/components/DietTrackerDemo.tsx:39-44 | values up to 2^30 are shown as they are, values in (2^30, 3*2^30) lose 2^31 (so (2^30, 2^31) comes out negative), larger ones lose 2^32 |
| `ClearValue.DecodeSignedTies` | frontend/components/DietTrackerDemo.tsx:39-43 | the two readings tie exactly at 2^30 and 3*2^30, and both ties go to the two's complement reading |
| `ClearValue.EncodeTwosComplement` | frontend/components/DietTrackerDemo.tsx:39 | a 32-bit signed integer stored as a word in [0, 2^32) whose two's complement reading is the integer |
| `ClearValue.TwosComplementRoundTrip` | frontend/components/DietTrackerDemo.tsx:39-44 | a two's complement word decodes to its integer exactly when the integer is in [-2^30, 2^30] |
| `ClearValue.CenteredRoundTrip` | frontend/components/DietTrackerDemo.tsx:40-44 | a value stored as offset from 2^31 decodes to its integer exactly when the integer is in (-2^30, 2^30) |
| `ClearValue.SmallValuesShownAsIs` | frontend/components/DietTrackerDemo.tsx:27-44 | a bigint in [0, 2^30], or its decimal text, is shown as its own rendering |
| `ClearValue.TextShownAsBigInt` | frontend/components/DietTrackerDemo.tsx:27-34 | a bigint and its decimal text are shown alike |
| `DietForm.SubmitRequest` | frontend/components/DietTrackerDemo.tsx:213-216 | a submission is issued only with intake > 0 and burn >= 0 |
| `DietForm.AverageRequest` | frontend/components/DietTrackerDemo.tsx:332-334 | an average is asked for only for a count > 0 |
| `DietForm.SubmitOfRenderedNumbers` | frontend/components/DietTrackerDemo.tsx:213-216 | for decimal field texts, exactly the typed pair is submitted when intake > 0 and burn >= 0, and nothing otherwise |
| `DietForm.SubmitDropsFraction` | frontend/components/DietTrackerDemo.tsx:213-216 | an intake typed as "x.f" is submitted as x |
| `DietForm.SubmitNeedsNumbers` | frontend/components/DietTrackerDemo.tsx:213-215 | a field without a leading number (NaN) blocks the submission |
| `DietForm.AverageOfRenderedCount` | frontend/components/DietTrackerDemo.tsx:332-335 | for a decimal count text, exactly that count is asked for when it is > 0, and nothing otherwise |
| `DietForm.Form.constructor` | frontend/components/DietTrackerDemo.tsx:87-89 | calorie fields start empty and the record count at "7"; nothing issued |
| `DietForm.Form.SetCaloriesIn` | frontend/components/DietTrackerDemo.tsx:190 | typing sets the intake field and nothing else |
| `DietForm.Form.SetCaloriesOut` | frontend/components/DietTrackerDemo.tsx:203 | typing sets the burn field and nothing else |
| `DietForm.Form.SetNumRecordsForAvg` | frontend/components/DietTrackerDemo.tsx:321 | typing sets the record-count field and nothing else |
| `DietForm.Form.ClickSubmit` | frontend/components/DietTrackerDemo.tsx:209-220 | when enabled and the guard passes, one submission is appended and both fields cleared (so a second click issues nothing); otherwise nothing changes; every issued request keeps the guard |
| `DietForm.Form.ClickCalculateAverage` | frontend/components/DietTrackerDemo.tsx:328-336 | when enabled and the count is > 0, that count is appended to the requests; the fields never change |
| `GenAbi.ReadDeployment` | frontend/scripts/genabi.mjs:51-75 | a network's deployment is found exactly when its folder holds a readable file, and is that file's fields |
| `GenAbi.Keep` | frontend/scripts/genabi.mjs:68-87 | a kept deployment has the file's address and ABI, the table's chain id and the table's display name as `chainName` (for every kept one: `KeptFromTable`) |
| `GenAbi.Kept` | frontend/scripts/genabi.mjs:81-93 | at most one deployment is kept per network searched (order and origin: `KeptFromTable`, `FirstFoundFirst`, `NothingKept`) |
| `GenAbi.FirstPrimary` | frontend/scripts/genabi.mjs:88-91 | a primary exists exactly when a deployment was kept, with the first one's ABI and address (by table: `PrimaryByNetwork`) |
| `GenAbi.ChainKey` | frontend/scripts/genabi.mjs:142 | a chain's key is the canonical decimal text of its id (values: `SupportedChainKeys`; distinct ids, distinct keys: `ChainKeyInjective`) |
| `GenAbi.EntryOf` | frontend/scripts/genabi.mjs:142-146 | the stored entry has the deployment's address, chain id and display name (which entry wins: `LastDeploymentWins`) |
| `GenAbi.AddressesOf` | frontend/scripts/genabi.mjs:140-147 | the loop stores at most one entry per deployment (keys and winners: `AddressKeys`, `LastDeploymentWins`) |
| `GenAbi.FallbackPrimary` | frontend/scripts/genabi.mjs:96-127 | with no deployment, the ABI is the artifact's `abi` (or empty when the field is missing), empty when the artifact is missing or unreadable, and the address is zero in every case |
| `GenAbi.WithPlaceholders` | frontend/scripts/genabi.mjs:149-167 | both supported keys are added, present entries are never overwritten, and an absent key gets its zero-address placeholder named "sepolia" or "hardhat" |
| `GenAbi.Mismatched` | frontend/scripts/genabi.mjs:129-137 | every deployment whose ABI differs is named, and every name belongs to such a deployment; a missing ABI differs from every present one, so a primary without `abi` makes every deployment with one a mismatch |
| `GenAbi.SupportedChainKeys` | frontend/scripts/genabi.mjs:142 | `String(11155111)` is "11155111" and `String(31337)` is "31337" |
| `GenAbi.ChainKeyInjective` | frontend/scripts/genabi.mjs:142 | different chain ids have different keys |
| `GenAbi.NothingKept` | frontend/scripts/genabi.mjs:81-96 | nothing is kept exactly when no network of the table has a deployment |
| `GenAbi.KeptFromTable` | frontend/scripts/genabi.mjs:68-87 | every kept deployment is a table row's file with that row's chain id and display name |
| `GenAbi.FirstFoundFirst` | frontend/scripts/genabi.mjs:81-93 | the first kept deployment is that of the first network in table order that has one |
| `GenAbi.PrimaryByNetwork` | frontend/scripts/genabi.mjs:38-93 | the primary is sepolia's deployment if found, else localhost's, else hardhat's, else none |
| `GenAbi.KeptStep` | frontend/scripts/genabi.mjs:81-87 | searching one more network appends its deployment if found |
| `GenAbi.AddressesStep` | frontend/scripts/genabi.mjs:141-147 | storing one more deployment puts its entry under its chain's key |
| `GenAbi.AddressKeys` | frontend/scripts/genabi.mjs:140-147 | after the loop, exactly the chains with a deployment have a key |
| `GenAbi.LastDeploymentWins` | frontend/scripts/genabi.mjs:140-147 | a chain's key holds the entry of the last deployment on that chain |
| `GenAbi.AddressesAfterStep` | frontend/scripts/genabi.mjs:81-147 | searching one more network adds its entry, if found, to the addresses object |
| `GenAbi.FoundAddresses` | frontend/scripts/genabi.mjs:38-147 | before placeholders, "11155111" holds sepolia's deployment if found, and "31337" hardhat's, else localhost's |
| `GenAbi.GeneratedAddresses` | frontend/scripts/genabi.mjs:38-167 | the emitted object has exactly keys "11155111" and "31337", with the deployments above or zero-address placeholders; hardhat overrides localhost |
| `GenAbi.CollectDeployments` | frontend/scripts/genabi.mjs:77-93 | the loop keeps the found deployments in table order and the first of them as primary |
| `GenAbi.AbiMismatchWarnings` | frontend/scripts/genabi.mjs:129-137 | the loop warns for exactly the deployments whose ABI differs from the primary's |
| `GenAbi.BuildAddresses` | frontend/scripts/genabi.mjs:139-167 | the loop stores every deployment under its chain's key, then adds the placeholders |
| `GenAbi.GenerateAbi` | frontend/scripts/genabi.mjs:38-174 | the emitted ABI is the primary's whatever the warnings (absent when the primary file has no `abi`, emitted then as `{}`), and the addresses object has exactly the two supported keys |

## Left out

- The decryption-signature cache, the encryption-instance resolver and the decrypt batching: `useFhevm`, `useInMemoryStorage`, `useMetaMaskEthersSigner` and `useDietTracker` are not part of this model, nor is the homomorphic encryption, EIP-712 signing or wallet interaction behind them.
- Page rendering (JSX, class strings, the connection and "Contract Not Found" screens) and the locale date formatting of records.
- `BigInt(text)` is modelled for decimal literals only: "" is 0 and an optional sign is accepted, but whitespace trimming and the 0x/0o/0b prefixes are not modelled, so such texts are treated as non-numeric.
- `parseInt(text)` is modelled as an optional sign and the longest leading digit run; whitespace trimming, its "0x" hexadecimal reading and the rounding of results beyond 2^53 (it returns a floating-point Number) are not modelled.
- The `String(value)` fallback of `formatClearValue` for values outside the declared types cannot be reached through those types and is not modelled; `undefined` and `null` are one constructor.
- React state updates are asynchronous and `submitDailyData`/`calculateAverageBalance` are asynchronous calls; the model applies the field updates at once and records only which calls were issued.
- In the ABI generator: file-system checks, reads and writes, console output, `process.exit`, and the JSON layout of the generated files (key order included). An ABI is a sequence of JSON texts and two ABIs are compared by equality, standing for the comparison of their `JSON.stringify` texts.
- A deployment file whose JSON is not an object, or whose `address` is missing, is not modelled; a deployment file's `abi` is either present or missing (other falsy values such as `null` are not told apart); a falsy `abi` field of the artifact is modelled as a missing one.
- The primary deployment's address is computed but, as in the script, never emitted.
- The contract ABI constant, the type declarations, the deployment script and the page layout have no behaviour to model.
