# EcoNavi core in Dafny

EcoNavi (EmissioNavi) is a Next.js app for planning greener trips. This project models the
logic buried in its pages as pure Dafny functions over immutable data, and proves what that
logic promises:

- **Polyline decoding** (`decodePolyline`, navigate page). This is Google's Encoded Polyline
  Algorithm Format: 5-bit chunks offset by 63, a continuation bit 0x20, zig-zag signs and
  running sums. Coordinates stay as integers in units of 1e-5 degrees. The model has two
  decoders: a recursive reference decoder, and a loop that mirrors the source's index-based
  decoder and is proved equal to it. A reference encoder shows that decoding inverts
  encoding, and the format's published example decodes to its three points.
- **Route planning** (`findRoutes`, `fetchRoute`, `summary`, navigate page). There is one
  entry per travel profile (car, bike, walk), in profile order. Each entry is built from that
  profile's service answer, or from the straight-line estimate when the request failed. The
  first entry is the active route. The service's answer is an input.
- **Hub-relay optimiser** (`optimizeRoute`, home page). Place names resolve against the
  destination table, with fallbacks. The direct leg wins unless the best relay through
  "City Hub" or "Transit Hub" is strictly shorter. Among equally long relays, the hub listed
  first wins. The distance function is a parameter.
- **Fare cards**: one card per transport row, priced to the cent and stably sorted by fare.
- **Shipment estimate**: emissions, plus the greener alternative, which is the first table
  entry, by ascending factor, that is strictly below the current factor.
- **Commute log**: building an entry, appending it, weekly totals, goal progress, credits.
- **Rewards**: tiers, the redeem gate, and the four badges.
- **Accounts**: register and login (`handleAuth`), the demo login, logout and session restore,
  as transitions of an explicit state. The state holds the stored accounts, the session email,
  the signed-in account and the message.
- **Constant tables** of `app/data.js`, with lemmas about them.

JavaScript semantics are written out where they matter:

- `Math.round(x)` is `floor(x + 1/2)` (`JsSemantics.Round`).
- `toFixed(2)` read back by `parseFloat` rounds to the nearest cent, ties away from zero
  (`JsSemantics.Fixed2`).
- `a || b` treats 0 and the empty string as missing.
- `Array.prototype.sort` with a numeric comparator is a stable sort (`Sorting.SortBy`).
- Numbers are exact reals (fares, emissions, credits) or unbounded integers (polyline).

Modules: `JsSemantics`, `Data`, `Polyline`, `Routes`, `Sorting`, `Fares`, `Shipment`,
`Optimizer`, `Commutes`, `Rewards`, `Accounts`. There is one file per module.

## Model

| member | source | states |
|---|---|---|
| JsSemantics.Max | app/commutes/page.js:32 | `Math.max` returns one of its arguments, and it is at least both |
| JsSemantics.MinInt | app/commutes/page.js:22 | `Math.min` on integers returns one of its arguments, and it is at most both |
| JsSemantics.Round | app/commutes/page.js:22-23 | `Math.round` returns the integer within half a unit of its argument, with halves rounding up |
| JsSemantics.Fixed2 | app/page.js:101-103 | `toFixed(2)` read back as a number lies within half a cent of the exact value, on the same side of zero, and strictly closer than half a cent on the side away from zero, and is a whole number of cents |
| JsSemantics.Fixed2Symmetric | app/page.js:101-103 | rounding to cents commutes with negation, since `toFixed` rounds the magnitude and restores the sign |
| JsSemantics.Fixed2TiesAwayFromZero | app/page.js:101-103 | 0.125 rounds to 0.13 and -0.125 to -0.13 |
| JsSemantics.RoundMonotone | app/rewards/page.js:14-17 | rounding never reverses the order of two amounts, so a larger saving never gives fewer credits |
| JsSemantics.Fixed2Monotone | app/page.js:101-103 | rounding to cents never reverses the order of two fares |
| JsSemantics.Fixed2StrictlyMonotone | app/page.js:101-103 | fares at least one cent apart stay strictly ordered after rounding |
| Data.HubAndFallbackNamesPresent | app/data.js:1-8 | "Transit Hub", "Eco Park" and "City Center", which serve as fallbacks and hubs, are in the destination table |
| Data.DestinationsAreValidCoords | app/data.js:1-8 | every destination has a latitude in [-90, 90] and a longitude in [-180, 180] |
| Data.CommuteFactorsMatchTransportTable | app/data.js:10-40 | the commute factors and the transport rows have the same keys and the same emission per key |
| Data.CommuteFactorsBelowCarBaseline | app/data.js:34-40 | every commute factor is non-negative and below the 0.21 car baseline |
| Data.ActiveModesAreFree | app/data.js:14-15 | bike and walk cost nothing and emit nothing |
| Data.ShipIsTheUniqueGreenestShipment | app/data.js:42-47 | every shipment factor is positive, and ship is strictly below every other mode |
| Data.OrdersEnumerateTables | app/data.js:10-47 | the key orders used for `Object.entries` list every table key exactly once |
| Polyline.ReadGroup | app/navigate/page.js:25-29 | reading one value consumes at least one character, except when the input is already exhausted |
| Polyline.GroupValueBound | app/navigate/page.js:25-29 | a value read from n characters is below 32^n |
| Polyline.SixCharacterGroupsFit | app/navigate/page.js:26-27 | a value of at most six chunks fits in 30 bits, where the source's 32-bit `<<` and `\|` agree with exact arithmetic |
| Polyline.ZigZagDecode | app/navigate/page.js:30 | an even value r gives r/2 and an odd one gives `~(r>>1)` = -(r/2)-1; the sign follows the low bit |
| Polyline.ZigZagEncode | app/navigate/page.js:30 | every integer is the zig-zag decoding of some natural number |
| Polyline.ZigZagBijection | app/navigate/page.js:30 | zig-zag decoding is injective: encoding after decoding gives back the value |
| Polyline.Decode | app/navigate/page.js:15-47 | `decodePolyline` from zero accumulators: the empty string gives no points, only the empty string does, and there is at most one point per character |
| Polyline.DecodeFrom | app/navigate/page.js:21-44 | the empty string decodes to no points, any other string to at least one and at most one point per character |
| Polyline.DecodeFromIsPrefixSums | app/navigate/page.js:21-44 | each iteration reads one latitude step, then one longitude step, and point k holds the running sums of the first k+1 steps |
| Polyline.DecodeIsPrefixSums | app/navigate/page.js:30-43 | the k-th decoded point is the sum of the first k+1 longitude steps, then the sum of the first k+1 latitude steps |
| Polyline.ReadEncodedValue | app/navigate/page.js:25-29 | reading a value back from the standard encoder's chunks gives that value and leaves the rest of the text untouched |
| Polyline.EncodeValue | app/navigate/page.js:25-29 | the standard encoder writes every value as at least one chunk |
| Polyline.DecodeStep | app/navigate/page.js:21-44 | one iteration of the loop emits exactly one point and continues after the two values it read |
| Polyline.DecodeEncodeFrom | app/navigate/page.js:21-44 | decoding the encoding of points relative to a starting position gives those points back |
| Polyline.DecodeEncode | app/navigate/page.js:15-47 | decoding the standard encoding of any sequence of integer points gives that sequence back |
| Polyline.ReferenceGroups | app/navigate/page.js:25-29 | the six values of the format's published example encode to their published chunks |
| Polyline.ReferenceVector | app/navigate/page.js:15-47 | the published example string decodes to (38.5, -120.2), (40.7, -120.95), (43.252, -126.453) |
| Polyline.ChunkAt | app/navigate/page.js:26-29 | one `charCodeAt` step adds the chunk at the current weight, and past the end it reads 0 and stops |
| Polyline.ReadGroupAt | app/navigate/page.js:25-29 | the inner do-while loop reads the same value as the reference reader, and moves the index past what it read |
| Polyline.DecodePolyline | app/navigate/page.js:15-47 | the index-based loop returns exactly the reference decoding, one point per pair of steps |
| Routes.ProfilesAgreeWithTables | app/navigate/page.js:7-11 | the car factor is the 0.21 baseline, bike and walk emit nothing as in the commute table, and every fallback speed is positive |
| Routes.ApproxKm | app/navigate/page.js:133-135 | given a true square root, the estimate is non-negative and its square is 111² times the planar squared distance in degrees |
| Routes.RouteFor | app/navigate/page.js:126-138 | an answer gives km = m/1000, min = s/60 and the decoded geometry, with no fallback; a failure gives the estimate, an empty geometry, min = km/speed·60 and the fallback flag; emissions are km times the factor either way |
| Routes.FindRoutes | app/navigate/page.js:121-142 | no plan without both endpoints; otherwise one entry per profile, in profile order, each from its own response, and the first entry active |
| Routes.ProfilesAreIsolated | app/navigate/page.js:126-138 | changing other profiles' responses never changes a profile's entry |
| Routes.AllFailedShareTheEstimate | app/navigate/page.js:131-137 | when every request fails, all entries fall back to the same distance, and slower profiles take longer |
| Routes.SummaryOf | app/navigate/page.js:114-119 | zeros without an active route; otherwise its distance, and 0.13 kg saved per km, never negative |
| Sorting.SortBy | app/page.js:103 | sorting keeps the length |
| Sorting.SortByPermutes | app/page.js:103 | sorting is a permutation of its input |
| Sorting.SortBySorted | app/page.js:103 | the sorted result has non-decreasing keys |
| Sorting.InsertPermutes | app/page.js:103 | inserting adds exactly the new element |
| Sorting.InsertSorted | app/page.js:103 | inserting into a sorted list keeps it sorted |
| Sorting.FirstMinIndex | app/page.js:166-172 | the index of the first element with the least key: no element has a smaller key, and every earlier element has a strictly larger key |
| Sorting.SortHeadIsFirstMin | app/page.js:166-172 | the stable sort's first element is the earliest element with the least key |
| Sorting.FindFirst | app/page.js:197-199 | `find` returns the first element satisfying the predicate, and nothing exactly when no element satisfies it |
| Sorting.HeadIsMinimum | app/page.js:197-199 | the head of a sorted permutation is an input element with the least key |
| Fares.CardFor | app/page.js:98-102 | a card carries its row's key and label |
| Fares.CardPrices | app/page.js:99-101 | the fare is base + distance·per-km and the emission distance·factor, each a whole number of cents within half a cent of the exact value |
| Fares.TableCards | app/page.js:98-102 | one card per transport row, in `Object.entries` order |
| Fares.FareCards | app/page.js:96-104 | five cards, sorted by non-decreasing fare, and a permutation of the table's cards |
| Fares.CardsMatchTable | app/page.js:96-104 | every card is the priced card of its row, and every row has a card |
| Fares.FareCardsInOrder | app/page.js:96-104 | for any non-negative distance the sorted cards are exactly the bike, walk, bus, metro and ride-share cards, in that order |
| Fares.FareOrderForTrips | app/page.js:96-104 | for any non-negative distance the order is bike, walk, bus, metro, ride-share |
| Fares.TableFares | app/data.js:10-16 | for a non-negative distance bike and walk are free, and bus, metro and ride-share are strictly increasing |
| Shipment.ShipFactor | app/page.js:195 | a listed mode uses its table factor and any other mode 0.1; the `\|\|` fallback never fires on a listed mode, because no listed factor is 0 |
| Shipment.Entries | app/page.js:197 | the entries are exactly the table's (mode, factor) pairs |
| Shipment.SortedEntries | app/page.js:197-198 | the sorted entries are sorted by factor and hold exactly the table's pairs |
| Shipment.FirstBelowIsGreenest | app/page.js:197-199 | on the sorted entries, `find` returns nothing iff no factor is below the current one; otherwise it returns the least factor in the table |
| Shipment.Alternative | app/page.js:196-200 | "Already optimal" iff no listed factor is strictly below; otherwise a listed mode strictly below, with the least factor of the table |
| Shipment.CalcShipment | app/page.js:193-201 | the emission is a whole number of cents within half a cent of weight·distance·factor/1000, and the alternative is the one for the mode's factor |
| Shipment.ShipIsSuggested | app/page.js:193-201 | shipping by ship is already optimal, and every other mode, listed or not, is pointed to ship |
| Optimizer.ResolvePlace | app/page.js:159-160 | a known name resolves to its place, an unknown one to the fallback's place; the result is always a table place |
| Optimizer.Candidates | app/page.js:166-171 | one relay candidate per hub, in hub order, of length d(start, h) + d(h, dest) through [start, h, dest] |
| Optimizer.BestVia | app/page.js:166-172 | the chosen relay has the least relay distance of all hubs, and every hub listed before it is strictly longer |
| Optimizer.BestRoute | app/page.js:165-173 | the direct leg [start, dest] without a hub iff it is no longer than the best relay; otherwise the best relay through its hub; the result is the minimum of all options |
| Optimizer.OptimizeRoute | app/page.js:158-180 | the stored route follows the best path from the resolved start to the resolved destination, its distance is a whole number of cents within half a cent of that path's length, and the saving shown is likewise that length times 0.12 kg/km to the cent |
| Optimizer.TieKeepsDirect | app/page.js:173 | when no relay is strictly shorter than the direct leg, the direct leg is chosen |
| Optimizer.EqualRelaysPreferEarlierHub | app/page.js:161-172 | when both relays are equally long, City Hub, listed first, is chosen |
| Optimizer.UnknownNamesUseDefaults | app/page.js:159-160 | unknown names plan the trip from Transit Hub to Eco Park |
| Commutes.CommuteFactorAsWritten | app/commutes/page.js:29 | as written, every mode, bike and walk included, is charged a positive factor below the 0.21 car baseline |
| Commutes.CommuteFactor | app/commutes/page.js:29 | the table factor for a listed mode and 0.12 otherwise, always in [0, 0.21) |
| Commutes.ZeroEmissionModesChargedAsWritten | app/commutes/page.js:29-32 | as written, bike and walk are charged 0.12 kg/km: 10 km by bike logs 1.2 kg emitted and 0.9 kg saved (9 credits), where the intended entry has 0 and 2.1 (21 credits) |
| Commutes.FactorLookupsDiffer | app/commutes/page.js:29 | the written and the intended lookup differ exactly on listed modes whose factor is 0 |
| Commutes.ModeLabel | app/commutes/page.js:33 | the row's label for a listed mode, the mode key itself otherwise |
| Commutes.EntryFor | app/commutes/page.js:30-33 | an entry charged at a factor: emission is distance·factor, and savings are the larger of 0 and distance·(0.21 − factor) |
| Commutes.NewEntry | app/commutes/page.js:28-33 | the entry the program logs, with the `\|\| 0.12` lookup: emission is distance·factor; savings are never negative and, for a non-negative distance, are distance·(0.21 − factor) |
| Commutes.NewEntryIntended | app/commutes/page.js:28-33 | the same entry with the intended factor lookup, so bike and walk emit nothing |
| Commutes.EntriesDiffer | app/commutes/page.js:29-33 | the logged entry differs from the intended one exactly for a zero-factor mode over a non-zero distance |
| Commutes.AddCommute | app/commutes/page.js:27-35 | the log grows by one, earlier entries are unchanged and the entry the program builds is last |
| Commutes.AddCommuteKeepsSavingsNonNegative | app/commutes/page.js:31-34 | a log built by adding commutes never holds a negative saving |
| Commutes.TotalSaved | app/commutes/page.js:20 | the weekly saving of a log with non-negative savings is non-negative |
| Commutes.AddCommuteKeepsEmissionsNonNegative | app/commutes/page.js:30-34 | adding a commute over a non-negative distance keeps every emission in the log non-negative |
| Commutes.TotalEmissions | app/commutes/page.js:21 | the weekly emissions of a log with non-negative emissions are non-negative |
| Commutes.Credits | app/rewards/page.js:14-17 | credits are ten per kg saved, rounded, and non-negative when every saving is |
| Commutes.GoalProgress | app/commutes/page.js:22 | progress is the saving as a percentage of the 12 kg goal, rounded to within half a unit and capped at 100: never above 100, never more than half a unit above the percentage, and below 100 only when within half a unit of it; non-negative for a non-negative saving, and 100 once 12 kg are saved |
| Commutes.WeeklyStats | app/commutes/page.js:19-25 | the totals are the sums of savings and emissions over the log, progress is that of the saving and credits ten per kg; with non-negative savings the total is non-negative, progress in [0, 100] and credits non-negative |
| Commutes.AddCommuteTotals | app/commutes/page.js:20-21 | adding a commute adds exactly its saving and its emission to the weekly totals |
| Commutes.AddCommuteNeverLowersCredits | app/page.js:106-115 | adding a commute never lowers the credits or the goal progress |
| Rewards.Level | app/rewards/page.js:19 | Champion iff credits > 200, Leader iff 120 < credits ≤ 200, Advocate iff 60 < credits ≤ 120, Rookie otherwise |
| Rewards.LevelMonotone | app/rewards/page.js:19 | more credits never give a lower tier |
| Rewards.Redeem | app/rewards/page.js:21-27 | redeeming is refused iff credits < 50 |
| Rewards.BadgesFor | app/rewards/page.js:58-63 | First 25 iff credits ≥ 25; Bike-friendly iff some entry is a bike commute; Low-carbon iff credits ≥ 80; Leader tier iff credits > 120 |
| Rewards.BadgeLadder | app/rewards/page.js:21-63 | Leader tier implies Low-carbon, which implies First 25; Low-carbon implies redeeming works, and redeeming implies First 25 |
| Rewards.AddCommuteKeepsBadges | app/rewards/page.js:14-63 | adding a commute never locks a badge or lowers the tier |
| Rewards.BikeCommuteUnlocksBadge | app/rewards/page.js:60 | adding a bike commute unlocks Bike-friendly |
| Accounts.Btoa | app/page.js:129 | `btoa` is defined exactly on Latin-1 passwords |
| Accounts.BtoaInjective | app/page.js:135 | equal stored hashes mean equal passwords |
| Accounts.HandleAuth | app/page.js:117-142 | no stored account is ever changed or removed; only register adds an account, under the form's email; only a successful login changes the session, to an existing account |
| Accounts.InvalidInputChangesNothing | app/page.js:119-122 | a blank email or a password shorter than 6 changes nothing but the message |
| Accounts.RegisterExistingChangesNothing | app/page.js:124-128 | registering a taken email changes nothing but the message |
| Accounts.RegisterAddsAccount | app/page.js:129-132 | registering a new email adds exactly that account, with 0 credits, and signs nobody in |
| Accounts.LoginSucceedsIff | app/page.js:134-141 | login signs the account in iff it exists and its stored hash is the password's; the store is untouched |
| Accounts.RegisterThenLogin | app/page.js:117-142 | after registering, logging in with the same password signs in the new account, and with a different one it does not |
| Accounts.DemoLogin | app/page.js:144-151 | the demo account is stored with the current credits and signed in, and every other account is unchanged |
| Accounts.DemoPasswordLogsIn | app/page.js:144-151 | after the demo login, logging in as the demo email with "demo123" succeeds |
| Accounts.Logout | app/page.js:153-156 | the session is cleared and the accounts are kept |
| Accounts.RestoreSession | app/page.js:82-88 | on load, the stored session's account is signed in iff the session email is non-empty and still stored |
| Accounts.TransitionsKeepSessionConsistent | app/page.js:81-156 | every transition keeps the signed-in account equal to the stored account of the session email, so a reload restores it |

## Left out

- Network I/O. The Nominatim geocoder (app/navigate/page.js:49-60) and the OSRM request
  (app/navigate/page.js:64-70) are not modelled. Their outcome is the input `Routes.ServiceResponse`.
  A missing `routes[0]`, a missing geometry, an HTTP error and a thrown error all become
  `Failed`.
- Debounce timers, React effects and state, `Promise.all` concurrency. The fan-out is a
  positional map, since each profile's entry depends only on its own response. The outer
  `catch` of `findRoutes` is left out: with the inner `catch` in place nothing reaches it.
- Haversine (app/page.js:13-22) is left out. It is the distance parameter of `Optimizer`, with no
  assumption about it, not even symmetry. `Math.sqrt` in the fallback is the `sqrt` parameter
  of `Routes.ApproxKm`.
- Optimizer.BestVia and Optimizer.BestRoute require at least one hub. The program always passes
  its two hubs; with none, its `[0]` would be undefined and the comparison would throw.
- Routes.ApproxKm: its contract holds only when `sqrt` returns the true root at that point.
- Floating point. All amounts are exact reals, so NaN, infinities, rounding error in sums and
  `0.1 + 0.2`-style artefacts are not modelled. A distance that `parseFloat` cannot read (NaN) is
  left out. `toFixed(2)` is modelled as rounding the exact magnitude, ties away from zero; on
  binary floats a decimal tie such as 1.005 is stored below the tie and rounds down.
- Polyline.SixCharacterGroupsFit: the decoder works on unbounded integers. The source's
  `<<`, `|` and `>>` are 32-bit; the two agree for values of at most six chunks, which this
  lemma bounds. Longer groups, where JavaScript wraps around, are not modelled.
- Polyline: the final division by 1e5 is left out. Points stay in units of 1e-5 degrees.
  Strings are sequences of Unicode scalar values rather than UTF-16 code units, so text
  outside the Basic Multilingual Plane is read differently.
- Accounts: the password length counts scalar values, where the source counts UTF-16 units.
- Accounts.Btoa: the actual base64 text is left out. The hash is represented by the encoded
  Latin-1 string, which keeps `btoa` injective. A password `btoa` rejects makes the handler
  throw before anything is stored, and the model returns the state unchanged.
- JSON round-trips through `localStorage`, and prototype keys such as `"__proto__"` or
  `"toString"`, which make a plain object lookup truthy, are left out. The store is a map.
- Displayed text is left out: message strings, `toFixed` formatting in labels, the share text and
  clipboard, the emission tips, the safety page, `MapCanvas`, components/LiveMap.jsx and the site
  header. The optimiser's summary line is modelled by its two rounded numbers.
- The copies of the commute and reward logic in app/page.js (lines 106-115, 182-191, 203-209)
  match app/commutes/page.js and app/rewards/page.js, and are modelled once. Only the DOM reads
  (`document.getElementById`) differ, and they become parameters.

Three behaviours of the code that the model keeps:

- A successful route whose encoded geometry is empty has an empty geometry and no fallback
  flag. So an empty geometry does not imply a fallback.
- A malformed polyline never raises. Reading past the end yields a chunk of 0 that ends the
  value.
- The fallback distance is planar degrees times 111, not a great-circle distance.

## Findings

| source | as written | input that shows it | evidently intended | confidence | as-written member | corrected member |
|---|---|---|---|---|---|---|
| app/commutes/page.js:29 | `commuteEmissionFactors[mode] \|\| 0.12` treats the table's factor 0 for bike and walk as missing, and charges 0.12 kg/km (same at app/page.js:185) | mode "bike", distance 10: emission 1.2 and savings 0.9 (`Commutes.ZeroEmissionModesChargedAsWritten`) | bike and walk emit 0, so 10 km saves 2.1 kg and earns 21 credits, not 9 | not executed | Commutes.CommuteFactorAsWritten, Commutes.NewEntry (what `AddCommute` logs) | Commutes.CommuteFactor, Commutes.NewEntryIntended |
