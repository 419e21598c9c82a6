# Status table of the interface-state dashboard, in Dafny

This project models the status table of a terminal dashboard that watches a
fleet of interfaces (servers, publishers, subscribers). Each interface reports
`{ name, interface_type, state }` on a publish/subscribe channel. The table
keeps one growable sequence of `Active`/`Inactive` per category. A report
writes the slot given by the 1-based ordinal at the end of its `name`.

Modules, one per part of `src/main.rs`:

- `Wrappers` (`wrappers.dfy`): `Option`.
- `SplitWhitespace` (`split_whitespace.dfy`): `str::split_whitespace` and
  `.last()`. Whitespace is the Unicode White\_Space property, as in
  `char::is_whitespace`. `Tokens` splits from the left. `LastToken` scans from
  the right. A lemma proves that they agree.
- `ParseUsize` (`parse_usize.dfy`): `str::parse::<usize>()` on a 64-bit target.
  Empty input, a lone sign, a `-` or any non-digit fail. One leading `+` is
  skipped. Digits are accumulated with checked `* 10` and `+ digit`, so a
  value above `2^64 - 1` fails. It is proved equal to "the unbounded value is
  at most `usize::MAX`", and printing then parsing a number round-trips.
- `Monitor` (`monitor.dfy`): `State`, `InterfaceState`, `App`, `App::new`,
  `App::update_state` (a pure function, as the source consumes `self` and
  returns a new `App`) and `App::update_specific_state`. The latter is a method
  that resizes the owned vector and assigns a slot, as the source does. It is
  proved equal to the slot-by-slot specification `SpecificUpdate`, which the
  pure functions use.
- `Ingest` (`ingest.dfy`): the decode-then-update step of `subscriber_callback`.
  The JSON decoder is the parameter `decode: string -> Option<InterfaceState>`.
  A fold over the messages gives the table after a stream. Lemmas pin down the
  fold's result. From any table, each category's length is the larger of its
  old length and the largest ordinal reported for it. Each slot holds the last
  state reported for it; an unreported slot keeps its old state, or is
  `Inactive` if it is new. From `App::new()`, each category's length is exactly
  the largest ordinal reported for it, and every unreported slot is `Inactive`.
- `Scenarios` (`scenarios.dfy`): example runs ("server 3" then "server 2",
  "publisher abc", a lower-case "active").

Two behaviours of `src/main.rs` worth noting:

- A `None` from the stream is logged and the loop keeps going
  (`src/main.rs:162-164`). This is transport behaviour and is left out.
- The ordinal is read with `parse::<usize>()`, so a leading `+` is accepted and
  a value above `usize::MAX` is ignored like any other unparsable token.

## Model

| member | source | states |
|---|---|---|
| `Monitor.State` | src/main.rs:26-36 | the two activity states; `Inactive` is the default |
| `Monitor.InterfaceState` | src/main.rs:19-24 | a decoded report: name, interface type and state, all strings |
| `Monitor.App` | src/main.rs:38-43 | the table: one sequence of states per category |
| `Monitor.New` | src/main.rs:46-52 | all three sequences of a new table are empty |
| `Monitor.StateOf` | src/main.rs:55-59 | a report's state is `Active` exactly when its string is `"Active"`; any other string, case variants included, gives `Inactive` |
| `Monitor.CategoryOf` | src/main.rs:63-76 | `"server"`, `"publisher"` and `"subscriber"` select their category and nothing else selects one |
| `Monitor.Ordinal` | src/main.rs:82-86 | the ordinal read from a name, when there is one, is at most `usize::MAX` |
| `Monitor.OrdinalOfLastToken` | src/main.rs:82-86 | the ordinal is the `usize` parse of the last whitespace-separated token; a name with no tokens has none |
| `Monitor.Resize` | src/main.rs:89 | `Vec::resize(n, fill)`: length `n`, old slots below `n` kept, new slots are `fill` |
| `Monitor.SpecificUpdate` | src/main.rs:81-95 | the result is never shorter than the input; for an ordinal `pos > 0` it is `max(old length, pos)` long and slot `pos-1` holds the new state |
| `Monitor.SpecificUpdateSlots` | src/main.rs:81-95 | no ordinal or ordinal 0 leaves the sequence unchanged; for `pos > 0`, the length is `max(old length, pos)`, slot `pos-1` holds the new state, slots between the old length and `pos-1` are `Inactive`, every other old slot is kept |
| `Monitor.UpdateSpecificState` | src/main.rs:81-95 | resizing only when the ordinal lies beyond the end and then assigning slot `pos-1` computes exactly `SpecificUpdate` |
| `Monitor.UpdateState` | src/main.rs:54-79 | an `interface_type` other than the three names returns the table unchanged (the `_` arm); the other arms are stated by `UpdateStateFrame` |
| `Monitor.UpdateStateFrame` | src/main.rs:54-79 | an unknown `interface_type` leaves the table unchanged; a known one updates its own sequence and leaves the other two identical |
| `Monitor.SpecificUpdateIdempotent` | src/main.rs:81-95 | updating a sequence twice with the same name and state equals updating it once |
| `Monitor.UpdateStateIdempotent` | src/main.rs:54-95 | applying the same report twice gives the same table as applying it once |
| `Monitor.UpdatesOfOtherCategoriesCommute` | src/main.rs:62-78 | reports whose `interface_type` select different categories (or none) can be applied in either order |
| `Monitor.UpdateStateGrowsOnly` | src/main.rs:81-95 | no report shortens a sequence, and an old slot changes only when the report names that category and that slot's ordinal |
| `SplitWhitespace.Tokens` | src/main.rs:83 | every token `split_whitespace` yields is non-empty and holds no whitespace |
| `SplitWhitespace.TokensSplit` | src/main.rs:83 | the tokens sit in the name at spans that come in increasing order with at least one character between neighbours; each token is the slice of its span, and every character outside the spans is whitespace |
| `SplitWhitespace.LastToken` | src/main.rs:83-84 | when there is a last token, it is a slice `name[b..e]` of non-whitespace characters, preceded by whitespace or the start, and followed only by whitespace up to the end |
| `SplitWhitespace.LastTokenIsLastOfTokens` | src/main.rs:83-84 | scanning from the end finds the last of the tokens found from the front, and nothing when there are none |
| `SplitWhitespace.TokensEmptyIff` | src/main.rs:83-84 | a name has no tokens exactly when it is all whitespace |
| `SplitWhitespace.LastTokenShape` | src/main.rs:83-84 | the last token is a token, and it is missing exactly when the name is all whitespace |
| `ParseUsize.Accumulate` | src/main.rs:85 | a successful digit loop returns a value between its start value and `usize::MAX` |
| `ParseUsize.Parse` | src/main.rs:85 | a parsed value is at most `usize::MAX`; the empty string, a lone `+` and anything starting with `-` fail |
| `ParseUsize.AccumulateIsBoundedValue` | src/main.rs:85 | checking overflow at every digit fails exactly when the whole value exceeds `usize::MAX`, and otherwise returns that value |
| `ParseUsize.AccumulateRejectsNonDigit` | src/main.rs:85 | a non-digit character anywhere makes the digit loop fail |
| `ParseUsize.ParseIff` | src/main.rs:85 | a token parses to `n` exactly when it is a non-empty run of decimal digits, after at most one `+`, whose value is `n` and `n <= usize::MAX` |
| `ParseUsize.ParseDecimalString` | src/main.rs:85 | parsing the decimal spelling of `n` returns `n` exactly when `n <= usize::MAX` |
| `ParseUsize.ParsePlusDecimalString` | src/main.rs:85 | a leading `+` is accepted and changes nothing |
| `ParseUsize.ParseRejectsNonDigit` | src/main.rs:85 | a non-digit after the first character makes the parse fail, whatever the sign, so "3a" or "+1x" give no ordinal |
| `ParseUsize.ParseLeadingZero` | src/main.rs:85 | a leading zero does not change the parse |
| `Ingest.Ingest` | src/main.rs:157-159 | a payload that failed to decode leaves the table unchanged |
| `Ingest.IngestAll` | src/main.rs:153-161 | the table after a stream of decoded messages, applied one by one in arrival order; its meaning is stated by `IngestAllLength`, `IngestAllSlot` and `IngestFromNew` |
| `Ingest.SubscriberCallback` | src/main.rs:153-161 | the loop that decodes each payload and replaces the table by the updated one ends with the fold of the decoded messages, in arrival order |
| `Ingest.IngestLength` | src/main.rs:88-89 | one message makes a sequence as long as the ordinal it sets for that category, if that is longer |
| `Ingest.IngestSlot` | src/main.rs:87-91 | one message writes only the slot of the ordinal it sets; other old slots keep their state and new ones are `Inactive` |
| `Ingest.IngestAllLength` | src/main.rs:153-161 | after a stream, each sequence is as long as it was or as the largest ordinal reported for it |
| `Ingest.IngestAllSlot` | src/main.rs:153-161 | after a stream, each slot holds the state of the last report for it; an unreported slot keeps its old state, or is `Inactive` if new |
| `Ingest.IngestFromNew` | src/main.rs:153-161 | from `App::new()`, each category's length is the largest positive valid ordinal reported for it (0 if none), and each slot is its last reported state or `Inactive` |
| `Ingest.IngestAllSkipsFailures` | src/main.rs:157-158 | a message that failed to decode can be removed from anywhere in the stream without changing the resulting table |
| `Ingest.IgnoredReports` | src/main.rs:62-94 | a report with an unknown category, no parsable ordinal or ordinal 0 changes nothing |
| `Scenarios.ServerScenario` | src/main.rs:54-95 | "server 3" Active on an empty table gives `[Inactive, Inactive, Active]`; "server 2" Active then gives `[Inactive, Active, Active]` |
| `Scenarios.NonNumericScenario` | src/main.rs:82-86 | "publisher abc" leaves the empty table empty |
| `Scenarios.CaseVariantScenario` | src/main.rs:55-59 | a state `"active"` is stored as `Inactive` |

## Left out

- Process and task setup, the r2r context and node, and the `spin_once` thread (`src/main.rs:99-128`): runtime plumbing.
- The ROS 2 subscription, the asynchronous stream and the logging of a `None` item (`src/main.rs:130-167`): transport I/O. The loop is modelled over a finite sequence of payloads that have arrived.
- The `Arc<Mutex<App>>` locking and the clone-then-replace pattern (`src/main.rs:104`, `156`, `159`, `178`): concurrency. The update is a sequential step on a value, and a snapshot is a copy of that value.
- `serde_json::from_str` (`src/main.rs:157`): a foreign library call. It is the abstract `decode` parameter, returning `None` on failure.
- Terminal setup, drawing, key polling and terminal restoration (`src/main.rs:169-253`): UI and terminal I/O. A row's label there is the column title, a space and `i + 1`.
- `src/publisher.rs`: a test traffic generator built on random numbers, a timer and network publishing.
- `Monitor.UpdateSpecificState`: does not model the failure of `Vec::resize` on a huge ordinal (`src/main.rs:89`). `parse::<usize>` accepts any ordinal up to `usize::MAX`. For one above `isize::MAX`, such as `"server 18446744073709551615"`, `resize` panics with a capacity overflow, which ends the subscriber task spawned at `src/main.rs:140`. For a smaller but still huge one, the allocation fails and the process aborts. Either way the source applies no later report, while the model grows the sequence and `IngestAll`, `IngestAllSlot` and `IngestFromNew` go on folding the rest of the stream.
- `ParseUsize.Parse`: fixes `usize` at 64 bits. On a 32-bit target the bound would be `2^32 - 1`.
- The `derive(Default)` for `App` and `impl Default for State` are not used by the core and are not modelled separately. `Inactive` is written out where the source writes `State::Inactive`.
