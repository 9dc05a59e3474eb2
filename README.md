# systemd-journal, modelled in Dafny

A model of the core of the Ruby gem `systemd-journal`, which binds
libsystemd's journal and id128 libraries. The model covers these parts of
the gem:

- **Moving the read pointer** (`Systemd::Journal::Navigable`,
  `Systemd::Journal::Navigation` and the moves in `Systemd::Journal`).
  - Moves are `move`, `move_next`, `move_previous` and the skip variants.
  - Seeking goes to head, tail, a time or a cursor.
  - `cursor` and `cursor?` read and test the position.
  - A periodic **auto-reopen** runs inside navigation. After `auto_reopen` counted moves, the journal:
    1. captures its cursor;
    2. closes;
    3. reopens with its original options;
    4. reapplies its filter;
    5. seeks back;
    6. resynchronises with a zero-length skip.
- **Filter terms**: `add_match`, `add_disjunction`, `add_conjunction`,
  `clear_matches`.
- **Reading entries**:
  - `read_field`;
  - `current_entry`, which drains the field enumeration into a hash;
  - `query_unique`, which drains the unique-value enumeration into a list;
  - `read_size_t`, which reads a length of the platform's size_t width.
- **`Systemd::JournalEntry`**:
  - per-field accessor methods that never shadow an existing method;
  - `[]` with its upper-case fallback;
  - `each`.
- **`Systemd::Id128`**: the 32-digit hex rendering of a 128-bit identifier,
  the remembered machine and boot ids, and the uncached random id.
- **`Systemd::Journal::Compat`**: the syslog levels, `print`, and `message`.
  `message` builds a NULL-terminated vararg list.

The C libraries are not modelled. A library is a class whose answers come
from a function supplied at construction (module `Native`):

- `reply(k, q)` is the return code of the k-th request `q`.
- `cursorAt`, `entryAt` and `uniqueValues` give the cursor tokens, field
  buffers and unique values the library hands out.

Every request is appended, with its answer, to a `trace`. So every contract
holds for every library that behaves as `Native` describes (the assumptions
are listed under "## Left out"), and contracts can state the exact sequence
of calls an operation makes. Ruby exceptions, `nil` and normal returns are the
datatype `Outcomes.Outcome`.

Two places where the gem's own test files and its code disagree follow the
code:

- `current_entry` returns a plain hash, not a `JournalEntry`.
- `JournalEntry` has no `method_missing`. An unknown name is therefore
  `Missing`, i.e. `NoMethodError`; there is no catalog support.

## Model

| member | source | states |
|---|---|---|
| Movement.RealtimeUsec | lib/systemd/journal/navigable.rb:113-117 | the timestamp passed to a realtime seek is a whole number of seconds in microseconds, at most the time and less than one second before it |
| Movement.Flag | lib/systemd/journal/navigable.rb:47-49 | a move raises JournalError with its code exactly when the code is negative, else returns whether the pointer moved (code > 0); never nil |
| Movement.Count | lib/systemd/journal/navigable.rb:59-61 | a skip raises JournalError with its code exactly when the code is negative, else returns the number of entries moved |
| Movement.Route | lib/systemd/journal/navigable.rb:37-39 | `move(offset)` is a forward skip exactly when offset > 0, always by a non-negative amount, and the signed displacement equals the offset |
| Movement.SeekRequest | lib/systemd/journal/navigable.rb:108-122 | `:head`/`:start` seek the head, `:tail`/`:end` the tail, a Time the realtime position, a String the cursor; every other argument selects no call |
| Movement.SeekResult | lib/systemd/journal/navigable.rb:124-126 | a seek raises JournalError with its code exactly when the code is negative, else returns true |
| Movement.MisspeltSeekResult | lib/systemd/journal/navigation.rb:81-83 | as written, every failing seek raises NoMethodError for `JournalErrornew`; a successful one returns true |
| Movement.MisspeltSeekLosesCode | lib/systemd/journal/navigation.rb:81 | for every negative code the as-written result differs from the intended one and carries no JournalError |
| Navigation.Move | lib/systemd/journal/navigation.rb:9-11 | makes exactly the one skip request `Route(offset)` and returns its count or raises its code |
| Navigation.MoveNext | lib/systemd/journal/navigation.rb:17-21 | makes exactly one `sd_journal_next` request; the result is `Flag` of its code |
| Navigation.MoveNextSkip | lib/systemd/journal/navigation.rb:27-31 | makes exactly one forward skip request; the result is `Count` of its code |
| Navigation.MovePrevious | lib/systemd/journal/navigation.rb:37-41 | makes exactly one `sd_journal_previous` request; the result is `Flag` of its code |
| Navigation.MovePreviousSkip | lib/systemd/journal/navigation.rb:47-51 | makes exactly one backward skip request; the result is `Count` of its code |
| Navigation.Seek | lib/systemd/journal/navigation.rb:64-84 | an unknown target raises ArgumentError with no request made; otherwise one seek request, whose failure raises NoMethodError (the misspelt constructor) |
| Navigable.RestoringStops | lib/systemd/journal/navigable.rb:150-159 | a restore always closes and reopens, stops at the first failing step and reports that step's negative code, and completes exactly when no step after the close failed |
| Navigable.ReopeningStops | lib/systemd/journal/navigable.rb:140-161 | a reopen is abandoned exactly when capturing the cursor fails, then making no other request; otherwise it fails at the first failing restore step or makes all six requests |
| Navigable.MoveRunsFirst | lib/systemd/journal/navigable.rb:135 | the move is the first request; when it fails the call raises its code, requests nothing else and leaves the count alone |
| Navigable.CountOnlyWithAutoReopen | lib/systemd/journal/navigable.rb:137 | without `auto_reopen` the count never changes and only the move is requested |
| Navigable.CountStaysBelowThreshold | lib/systemd/journal/navigable.rb:137-161 | after any call that does not raise, the count is zero or one higher and still below the threshold, so a count in [0, threshold) stays in it |
| Navigable.ReopenOrder | lib/systemd/journal/navigable.rb:137-161 | anything after the move is a prefix of capture, close, open, filter, seek, zero skip, cut at the first failure; it happens exactly when the move succeeded and the incremented count reached the threshold |
| Navigable.CompleteReopen | lib/systemd/journal/navigable.rb:148-165 | a completed reopen makes all six requests, seeks to the cursor it captured, reopens with the original options and matches, resets the count and returns the move's own result |
| Navigable.AbandonedReopen | lib/systemd/journal/navigable.rb:140-146 | the call returns nil exactly when the cursor capture failed; then nothing is closed and the count is reset |
| Navigable.FailedReopen | lib/systemd/journal/navigable.rb:150-159 | a failure after the capture raises JournalError with the failing step's code and leaves the count at or above the threshold |
| Navigable.AsFlag | lib/systemd/journal/navigable.rb:45-51 | `move_next`'s value is `rc > 0` for a returned code, and nil or the same exception otherwise |
| Navigable.Journal.constructor | lib/systemd/journal/navigable.rb:133 | a journal starts with call count zero and remembers its reopen options and matches |
| Navigable.Journal.Cursor | lib/systemd/journal/navigable.rb:10-17 | one `sd_journal_get_cursor` request; raises its negative code, else returns the token the library wrote |
| Navigable.Journal.CursorMatches | lib/systemd/journal/navigable.rb:24-30 | one `sd_journal_test_cursor` request; raises its negative code, else returns whether it was positive |
| Navigable.Journal.Move | lib/systemd/journal/navigable.rb:37-39 | result, count and requests are those of the counted protocol for the skip `Route(offset)` |
| Navigable.Journal.MoveNext | lib/systemd/journal/navigable.rb:45-51 | result, count and requests are those of the counted protocol for `sd_journal_next`, its value turned into `rc > 0` |
| Navigable.Journal.MoveNextSkip | lib/systemd/journal/navigable.rb:57-63 | result, count and requests are those of the counted protocol for a forward skip |
| Navigable.Journal.MovePrevious | lib/systemd/journal/navigable.rb:69-75 | result, count and requests are those of the counted protocol for `sd_journal_previous`, its value turned into `rc > 0` |
| Navigable.Journal.MovePreviousSkip | lib/systemd/journal/navigable.rb:81-87 | result, count and requests are those of the counted protocol for a backward skip |
| Navigable.Journal.Seek | lib/systemd/journal/navigable.rb:108-127 | an unknown target raises ArgumentError with no request; otherwise one seek request, `SeekResult` of its code; seeking is not counted |
| Navigable.Journal.WithAutoReopen | lib/systemd/journal/navigable.rb:132-166 | leaves exactly the result, call count and request trace that the protocol function `AutoReopen` prescribes, so every protocol lemma above holds of the method |
| Navigable.Journal.CountAndReopen | lib/systemd/journal/navigable.rb:137-163 | after a successful move, the count, reopen outcome and requests are those `AfterMove` prescribes |
| Navigable.Journal.Reopen | lib/systemd/journal/navigable.rb:140-161 | capture, then restore; the end, count and requests are those `ReopenRun` prescribes |
| Navigable.Journal.Restore | lib/systemd/journal/navigable.rb:148-159 | close, reopen, filter, seek, zero skip, stopping at the first failure; the failure and the requests made are those `Restoring` prescribes |
| Journal.ReadSizeT | lib/systemd/journal.rb:299-308 | an 8- or 4-byte size_t is read as an unsigned number below 256^width; any other width raises StandardError |
| Journal.DecodeEncode | lib/systemd/journal.rb:299-308 | reading back a little-endian number that fits its width gives that number |
| Journal.SizeRoundTrip | lib/systemd/journal.rb:135 | any buffer length below 2^32 stored in a size_t of either supported width reads back unchanged |
| Journal.MatchTerm | lib/systemd/journal.rb:232 | the term is the upper-cased field, an `=`, then the value, and its length is the sum of theirs |
| Journal.MatchTermSplits | lib/systemd/journal.rb:232 | a term built from a field without `=` splits back into the upper-cased field and the value |
| Journal.AddMatch | lib/systemd/journal.rb:231-235 | one `sd_journal_add_match` request with the term and its length; raises a negative code, else returns nil |
| Journal.AddDisjunction | lib/systemd/journal.rb:251-254 | one request; raises a negative code, else returns nil |
| Journal.AddConjunction | lib/systemd/journal.rb:269-272 | one request; raises a negative code, else returns nil |
| Journal.ClearMatches | lib/systemd/journal.rb:276-278 | exactly one `sd_journal_flush_matches` request and nothing else |
| Journal.FieldSplit | lib/systemd/journal.rb:160 | an empty buffer gives a nil key; the key is the text before the first `=` (or the whole buffer); the value is the rest after it, or nil without `=` |
| Journal.EntryOfLookup | lib/systemd/journal.rb:156-161 | in the decoded hash every key maps to the value of the last buffer with that key, and a key no buffer has is absent |
| Journal.EntryOfKeys | lib/systemd/journal.rb:156-161 | the decoded hash has each key once, in order of first appearance |
| Journal.FieldOfJoin | lib/systemd/journal.rb:160 | a `NAME=value` buffer with no `=` in NAME decodes to NAME and value, whatever `=` the value holds |
| Journal.DecodeTwoFields | lib/systemd/journal.rb:156-168 | two buffers with distinct names decode to exactly those two pairs, in order |
| Journal.DecodeExample | lib/systemd/journal.rb:156-168 | the buffers `_PID=100` and `MESSAGE=hello world` decode to `_PID => 100`, `MESSAGE => hello world` |
| Journal.ReadField | lib/systemd/journal.rb:127-137 | exactly one `sd_journal_get_data` request; raises a negative code (-2 for a missing field) or StandardError for an unsupported size_t width; else returns the text after `FIELD=` |
| Journal.ReadBuffer | lib/systemd/journal.rb:135-136 | the string read with the size_t length is exactly the buffer the library handed out, when the width is supported |
| Journal.CurrentEntry | lib/systemd/journal.rb:151-169 | restart, then n successful enumeration steps and a final one; the result is the decoded hash of all fields exactly when that step returned 0, else the step's error |
| Journal.CollectData | lib/systemd/journal.rb:158-168 | the loop of `current_entry`, proved with its invariant: the hash built so far stores the fields read so far |
| Journal.QueryUnique | lib/systemd/journal.rb:182-204 | restart and a query for the upper-cased field; a failed query raises with no enumeration; else the values after `=` of every unique buffer in order, or the failing step's error |
| Journal.CollectValues | lib/systemd/journal.rb:194-203 | the loop of `query_unique`: one value per buffer read, each the text after its first `=` |
| Journal.CaseMoveResult | lib/systemd/journal.rb:52-56 | as written, only codes 0 and 1 give a value (false, true); never raises, so every other code gives nil |
| Journal.NegativeMoveReturnsNil | lib/systemd/journal.rb:55 | for every negative code the as-written move returns nil where the intended one raises JournalError |
| Journal.MoveNext | lib/systemd/journal.rb:51-57 | one `sd_journal_next` request; the result is the as-written `CaseMoveResult` of its code |
| Journal.MovePrevious | lib/systemd/journal.rb:73-79 | one `sd_journal_previous` request; the result is the as-written `CaseMoveResult` of its code |
| Journal.MoveNextSkip | lib/systemd/journal.rb:63-67 | one forward skip request; the result is `Count` of its code |
| Journal.MovePreviousSkip | lib/systemd/journal.rb:85-89 | one backward skip request; the result is `Count` of its code |
| Journal.CaseSeekRequest | lib/systemd/journal.rb:101-111 | as written, only the four symbols select a call; `false` raises NoMethodError for `to_i`, and everything else, a Time included, raises ArgumentError |
| Journal.TimeSeekRefused | lib/systemd/journal.rb:106 | for every Time the as-written seek refuses it, where the intended dispatch seeks to its realtime position |
| Journal.Seek | lib/systemd/journal.rb:100-116 | requests nothing when the dispatch raises; else one seek request, whose failure raises NoMethodError |
| Entries.FieldNames | lib/systemd/journal_entry.rb:15-19 | one name per field, in the hash's order, each the lower-cased key |
| Entries.AccessorNames | lib/systemd/journal_entry.rb:15-19 | a name gets an accessor exactly when it is a field name and not a method the object already has |
| Entries.FirstBindingWins | lib/systemd/journal_entry.rb:17 | when several keys lower-case to one name, the accessor returns the first such field's value |
| Entries.SampleBindings | lib/systemd/journal_entry.rb:13-21 | for `_PID`, `_EXE`, `PRIORITY`, `OBJECT_ID`, the fields are `_pid _exe priority object_id` and only the first three get accessors |
| Entries.JournalEntry.constructor | lib/systemd/journal_entry.rb:13-21 | the loop leaves the fields and accessors the specification functions `FieldNames` and `Bindings` give, proved with its invariant |
| Entries.JournalEntry.Send | lib/systemd/journal_entry.rb:17 | an existing method always wins; a field name answers the first matching field's value; any other name is missing |
| Entries.JournalEntry.Lookup | lib/systemd/journal_entry.rb:24-26 | a String key holding a value wins; otherwise the value under the upper-cased key; nil only when neither holds a value |
| Entries.JournalEntry.Each | lib/systemd/journal_entry.rb:28-31 | yields every `[key, value]` pair of the record, in the record's order |
| Entries.JournalEntry.EachAgrees | lib/systemd/journal_entry.rb:24-31 | each yielded pair with a value is what `[]` returns for its key, and its name is the field listed at that position |
| Entries.JournalEntry.SampleDispatch | lib/systemd/journal_entry.rb:13-26 | on the sample entry `_pid` and `priority` answer their fields, `object_id` keeps its own method, an unknown name is missing, and `OBJECT_ID` is found by name and from `:object_id` |
| Id128.DigitValue | lib/systemd/id128.rb:59 | a character is read as a digit exactly when it is a lower-case hex digit, and then it renders back as itself |
| Id128.ToS | lib/systemd/id128.rb:58-60 | an identifier renders as 32 characters |
| Id128.HexFields | lib/systemd/id128.rb:59 | byte i renders as the two `%02x` digits at position 2i |
| Id128.ParseHexOfHex | lib/systemd/id128.rb:59 | parsing the rendering gives the bytes back |
| Id128.ToSInjective | lib/systemd/id128.rb:58-60 | two identifiers render alike exactly when they are equal |
| Id128.ToSExample | lib/systemd/id128.rb:58-60 | the bytes a1 0c repeated eight times render as `a10c` eight times |
| Id128.Fetched | lib/systemd/id128.rb:42-44 | a call raises JournalError with its code exactly when the code is negative, else returns the rendered identifier |
| Id128.Ids.Fetch | lib/systemd/id128.rb:41-44 | one library call; the result is `Fetched` of its code and identifier |
| Id128.Ids.MachineId | lib/systemd/id128.rb:13-20 | a remembered id is returned with no call; otherwise one call, remembered only if it succeeded |
| Id128.Ids.BootId | lib/systemd/id128.rb:29-36 | a remembered id is returned with no call; otherwise one call, remembered only if it succeeded |
| Id128.Ids.Random | lib/systemd/id128.rb:40-45 | exactly one call every time, nothing remembered |
| Compat.Levels | lib/systemd/journal/compat.rb:11-25 | eight levels, strictly ascending from LOG_EMERG = 0 to LOG_DEBUG = 7 |
| Compat.FieldItemsAt | lib/systemd/journal/compat.rb:48-50 | field i becomes the item pair at 2i: the `:string` tag, then `KEY=value` with the key upper-cased |
| Compat.MessageItems | lib/systemd/journal/compat.rb:48-52 | 2n+2 items alternating tag and text, each text the i-th field, ending in a single `nil` terminator with no earlier `nil` |
| Compat.MessageFieldsReadBack | lib/systemd/journal/compat.rb:49 | the journal decodes each written field item back to the upper-cased key and the exact value |
| Compat.Print | lib/systemd/journal/compat.rb:40-43 | raises JournalError with the code exactly when `sd_journal_print` answers negative, else returns nil |
| Compat.Message | lib/systemd/journal/compat.rb:47-55 | raises JournalError with the code exactly when `sd_journal_send` of the built items answers negative, else returns nil |
| Text.Upcase | lib/systemd/journal.rb:184 | same length, every character upper-cased one for one |
| Text.Downcase | lib/systemd/journal_entry.rb:16 | same length, every character lower-cased one for one |
| Text.SplitOnceParts | lib/systemd/journal.rb:160 | `split('=', 2)` gives nothing for "", the whole string when it has no `=`, else two parts that join back with `=` and whose first has no `=` |
| Text.SplitJoin | lib/systemd/journal.rb:160 | splitting `name=value` with no `=` in name gives exactly name and value |
| Text.AfterFirstEqualsParts | lib/systemd/journal.rb:136 | `split('=', 2).last` is nil only for "", the text after the first `=`, or the whole string without `=` |
| OrderedMaps.Get | lib/systemd/journal_entry.rb:25 | a hash lookup finds a key exactly when it is present, and then a value stored under it |
| OrderedMaps.PutLaws | lib/systemd/journal.rb:161 | `h[k] = v` makes k map to v, leaves every other key alone, and appends k to the key order only when new |

## Left out

- Opening and closing: `initialize` (`sd_journal_open`, `sd_journal_open_directory`), the finalizer and `close`.
  - Inside the reopen they appear as the abstract requests Close, Open and Filter.
  - `filter` and the `@reopen_*` bookkeeping outside the reopen are not part of this model.
- Other journal operations: `wait`, `disk_usage` and the data-threshold accessors. They are blocking or single foreign calls with no logic beyond the checks already modelled.
- The blocks yielded by `current_entry` and `query_unique`, and `each` called without a block (the Enumerator): there is no caller code to model.
- The C libraries, and FFI memory handling in general: pointers and `read_and_free_outstr` are modelled only as the values the library hands back.
- `Upcase` and `Downcase`: ASCII letters only; Ruby's full Unicode case mapping is not modelled.
- Entries.JournalEntry: keys are strings; a `nil` key (from an empty buffer) is not modelled in `JournalEntry`.
- Entries.JournalEntry.Send: which methods an object already has is a parameter (`builtins`); what those methods do is not modelled.
- Journal.ReadField: for a field name containing `=` only the error cases are stated, not the value returned.
- Id128.ToS: the `dwords` and `qwords` views of the union are not modelled; only the bytes are rendered.
- Catalog lookup and `@FIELD@` substitution: the modelled source has no such code.
- Native.Backend.EnumerateData: assumed to answer 1 while buffers remain and 0 once they run out. A library that ends early or answers above 1 is not covered. The same holds for `EnumerateUnique`.
- Native.Backend.GetData: assumed to answer -2 (ENOENT) whenever the entry lacks the field, and to hand out the first buffer of that field otherwise.
- Native.Buffer: every buffer the library hands out is assumed shorter than 2^32 bytes, so its length fits a size_t of either width.
- Native.EncodeLE: the size_t the library writes is assumed little-endian; big-endian platforms are not modelled.

## Findings

| source | as written | input that shows it | evidently intended | confidence | as-written member | corrected member |
|---|---|---|---|---|---|---|
| lib/systemd/journal.rb:52-56 | `when rc < 0` compares rc with a boolean and never matches, so a failing move returns nil | `sd_journal_next` answers -5 | raise JournalError(-5) | not executed | Journal.CaseMoveResult, Journal.NegativeMoveReturnsNil | Movement.Flag |
| lib/systemd/journal.rb:106 | `when whence.is_a?(Time)` compares whence with a boolean, so a Time raises ArgumentError (and `false` reaches `to_i`) | `seek(Time.at(0))` | seek to realtime 0 | not executed | Journal.CaseSeekRequest, Journal.TimeSeekRefused | Movement.SeekRequest |
| lib/systemd/journal/navigation.rb:81 | `JournalErrornew(rc)` is an undefined method, so a failing seek raises NoMethodError and loses the code (also lib/systemd/journal.rb:113) | `seek(:head)` when the library answers -22 | raise JournalError(-22) | not executed | Movement.MisspeltSeekResult, Movement.MisspeltSeekLosesCode | Movement.SeekResult |
