# Serial PPG importer: the line protocol

`import_serial.py` records a PPG (photoplethysmography) measurement from an
Arduino. The Arduino talks a small line protocol over a serial port. The
script runs in two phases and fills a module-level list `data` with rows,
which it then writes as a CSV file.

1. **Handshake.** The script reads lines until one says `Ready.`.
   - Blank lines and `CLEARDATA` lines are skipped.
   - The first `LABEL,` line is saved as the header row, and the flag
     `header_saved` is set.
   - Any other line that contains `Ready.` ends the phase. That includes a
     `DATA,` line and a second `LABEL,` line.
2. **Collection.** The script reads lines for `DURATION` (65) seconds. The
   clock is checked before every read.
   - A `LABEL,` line is saved as the header only if no header was saved yet.
     Otherwise it is skipped.
   - Every `DATA,` line becomes a row, in arrival order.
   - Everything else is ignored.
   - Ctrl+C (`KeyboardInterrupt`) ends the phase early and keeps the rows
     gathered so far.

A row is `line.split(',')[1:]`: the comma-separated fields after the tag,
taken from the line after `strip()`.

The model has three modules.

- `Text` (`text.dfy`) defines the string operations as functions:
  - Python's `str.strip()`, using the exact `str.isspace()` character set;
  - `startswith`;
  - the `in` substring test;
  - `split(',')` and `','.join`.
- `Protocol` (`protocol.dfy`) describes what the loops compute, as
  specification functions:
  - `HandshakeStep`/`HandshakeRun` for the handshake loop and
    `CollectStep`/`CollectAll` for the collecting loop;
  - closed forms: `AfterHandshake`, `Arrivals` and `SessionTable`;
  - the stopping rule `StopsAt` for the deadline and the interrupt;
  - lemmas stating the protocol's properties.
- `Importer` (`session.dfy`) is the imperative script. Class `Session`
  holds `data` and `header_saved` as fields.
  - Its methods `Handshake` and `Collect` are the two `while` loops. Each is
    proved against the `Protocol` functions.
  - `Capture` runs the whole script on a stream of lines, a list of clock
    readings, and an optional interrupt point.

Two things from the environment are inputs to the model.

- **The serial port** is replaced by the sequence of lines it yields,
  already decoded.
- **The clock** is replaced by the readings `time.time()` returns at each
  check of the collecting loop.
  - `start` is the reading taken at line 56.
  - `clock[i]` is the reading taken before the `i`-th read.
  - `interruptAt == Some(k)` means Ctrl+C arrives while the loop waits for
    line `k`.

The specification and the code differ in three places. The model follows
the code each time:

- **Where the header goes.** The specification calls row 0 the header. The
  code appends a header that only arrives during collection after any rows
  already stored. `Arrivals` and `SessionTableShape` put it at its arrival
  position.
- **Which lines end the handshake.** The specification classifies every
  `LABEL,` line as a header. In the code, a `LABEL,` line that arrives after
  the header was saved falls through to the `Ready.` test
  (`import_serial.py:40`), so it ends the handshake if it contains `Ready.`.
  A `DATA,` line that contains `Ready.` ends it too. See `EndsHandshake`.
- **What happens without `Ready.`.** If the handshake never sees a `Ready.`
  line, the code waits for ever. The model reports `readyAt == None`, and
  `Capture` returns no table.

## Model

| member | source | states |
|---|---|---|
| Text.Strip | import_serial.py:28 | The stripped line is empty iff the line is all `str.isspace()` characters; otherwise it neither starts nor ends with one. |
| Text.StripPadded | import_serial.py:28 | Whitespace padding on both sides of a core that has no whitespace at either end strips back to exactly that core. |
| Text.ContainsIff | import_serial.py:48 | `Contains(s, p)` (the `in` test) holds iff `p` occurs at some position of `s`. |
| Text.SplitPiecesFree | import_serial.py:41 | No piece of `split(',')` contains a comma. |
| Text.JoinSplit | import_serial.py:75 | `','.join(s.split(','))` gives `s` back. |
| Text.SplitJoin | import_serial.py:67 | Splitting a join of one or more comma-free fields gives the fields back. |
| Protocol.TagsExclusive | import_serial.py:65-76 | No line starts with both `LABEL,` and `DATA,`, or with both `LABEL,` and `CLEARDATA`, so the order of the prefix tests does not matter. |
| Protocol.TaggedFields | import_serial.py:67 | For a line that starts with a tag ending in its only comma, `split(',')[1:]` is the split of the rest of the line. It has at least one field, and joined back it is the rest of the line. |
| Protocol.DataRowRoundTrip | import_serial.py:75 | A `DATA,` row has at least one field, and joined back with `,` it equals the line without its first 5 characters. |
| Protocol.HeaderRoundTrip | import_serial.py:41 | A `LABEL,` header has at least one field, and joined back with `,` it equals the line without its first 6 characters. |
| Protocol.BareTagRow | import_serial.py:75 | A bare `DATA,` or `LABEL,` line gives the row `[""]`. |
| Protocol.FirstLabel | import_serial.py:40 | The index it returns points at a `LABEL,` line. |
| Protocol.FirstLabelIsFirst | import_serial.py:40 | No line before the returned index is a `LABEL,` line; `None` means no line is one. So the header captured is always the first `LABEL,` line. |
| Protocol.HandshakeRun | import_serial.py:27-50 | The line the handshake breaks at is one of the lines read. |
| Protocol.HandshakeExit | import_serial.py:27-50 | The handshake breaks at a line that is non-empty, is not `CLEARDATA`, is not a `LABEL,` line arriving while no header is saved, and contains `Ready.`. No earlier line meets all of these. When it does not break, no line meets them. |
| Protocol.BreaksFirstAtUnique | import_serial.py:48-50 | The break position is determined by the lines. |
| Protocol.HandshakeHeader | import_serial.py:40-45 | The handshake's only possible append is the header. It happens iff no header was saved and a `LABEL,` line came before the break. The header is the first such line's fields, and the flag is set exactly then. |
| Protocol.FreshHandshake | import_serial.py:20-45 | Starting from the empty table, the handshake leaves at most one row: the first header, if there was one. |
| Protocol.HeaderOfSkip | import_serial.py:40-45 | Inserting a line that is not a `LABEL,` line anywhere among the lines does not change which header they carry. |
| Protocol.HandshakeDataIgnored | import_serial.py:27-50 | A `DATA,` line (or any other line that is not `LABEL,`), wherever it stands among the lines seen before `Ready.`, contributes no row to the final table. |
| Protocol.CollectIgnores | import_serial.py:61-81 | A blank line, or one that starts with neither `LABEL,` nor `DATA,`, leaves `data` and `header_saved` unchanged. |
| Protocol.CollectAllConcat | import_serial.py:59-81 | Collecting `a` and then `b` is collecting `a + b`. |
| Protocol.CollectGrows | import_serial.py:59-77 | The collecting loop only appends to `data` and never clears `header_saved`. |
| Protocol.CollectRows | import_serial.py:59-77 | After collection, `data` is its entry value plus the `DATA,` rows in input order. If no header was saved on entry, the first `LABEL,` line's fields are inserted at that line's arrival position. `header_saved` is then true iff it was before or a `LABEL,` line came. |
| Protocol.CollectCount | import_serial.py:65-77 | Collection adds one row per `DATA,` line, plus one if it captures the header. Field counts are never compared with the header's. |
| Protocol.InterruptKeepsPrefix | import_serial.py:83-84 | A loop stopped after any prefix keeps exactly that prefix's result. This is a prefix of what the full run produces. |
| Protocol.CollectSilentTail | import_serial.py:60-62 | Reads that time out (blank lines) appended to the input change nothing. |
| Protocol.StopIsUnique | import_serial.py:59 | At most one stopping point meets the deadline-and-interrupt rule. |
| Protocol.FreshSessionTable | import_serial.py:20-77 | From the empty table, the handshake followed by collection leaves exactly `SessionTable(seen, collected)`. |
| Protocol.SessionTableShape | import_serial.py:40-77 | The final table has at most one header. If the handshake saw a `LABEL,` line, the header is that line's fields and comes first. Otherwise it is the first `LABEL,` line of collection, placed at its arrival position. Every other row is a `DATA,` row from collection, in arrival order. |
| Importer.Session.constructor | import_serial.py:20-21 | A session starts with an empty `data` and `header_saved` false. |
| Importer.Session.HandshakeLine | import_serial.py:28-50 | One pass of the handshake body. It reports `ready` iff the stripped line ends the handshake. Otherwise the state becomes `HandshakeStep` of the stripped line. |
| Importer.Session.Handshake | import_serial.py:27-50 | The loop breaks at the first line that ends the handshake (`BreaksFirstAt`). `data` and `header_saved` become `AfterHandshake` of the lines it consumed. |
| Importer.Session.CollectLine | import_serial.py:60-81 | One pass of the collecting body: the state becomes `CollectStep` of the stripped line. |
| Importer.Session.Collect | import_serial.py:56-84 | The loop stops where `StopsAt` says: every earlier clock check was below the deadline, and it stops at the first failing check, the first interrupt, or the end of the lines. The state is `CollectAll` of exactly the lines it processed. |
| Importer.Capture | import_serial.py:20-84 | The handshake breaks at the first line that ends it. Collection runs on the lines after that line and stops by the 65-second deadline or the interrupt. The table written is `SessionTable` of the lines each loop consumed. There is no table if `Ready.` never arrives. |

## Left out

- Serial I/O is not modelled: `serial.Serial`, the 2-second `sleep`, `readline`, writing the start command `s\n`, and `close`. Lines are an input sequence, and the start command sits between the two loops in `Capture` without being represented.
- `decode(errors='ignore')` is not modelled. Lines are taken as already-decoded strings, because dropping invalid bytes is Python's codec behaviour.
- `time.time()` is not modelled. It is replaced by the supplied readings `start` and `clock`, so floating-point subtraction becomes exact subtraction on reals.
- The timestamped file name and CSV writing with `csv.writer` are not modelled. `Capture` returns the table that would be written.
- The `print` calls are not modelled, because they are console output only.
- `KeyboardInterrupt` is not modelled as an asynchronous exception. It is the point `interruptAt` at which collection stops. An interrupt during the handshake aborts the script with no output and is not modelled.
- Importer.Session.Collect: requires the last clock reading to reach the deadline. This stands for the real clock advancing, which guarantees the loop ends. A finite input that runs out earlier ends the loop as if the device had gone silent (see `CollectSilentTail`).
- Importer.Capture: requires the last clock reading to reach the deadline, for the same reason as `Collect`. It covers a handshake that ends within the supplied lines. A handshake that never sees `Ready.` gives `None` rather than blocking for ever.
