/**
 * The line protocol of the serial importer as pure functions: how one
 * stripped line changes the accumulated table in each of the two loops,
 * what a whole run of each loop produces, and the properties of both.
 */
module Protocol {
  import opened Text

  datatype Option<T> = None | Some(value: T)

  /** One CSV row: the fields of a `LABEL,` or `DATA,` line after the tag. */
  type Row = seq<string>

  /** The module-level list `data`, in append order. */
  type Table = seq<Row>

  const LabelTag: string := "LABEL,"
  const DataTag: string := "DATA,"
  const ClearTag: string := "CLEARDATA"
  const ReadyTag: string := "Ready."

  /** `line.split(',')[1:]`: the fields after the leading tag. */
  function Fields(line: string): Row {
    Split(line, ',')[1..]
  }

  /** Python's `[l.strip() for l in raw]`: the lines as the loops test them. */
  function StripAll(raw: seq<string>): seq<string> {
    seq(|raw|, i requires 0 <= i < |raw| => Strip(raw[i]))
  }

  predicate IsLabelLine(line: string) {
    StartsWith(line, LabelTag)
  }

  predicate IsDataLine(line: string) {
    StartsWith(line, DataTag)
  }

  predicate IsClearLine(line: string) {
    StartsWith(line, ClearTag)
  }

  /** No stripped line starts with two different tags. */
  lemma {:induction false} TagsExclusive(line: string)
    ensures !(IsLabelLine(line) && IsDataLine(line))
    ensures !(IsLabelLine(line) && IsClearLine(line))
  {
    if IsLabelLine(line) {
      assert line[0] == line[..|LabelTag|][0] == 'L';
      assert !StartsWith(line, DataTag) by {
        if |DataTag| <= |line| { assert line[..|DataTag|][0] == line[0]; }
      }
      assert !StartsWith(line, ClearTag) by {
        if |ClearTag| <= |line| { assert line[..|ClearTag|][0] == line[0]; }
      }
    }
  }

  /**
   * The fields of a line that starts with a tag `w,` (with no comma in `w`)
   * are the split of what follows the tag, so joining them back with commas
   * gives the rest of the line, and there is always at least one field.
   */
  lemma {:induction false} TaggedFields(line: string, tag: string)
    requires |tag| >= 1 && tag[|tag| - 1] == ',' && ',' !in tag[..|tag| - 1]
    requires StartsWith(line, tag)
    ensures Fields(line) == Split(line[|tag|..], ',')
    ensures |Fields(line)| >= 1
    ensures Join(Fields(line), ',') == line[|tag|..]
  {
    var w := tag[..|tag| - 1];
    assert line == w + [','] + line[|tag|..];
    SplitField(w, line[|tag|..], ',');
    JoinSplit(line[|tag|..], ',');
  }

  /** A `DATA,` row joined back with commas is the line without its first 5 characters. */
  lemma {:induction false} DataRowRoundTrip(line: string)
    requires IsDataLine(line)
    ensures |Fields(line)| >= 1
    ensures Join(Fields(line), ',') == line[5..]
    ensures Fields(line) == Split(line[5..], ',')
  {
    assert ',' !in DataTag[..4];
    TaggedFields(line, DataTag);
  }

  /** A `LABEL,` header joined back with commas is the line without its first 6 characters. */
  lemma {:induction false} HeaderRoundTrip(line: string)
    requires IsLabelLine(line)
    ensures |Fields(line)| >= 1
    ensures Join(Fields(line), ',') == line[6..]
    ensures Fields(line) == Split(line[6..], ',')
  {
    assert ',' !in LabelTag[..5];
    TaggedFields(line, LabelTag);
  }

  /** A bare tag still yields one row, holding a single empty field. */
  lemma {:induction false} BareTagRow()
    ensures Fields(DataTag) == [""]
    ensures Fields(LabelTag) == [""]
  {
    DataRowRoundTrip(DataTag);
    assert DataTag[5..] == "";
    HeaderRoundTrip(LabelTag);
    assert LabelTag[6..] == "";
  }

  /** The state the two loops share: the table and the `header_saved` flag. */
  datatype SessionState = SessionState(data: Table, headerSaved: bool)

  /** Index of the first `LABEL,` line. */
  function FirstLabel(lines: seq<string>): (r: Option<nat>)
    ensures r.Some? ==> r.value < |lines| && IsLabelLine(lines[r.value])
    decreases |lines|
  {
    if lines == [] then None
    else if IsLabelLine(lines[0]) then Some(0)
    else
      var r := FirstLabel(lines[1..]);
      if r.Some? then Some(r.value + 1) else None
  }

  /** `FirstLabel` finds the first `LABEL,` line: none comes before it, and `None` means there is none. */
  lemma {:induction false} FirstLabelIsFirst(lines: seq<string>)
    ensures var r := FirstLabel(lines);
      && (r.Some? ==> forall j :: 0 <= j < r.value ==> !IsLabelLine(lines[j]))
      && (r.None? ==> forall j :: 0 <= j < |lines| ==> !IsLabelLine(lines[j]))
    decreases |lines|
  {
    if lines != [] && !IsLabelLine(lines[0]) {
      FirstLabelIsFirst(lines[1..]);
      forall j | 1 <= j < |lines| ensures lines[j] == lines[1..][j - 1] { }
    }
  }

  /** The header the first `LABEL,` line among `lines` carries, if there is one. */
  function HeaderOf(lines: seq<string>): Option<Row> {
    var k := FirstLabel(lines);
    if k.Some? then Some(Fields(lines[k.value])) else None
  }

  /** The rows of the `DATA,` lines among `lines`, in arrival order. */
  function DataRows(lines: seq<string>): Table
    decreases |lines|
  {
    if lines == [] then []
    else (if IsDataLine(lines[0]) then [Fields(lines[0])] else []) + DataRows(lines[1..])
  }

  // ---------------------------------------------------------------------
  // Handshake loop
  // ---------------------------------------------------------------------

  /** The line makes the handshake loop break: it is not skipped or captured and holds `Ready.`. */
  predicate EndsHandshake(headerSaved: bool, line: string) {
    && line != []
    && !IsClearLine(line)
    && !(IsLabelLine(line) && !headerSaved)
    && Contains(line, ReadyTag)
  }

  /** One handshake iteration on a line that does not end the handshake. */
  function HandshakeStep(st: SessionState, line: string): SessionState {
    if line == [] || IsClearLine(line) then st
    else if IsLabelLine(line) && !st.headerSaved then SessionState(st.data + [Fields(line)], true)
    else st
  }

  /** What a handshake run produces: the state, and the index of the line that ended it. */
  datatype Handshook = Handshook(state: SessionState, readyAt: Option<nat>)

  /** A handshake result seen from `n` lines earlier in the stream. */
  function Delayed(h: Handshook, n: nat): Handshook {
    Handshook(h.state, if h.readyAt.Some? then Some(h.readyAt.value + n) else None)
  }

  /**
   * The handshake loop run over `lines`: it stops at the first line that
   * ends the handshake; when no line does, every line is consumed and the
   * loop is still waiting.
   */
  function HandshakeRun(st: SessionState, lines: seq<string>): (h: Handshook)
    ensures h.readyAt.Some? ==> h.readyAt.value < |lines|
    decreases |lines|
  {
    if lines == [] then Handshook(st, None)
    else if EndsHandshake(st.headerSaved, lines[0]) then Handshook(st, Some(0))
    else Delayed(HandshakeRun(HandshakeStep(st, lines[0]), lines[1..]), 1)
  }

  /** Dropping one more element after dropping `i`. */
  lemma {:induction false} DropNext<T>(s: seq<T>, i: nat)
    requires i < |s|
    ensures s[i..][0] == s[i] && s[i..][1..] == s[i + 1..]
  {
  }

  /** A handshake iteration that does not break moves the loop on by one line. */
  lemma {:induction false} HandshakeAdvance(st: SessionState, lines: seq<string>, i: nat, before: SessionState)
    requires i < |lines|
    requires HandshakeRun(st, lines) == Delayed(HandshakeRun(before, lines[i..]), i)
    requires !EndsHandshake(before.headerSaved, lines[i])
    ensures HandshakeRun(st, lines) == Delayed(HandshakeRun(HandshakeStep(before, lines[i]), lines[i + 1..]), i + 1)
  {
    DropNext(lines, i);
  }

  /** A handshake iteration that breaks ends the run at line `i`. */
  lemma {:induction false} HandshakeBreak(st: SessionState, lines: seq<string>, i: nat, before: SessionState)
    requires i < |lines|
    requires HandshakeRun(st, lines) == Delayed(HandshakeRun(before, lines[i..]), i)
    requires EndsHandshake(before.headerSaved, lines[i])
    ensures HandshakeRun(st, lines) == Handshook(before, Some(i))
  {
  }

  /** Line `j` ends the handshake given the header flag its predecessors leave behind. */
  predicate EndsHandshakeAt(headerSaved: bool, lines: seq<string>, j: nat)
    requires j < |lines|
  {
    EndsHandshake(headerSaved || FirstLabel(lines[..j]).Some?, lines[j])
  }

  /** The lines the handshake loop consumed before it broke (all of them if it did not). */
  function Consumed(lines: seq<string>, readyAt: Option<nat>): seq<string>
    requires readyAt.Some? ==> readyAt.value <= |lines|
  {
    if readyAt.Some? then lines[..readyAt.value] else lines
  }

  /** Seen from the second line on, the first line only contributes whether it was a header. */
  lemma {:induction false} EndsHandshakeAtShift(headerSaved: bool, headerSaved': bool, lines: seq<string>, j: nat)
    requires 0 < j < |lines|
    requires headerSaved' == (headerSaved || IsLabelLine(lines[0]))
    ensures EndsHandshakeAt(headerSaved, lines, j) == EndsHandshakeAt(headerSaved', lines[1..], j - 1)
  {
    assert lines[..j][1..] == lines[1..][..j - 1];
  }

  /** A handshake step saves the header exactly when the line is a `LABEL,` line. */
  lemma {:induction false} HandshakeStepFlag(st: SessionState, line: string)
    requires !EndsHandshake(st.headerSaved, line)
    ensures HandshakeStep(st, line).headerSaved == (st.headerSaved || IsLabelLine(line))
  {
    TagsExclusive(line);
  }

  /** Where the handshake breaks, the line ends it. */
  lemma {:induction false} HandshakeExitFound(st: SessionState, lines: seq<string>)
    ensures var r := HandshakeRun(st, lines).readyAt;
      r.Some? ==> EndsHandshakeAt(st.headerSaved, lines, r.value)
    decreases |lines|
  {
    if lines != [] {
      assert EndsHandshakeAt(st.headerSaved, lines, 0) == EndsHandshake(st.headerSaved, lines[0]);
      if !EndsHandshake(st.headerSaved, lines[0]) {
        var st' := HandshakeStep(st, lines[0]);
        HandshakeStepFlag(st, lines[0]);
        HandshakeExitFound(st', lines[1..]);
        var r' := HandshakeRun(st', lines[1..]).readyAt;
        if r'.Some? {
          EndsHandshakeAtShift(st.headerSaved, st'.headerSaved, lines, r'.value + 1);
        }
      }
    }
  }

  /** No line before the one the handshake breaks at (or before the end, if it does not break) ends it. */
  lemma {:induction false} HandshakeExitFirst(st: SessionState, lines: seq<string>)
    ensures var r := HandshakeRun(st, lines).readyAt;
      forall j :: 0 <= j < (if r.Some? then r.value else |lines|) ==> !EndsHandshakeAt(st.headerSaved, lines, j)
    decreases |lines|
  {
    if lines != [] {
      assert EndsHandshakeAt(st.headerSaved, lines, 0) == EndsHandshake(st.headerSaved, lines[0]);
      if !EndsHandshake(st.headerSaved, lines[0]) {
        var st' := HandshakeStep(st, lines[0]);
        HandshakeStepFlag(st, lines[0]);
        HandshakeExitFirst(st', lines[1..]);
        var r' := HandshakeRun(st', lines[1..]).readyAt;
        forall j | 0 < j < (if r'.Some? then r'.value + 1 else |lines|)
          ensures !EndsHandshakeAt(st.headerSaved, lines, j)
        {
          EndsHandshakeAtShift(st.headerSaved, st'.headerSaved, lines, j);
        }
      }
    }
  }

  /**
   * `readyAt` is the first of `lines` that ends the handshake, or `None`
   * when none of them does.
   */
  predicate BreaksFirstAt(headerSaved: bool, lines: seq<string>, readyAt: Option<nat>) {
    match readyAt
    case Some(r) =>
      && r < |lines|
      && EndsHandshakeAt(headerSaved, lines, r)
      && forall j :: 0 <= j < r ==> !EndsHandshakeAt(headerSaved, lines, j)
    case None => forall j :: 0 <= j < |lines| ==> !EndsHandshakeAt(headerSaved, lines, j)
  }

  /** At most one position is the first to end the handshake. */
  lemma {:induction false} BreaksFirstAtUnique(headerSaved: bool, lines: seq<string>, a: Option<nat>, b: Option<nat>)
    requires BreaksFirstAt(headerSaved, lines, a) && BreaksFirstAt(headerSaved, lines, b)
    ensures a == b
  {
  }

  /** The handshake breaks at the first line that ends it, and only there. */
  lemma {:induction false} HandshakeExit(st: SessionState, lines: seq<string>)
    ensures BreaksFirstAt(st.headerSaved, lines, HandshakeRun(st, lines).readyAt)
  {
    HandshakeExitFound(st, lines);
    HandshakeExitFirst(st, lines);
  }

  /** The rows a handshake adds: the header of the first `LABEL,` line, if there is one. */
  function HeaderRows(lines: seq<string>): Table {
    var h := HeaderOf(lines);
    if h.Some? then [h.value] else []
  }

  /**
   * The state the handshake loop leaves after reading `seen`: the header of
   * the first `LABEL,` line appended, unless a header was saved already.
   */
  function AfterHandshake(st: SessionState, seen: seq<string>): SessionState {
    if st.headerSaved then st else SessionState(st.data + HeaderRows(seen), HeaderOf(seen).Some?)
  }

  /**
   * The handshake's only append is the header, and it happens exactly when
   * no header was saved yet and a `LABEL,` line arrives before the break;
   * the header is that first line's fields and the flag records it.
   */
  lemma {:induction false} HandshakeHeader(st: SessionState, lines: seq<string>)
    ensures var h := HandshakeRun(st, lines);
      h.state == AfterHandshake(st, Consumed(lines, h.readyAt))
    decreases |lines|
  {
    var h := HandshakeRun(st, lines);
    var seen := Consumed(lines, h.readyAt);
    if lines == [] {
    } else if EndsHandshake(st.headerSaved, lines[0]) {
      assert seen == [];
    } else {
      var x, rest := lines[0], lines[1..];
      var st' := HandshakeStep(st, x);
      TagsExclusive(x);
      HandshakeHeader(st', rest);
      var h' := HandshakeRun(st', rest);
      var seen' := Consumed(rest, h'.readyAt);
      assert seen == [x] + seen' by {
        if h'.readyAt.Some? {
          assert lines[..h'.readyAt.value + 1] == [x] + rest[..h'.readyAt.value];
        }
      }
      assert seen[1..] == seen';
      assert HeaderOf(seen) == if IsLabelLine(x) then Some(Fields(x)) else HeaderOf(seen');
    }
  }

  // ---------------------------------------------------------------------
  // Collecting loop
  // ---------------------------------------------------------------------

  /** One collecting iteration: a late header once, every `DATA,` row, nothing else. */
  function CollectStep(st: SessionState, line: string): SessionState {
    if line == [] then st
    else if IsLabelLine(line) then
      if st.headerSaved then st else SessionState(st.data + [Fields(line)], true)
    else if IsDataLine(line) then SessionState(st.data + [Fields(line)], st.headerSaved)
    else st
  }

  /** The collecting loop run over every line of `lines`. */
  function CollectAll(st: SessionState, lines: seq<string>): SessionState
    decreases |lines|
  {
    if lines == [] then st else CollectAll(CollectStep(st, lines[0]), lines[1..])
  }

  /** Blank lines and lines that are neither `LABEL,` nor `DATA,` change nothing. */
  lemma {:induction false} CollectIgnores(st: SessionState, line: string)
    requires line == [] || (!IsLabelLine(line) && !IsDataLine(line))
    ensures CollectStep(st, line) == st
  {
  }

  /** Collecting `a` then `b` is collecting `a + b`. */
  lemma {:induction false} CollectAllConcat(st: SessionState, a: seq<string>, b: seq<string>)
    ensures CollectAll(st, a + b) == CollectAll(CollectAll(st, a), b)
    decreases |a|
  {
    if a != [] {
      assert (a + b)[1..] == a[1..] + b;
      CollectAllConcat(CollectStep(st, a[0]), a[1..], b);
    } else {
      assert a + b == b;
    }
  }

  /** Collecting one more line is one more step. */
  lemma {:induction false} CollectAllSnoc(st: SessionState, lines: seq<string>, line: string)
    ensures CollectAll(st, lines + [line]) == CollectStep(CollectAll(st, lines), line)
  {
    CollectAllConcat(st, lines, [line]);
  }

  /** One more collecting iteration extends the run by the next line. */
  lemma {:induction false} CollectAdvance(st: SessionState, lines: seq<string>, k: nat, before: SessionState)
    requires k < |lines|
    requires before == CollectAll(st, lines[..k])
    ensures CollectStep(before, lines[k]) == CollectAll(st, lines[..k + 1])
  {
    assert lines[..k + 1] == lines[..k] + [lines[k]];
    CollectAllSnoc(st, lines[..k], lines[k]);
  }

  /** The collecting loop only appends, and never clears the header flag. */
  lemma {:induction false} CollectGrows(st: SessionState, lines: seq<string>)
    ensures st.data <= CollectAll(st, lines).data
    ensures st.headerSaved ==> CollectAll(st, lines).headerSaved
    decreases |lines|
  {
    if lines != [] {
      CollectGrows(CollectStep(st, lines[0]), lines[1..]);
    }
  }

  /**
   * An interrupt after any prefix keeps exactly what that prefix produced,
   * which is a prefix of what the uninterrupted loop would have produced.
   */
  lemma {:induction false} InterruptKeepsPrefix(st: SessionState, lines: seq<string>, k: nat)
    requires k <= |lines|
    ensures CollectAll(st, lines[..k]).data <= CollectAll(st, lines).data
  {
    assert lines == lines[..k] + lines[k..];
    CollectAllConcat(st, lines[..k], lines[k..]);
    CollectGrows(CollectAll(st, lines[..k]), lines[k..]);
  }

  /**
   * When the device goes silent, every further read times out and yields a
   * blank line, so stopping where the supplied lines end loses nothing.
   */
  lemma {:induction false} CollectSilentTail(st: SessionState, lines: seq<string>, silence: seq<string>)
    requires forall k :: 0 <= k < |silence| ==> silence[k] == []
    ensures CollectAll(st, lines + silence) == CollectAll(st, lines)
    decreases |silence|
  {
    CollectAllConcat(st, lines, silence);
    if silence != [] {
      var st' := CollectAll(st, lines);
      assert CollectStep(st', silence[0]) == st';
      assert lines + silence == (lines + [silence[0]]) + silence[1..];
      CollectAllSnoc(st, lines, silence[0]);
      CollectSilentTail(st, lines + [silence[0]], silence[1..]);
    }
  }

  /**
   * The rows the collecting loop adds to a table whose header flag is
   * `headerSaved`: every `DATA,` row in arrival order, with the first
   * `LABEL,` line's header inserted at its arrival position if no header
   * was saved before.
   */
  function Arrivals(headerSaved: bool, lines: seq<string>): Table {
    var first := FirstLabel(lines);
    if headerSaved || first.None? then DataRows(lines)
    else DataRows(lines[..first.value]) + [Fields(lines[first.value])] + DataRows(lines[first.value + 1..])
  }

  /** Arrivals of a line that is not a `LABEL,` line followed by more lines. */
  lemma {:induction false} ArrivalsCons(headerSaved: bool, line: string, rest: seq<string>)
    requires !IsLabelLine(line)
    ensures Arrivals(headerSaved, [line] + rest)
         == (if IsDataLine(line) then [Fields(line)] else []) + Arrivals(headerSaved, rest)
  {
    var lines := [line] + rest;
    assert lines[1..] == rest;
    var first := FirstLabel(rest);
    if !headerSaved && first.Some? {
      var k := first.value;
      assert FirstLabel(lines) == Some(k + 1);
      assert lines[..k + 1] == [line] + rest[..k];
      assert lines[..k + 1][1..] == rest[..k];
      assert lines[k + 2..] == rest[k + 1..];
    }
  }

  /** Arrivals of a `LABEL,` line followed by more lines. */
  lemma {:induction false} ArrivalsLabelHead(headerSaved: bool, line: string, rest: seq<string>)
    requires IsLabelLine(line)
    ensures Arrivals(headerSaved, [line] + rest)
         == (if headerSaved then [] else [Fields(line)]) + DataRows(rest)
  {
    var lines := [line] + rest;
    TagsExclusive(line);
    assert lines[1..] == rest && lines[..0] == [];
    assert FirstLabel(lines) == Some(0);
  }

  /** The collecting loop appends exactly its arrivals, and saves the header iff a `LABEL,` line came. */
  lemma {:induction false} CollectRows(st: SessionState, lines: seq<string>)
    ensures CollectAll(st, lines).data == st.data + Arrivals(st.headerSaved, lines)
    ensures CollectAll(st, lines).headerSaved == (st.headerSaved || FirstLabel(lines).Some?)
    decreases |lines|
  {
    if lines != [] {
      var x, rest := lines[0], lines[1..];
      assert lines == [x] + rest;
      var st' := CollectStep(st, x);
      CollectRows(st', rest);
      assert CollectAll(st, lines) == CollectAll(st', rest);
      if IsLabelLine(x) {
        ArrivalsLabelHead(st.headerSaved, x, rest);
        assert st' == if st.headerSaved then st else SessionState(st.data + [Fields(x)], true);
      } else {
        ArrivalsCons(st.headerSaved, x, rest);
        assert st'.headerSaved == st.headerSaved;
        assert st'.data == st.data + (if IsDataLine(x) then [Fields(x)] else []);
      }
    }
  }

  /**
   * The collecting loop adds one row per `DATA,` line, plus one if it
   * captures the header; no field count is compared with the header's.
   */
  lemma {:induction false} CollectCount(st: SessionState, lines: seq<string>)
    ensures |CollectAll(st, lines).data|
         == |st.data| + |DataRows(lines)| + (if !st.headerSaved && FirstLabel(lines).Some? then 1 else 0)
    decreases |lines|
  {
    if lines != [] {
      TagsExclusive(lines[0]);
      CollectCount(CollectStep(st, lines[0]), lines[1..]);
    }
  }

  // ---------------------------------------------------------------------
  // Deadline and interrupt
  // ---------------------------------------------------------------------

  /**
   * The collecting loop, offered `available` lines and the clock reading
   * `clock[i]` before its `i`-th read, stops after `n` lines: every check
   * before was below the deadline, no interrupt came earlier, and at `n`
   * the lines ran out, the check failed or the interrupt arrived.
   */
  predicate StopsAt(n: nat, available: nat, clock: seq<real>, start: real, duration: real, interruptAt: Option<nat>) {
    && n <= available
    && n < |clock|
    && (forall j :: 0 <= j < n ==> clock[j] - start < duration)
    && (interruptAt.Some? ==> n <= interruptAt.value)
    && (n == available || clock[n] - start >= duration || interruptAt == Some(n))
  }

  /** The stopping point is determined by the inputs. */
  lemma {:induction false} StopIsUnique(n: nat, m: nat, available: nat, clock: seq<real>, start: real, duration: real, interruptAt: Option<nat>)
    requires StopsAt(n, available, clock, start, duration, interruptAt)
    requires StopsAt(m, available, clock, start, duration, interruptAt)
    ensures n == m
  {
  }

  // ---------------------------------------------------------------------
  // Whole session
  // ---------------------------------------------------------------------

  /**
   * The table a session produces when the handshake consumed `seen` before
   * its break and the collecting loop processed `collected`.
   */
  function SessionTable(seen: seq<string>, collected: seq<string>): Table {
    HeaderRows(seen) + Arrivals(HeaderOf(seen).Some?, collected)
  }

  /** From a fresh session the handshake leaves at most one row: the header, if one came. */
  lemma {:induction false} FreshHandshake(seen: seq<string>)
    ensures AfterHandshake(SessionState([], false), seen) == SessionState(HeaderRows(seen), HeaderOf(seen).Some?)
    ensures |AfterHandshake(SessionState([], false), seen).data| <= 1
  {
    assert [] + HeaderRows(seen) == HeaderRows(seen);
  }

  /** From a fresh session, the handshake and the collecting loop leave exactly `SessionTable`. */
  lemma {:induction false} FreshSessionTable(seen: seq<string>, collected: seq<string>)
    ensures CollectAll(AfterHandshake(SessionState([], false), seen), collected).data == SessionTable(seen, collected)
  {
    FreshHandshake(seen);
    CollectRows(AfterHandshake(SessionState([], false), seen), collected);
  }

  /** Dropping a leading line that is not a `LABEL,` line does not change the header. */
  lemma {:induction false} HeaderOfTail(lines: seq<string>)
    requires lines != [] && !IsLabelLine(lines[0])
    ensures HeaderOf(lines) == HeaderOf(lines[1..])
  {
    var r := FirstLabel(lines[1..]);
    if r.Some? {
      assert lines[r.value + 1] == lines[1..][r.value];
    }
  }

  /** A line that is not a `LABEL,` line, wherever it stands, does not change the header. */
  lemma {:induction false} HeaderOfSkip(a: seq<string>, line: string, b: seq<string>)
    requires !IsLabelLine(line)
    ensures HeaderOf(a + [line] + b) == HeaderOf(a + b)
    decreases |a|
  {
    var s, t := a + [line] + b, a + b;
    if a == [] {
      assert s[1..] == b && t == b;
      HeaderOfTail(s);
    } else {
      assert s[0] == a[0] && t[0] == a[0];
      if !IsLabelLine(a[0]) {
        assert s[1..] == a[1..] + [line] + b;
        assert t[1..] == a[1..] + b;
        HeaderOfTail(s);
        HeaderOfTail(t);
        HeaderOfSkip(a[1..], line, b);
      }
    }
  }

  /**
   * A `DATA,` line (or any line other than a `LABEL,` line) seen anywhere
   * during the handshake contributes nothing to the table.
   */
  lemma {:induction false} HandshakeDataIgnored(a: seq<string>, line: string, b: seq<string>, collected: seq<string>)
    requires !IsLabelLine(line)
    ensures SessionTable(a + [line] + b, collected) == SessionTable(a + b, collected)
  {
    HeaderOfSkip(a, line, b);
  }

  /**
   * The whole table holds at most one header: the first `LABEL,` line's
   * fields if the handshake saw one, and otherwise the first `LABEL,` line
   * of the collecting loop, at its arrival position; every other row is a
   * `DATA,` row of the collecting loop, in arrival order.
   */
  lemma {:induction false} SessionTableShape(seen: seq<string>, collected: seq<string>)
    ensures HeaderOf(seen).Some? ==>
      SessionTable(seen, collected) == [HeaderOf(seen).value] + DataRows(collected)
    ensures HeaderOf(seen).None? && FirstLabel(collected).None? ==>
      SessionTable(seen, collected) == DataRows(collected)
    ensures HeaderOf(seen).None? && FirstLabel(collected).Some? ==>
      var k := FirstLabel(collected).value;
      SessionTable(seen, collected)
        == DataRows(collected[..k]) + [Fields(collected[k])] + DataRows(collected[k + 1..])
  {
  }
}
