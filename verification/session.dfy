/**
 * The serial importer's script: the module-level `data` list and
 * `header_saved` flag, the handshake loop that waits for `Ready.`, and the
 * time-bounded collecting loop that an interrupt may cut short.
 *
 * The serial port is replaced by the sequence of lines it yields (already
 * decoded), the clock by the readings `time.time()` returns at each check.
 */
module Importer {
  import opened Text
  import opened Protocol

  /** Seconds the collecting loop runs: the device arms for 3 s and records for 60 s. */
  const Duration: real := 65.0

  class Session {
    /** The rows to be written as CSV, in append order. */
    var data: Table
    /** Whether a `LABEL,` header has been appended to `data`. */
    var headerSaved: bool

    function Current(): SessionState
      reads this
    {
      SessionState(data, headerSaved)
    }

    constructor ()
      ensures data == [] && !headerSaved
    {
      data := [];
      headerSaved := false;
    }

    /**
     * One pass of the handshake loop's body on the line `raw`: skip it if
     * blank or `CLEARDATA`, capture it if it is the first `LABEL,` line,
     * and report whether it is the `Ready.` line the loop breaks at.
     */
    method HandshakeLine(raw: string) returns (ready: bool)
      modifies this
      ensures ready == EndsHandshake(old(headerSaved), Strip(raw))
      ensures !ready ==> Current() == HandshakeStep(old(Current()), Strip(raw))
      ensures ready ==> Current() == old(Current())
    {
      var line := Strip(raw);
      ready := false;
      if line == [] || IsClearLine(line) {
        // skipped
      } else if IsLabelLine(line) && !headerSaved {
        data := data + [Fields(line)];
        headerSaved := true;
      } else if Contains(line, ReadyTag) {
        ready := true;
      }
    }

    /**
     * The handshake loop: skip blank and `CLEARDATA` lines, append the first
     * `LABEL,` header, and break at the first other line holding `Ready.`.
     * `readyAt` is the index of that line, or `None` when the lines ran out
     * with the loop still waiting.
     */
    method Handshake(raw: seq<string>) returns (readyAt: Option<nat>)
      modifies this
      ensures BreaksFirstAt(old(headerSaved), StripAll(raw), readyAt)
      ensures Current() == AfterHandshake(old(Current()), Consumed(StripAll(raw), readyAt))
    {
      ghost var lines := StripAll(raw);
      ghost var initial := Current();
      readyAt := None;
      var i := 0;
      while i < |raw|
        invariant 0 <= i <= |raw|
        invariant HandshakeRun(initial, lines) == Delayed(HandshakeRun(Current(), lines[i..]), i)
      {
        ghost var before := Current();
        var ready := HandshakeLine(raw[i]);
        if ready {
          HandshakeBreak(initial, lines, i, before);
          readyAt := Some(i);
          break;
        }
        HandshakeAdvance(initial, lines, i, before);
        i := i + 1;
      }
      assert Handshook(Current(), readyAt) == HandshakeRun(initial, lines);
      HandshakeExit(initial, lines);
      HandshakeHeader(initial, lines);
    }

    /**
     * One pass of the collecting loop's body on the line `raw`: a `LABEL,`
     * line is appended only while no header is saved, a `DATA,` line is
     * always appended, and every other line is ignored.
     */
    method CollectLine(raw: string)
      modifies this
      ensures Current() == CollectStep(old(Current()), Strip(raw))
    {
      var line := Strip(raw);
      if line == [] {
        // skipped
      } else if IsLabelLine(line) {
        if !headerSaved {
          data := data + [Fields(line)];
          headerSaved := true;
        }
      } else if IsDataLine(line) {
        data := data + [Fields(line)];
      }
    }

    /**
     * The collecting loop over the lines the device sends after the start
     * command. Before its `i`-th read it compares `clock[i] - start` with
     * `duration`; `interruptAt == Some(k)` is a Ctrl+C arriving once `k`
     * lines have been handled.
     */
    method Collect(raw: seq<string>, clock: seq<real>, start: real, duration: real, interruptAt: Option<nat>)
      returns (processed: nat)
      requires |clock| > 0 && clock[|clock| - 1] - start >= duration
      modifies this
      ensures StopsAt(processed, |raw|, clock, start, duration, interruptAt)
      ensures Current() == CollectAll(old(Current()), StripAll(raw)[..processed])
    {
      ghost var lines := StripAll(raw);
      processed := 0;
      while processed < |raw| && clock[processed] - start < duration && interruptAt != Some(processed)
        invariant processed <= |raw| && processed < |clock|
        invariant forall j :: 0 <= j < processed ==> clock[j] - start < duration
        invariant interruptAt.Some? ==> processed <= interruptAt.value
        invariant Current() == CollectAll(old(Current()), lines[..processed])
      {
        assert processed + 1 < |clock|;
        assert forall j :: 0 <= j < processed + 1 ==> clock[j] - start < duration;
        assert interruptAt.Some? ==> processed + 1 <= interruptAt.value;
        ghost var before := Current();
        CollectLine(raw[processed]);
        CollectAdvance(old(Current()), lines, processed, before);
        processed := processed + 1;
      }
    }
  }

  /**
   * The whole script on one stream of lines: the handshake, then (if it
   * broke at `readyAt`) the collecting loop on the lines after the `Ready.`
   * line, stopped by the `Duration` deadline or an interrupt after
   * `processed` lines; `start` is the reading taken when collecting begins.
   * `table` is the `data` written as CSV; `None` means the handshake never
   * ended, so the script would still be waiting and nothing is written.
   */
  method Capture(stream: seq<string>, clock: seq<real>, start: real, interruptAt: Option<nat>)
    returns (table: Option<Table>, readyAt: Option<nat>, processed: nat)
    requires |clock| > 0 && clock[|clock| - 1] - start >= Duration
    ensures BreaksFirstAt(false, StripAll(stream), readyAt)
    ensures readyAt.None? ==> table.None? && processed == 0
    ensures readyAt.Some? ==> StopsAt(processed, |stream| - readyAt.value - 1, clock, start, Duration, interruptAt)
    ensures readyAt.Some? ==>
      table == Some(SessionTable(StripAll(stream)[..readyAt.value], StripAll(stream[readyAt.value + 1..])[..processed]))
  {
    var session := new Session();
    readyAt := session.Handshake(stream);
    if readyAt.None? {
      table, processed := None, 0;
      return;
    }
    ghost var seen := StripAll(stream)[..readyAt.value];
    ghost var handshaken := session.Current();
    assert handshaken == AfterHandshake(SessionState([], false), seen);
    processed := session.Collect(stream[readyAt.value + 1..], clock, start, Duration, interruptAt);
    FreshSessionTable(seen, StripAll(stream[readyAt.value + 1..])[..processed]);
    table := Some(session.data);
  }
}
