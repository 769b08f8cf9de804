/**
 * The checkpoint file of the copy thread: a list of "fnum fpos" lines
 * after config_copy_start.  At start-up the last line gives the position
 * to resume from (read_copy_state); while events are applied a line is
 * appended now and then, and the file is compacted to a single line once
 * it grows past MAX_POS bytes; at exit the current position is appended
 * when it differs from the last one compacted.
 *
 * The file is modelled as its lines; writes, seeks and truncations are
 * taken to succeed, except the seek before a compaction, which is a
 * parameter.
 */
module Checkpoint {
  import opened Types
  import opened Scan

  /** An event file number and the position in it. */
  datatype Pos = Pos(fnum: int, fpos: int)

  /** A line as the copy thread writes it ("%d %d\n"). */
  function PairLine(p: Pos): (line: string)
    ensures |line| >= 4 && line[|line| - 1] == '\n'
  {
    FormatInt(p.fnum) + " " + FormatInt(p.fpos) + "\n"
  }

  /** The bytes a list of lines takes in the file. */
  function Bytes(lines: seq<Pos>): (n: nat)
    ensures n >= 4 * |lines|
  {
    if lines == [] then 0 else Bytes(lines[..|lines| - 1]) + |PairLine(lines[|lines| - 1])|
  }

  // ---------------------------------------------------------------------
  // read_copy_state

  /** What reading the file so far has given: the position and how many
   *  lines counted. */
  datatype Restart = Restart(pos: Pos, count: nat)

  /** One line of the state file: sscanf's "%d %d" assigns what it
   *  converts before the first failure, and the line counts unless
   *  sscanf met the end of the input first (a line of white space). */
  function ReadLine(line: string, r: Restart): Restart
  {
    var vals := ScanInts(line, PairFields);
    var fnum := if |vals| >= 1 then vals[0] else r.pos.fnum;
    var fpos := if |vals| >= 2 then vals[1] else r.pos.fpos;
    Restart(Pos(fnum, fpos), if AllSpaces(line) then r.count else r.count + 1)
  }

  /** The number of integers a state line is scanned for. */
  const PairFields: nat := 2

  /** All lines, the first first, from the position the thread has before
   *  reading. */
  function ReadLines(lines: seq<string>, p0: Pos): Restart
  {
    if lines == [] then Restart(p0, 0)
    else ReadLine(lines[|lines| - 1], ReadLines(lines[..|lines| - 1], p0))
  }

  /** How read_copy_state ends: a format error when no line counted, else
   *  the position to resume from, with the file compacted to that single
   *  line when more than MAX_POS lines counted. */
  datatype StateResult = FormatError | Resumed(pos: Pos, compacted: bool)

  function CopyState(lines: seq<string>, p0: Pos): StateResult
  {
    var r := ReadLines(lines, p0);
    if r.count < 1 then FormatError else Resumed(r.pos, r.count > MaxPos)
  }

  /** The loop of read_copy_state over the lines of the file. */
  method ReadCopyState(lines: seq<string>, p0: Pos) returns (res: StateResult, file: seq<string>)
    ensures res == CopyState(lines, p0)
    ensures file == (if res.Resumed? && res.compacted then [PairLine(res.pos)] else lines)
  {
    var fnum, fpos := p0.fnum, p0.fpos;
    var len := 0;
    var i := 0;
    while i < |lines|
      invariant 0 <= i <= |lines|
      invariant ReadLines(lines[..i], p0) == Restart(Pos(fnum, fpos), len)
    {
      assert lines[..i + 1][..i] == lines[..i];
      var vals := ScanInts(lines[i], PairFields);
      if |vals| >= 1 {
        fnum := vals[0];
      }
      if |vals| >= 2 {
        fpos := vals[1];
      }
      if !AllSpaces(lines[i]) {
        len := len + 1;
      }
      i := i + 1;
    }
    assert lines[..i] == lines;
    if len < 1 {
      return FormatError, lines;
    }
    if len > MaxPos {
      return Resumed(Pos(fnum, fpos), true), [PairLine(Pos(fnum, fpos))];
    }
    return Resumed(Pos(fnum, fpos), false), lines;
  }

  /** The last line that holds two integers decides the position. */
  lemma LastLineWins(lines: seq<string>, line: string, p0: Pos, fnum: int, fpos: int)
    requires ScanInts(line, PairFields) == [fnum, fpos]
    ensures CopyState(lines + [line], p0) == Resumed(Pos(fnum, fpos), ReadLines(lines, p0).count + 1 > MaxPos)
  {
    assert (lines + [line])[..|lines|] == lines;
    assert !AllSpaces(line) by {
      assert ScanInt(line, 0).IntAt?;
      ScanIntNotSpaces(line);
    }
  }

  /** A line sscanf converts an integer from is not all white space. */
  lemma ScanIntNotSpaces(s: string)
    requires ScanInt(s, 0).IntAt?
    ensures !AllSpaces(s)
  {
    var j := SkipSpaces(s, 0);
    var k := if j < |s| && (s[j] == '-' || s[j] == '+') then j + 1 else j;
    assert DigitsEnd(s, k) > k;
    assert IsDigit(s[k]);
  }

  /** A line of white space leaves the position and the count alone. */
  lemma BlankLineIgnored(lines: seq<string>, line: string, p0: Pos)
    requires AllSpaces(line)
    ensures ReadLines(lines + [line], p0) == ReadLines(lines, p0)
  {
    assert (lines + [line])[..|lines|] == lines;
    assert ScanInts(line, PairFields) == [] by {
      if ScanInt(line, 0).IntAt? {
        ScanIntNotSpaces(line);
      }
    }
  }

  /** A line as written reads back as its two integers. */
  lemma ScanPairLine(p: Pos)
    ensures ScanInts(PairLine(p), PairFields) == [p.fnum, p.fpos]
    ensures !AllSpaces(PairLine(p))
  {
    var a := FormatInt(p.fnum);
    var s := PairLine(p);
    var rest := " " + FormatInt(p.fpos) + "\n";
    FirstOfPair(p, rest);
    ScanIntsCons(s, PairFields, p.fnum, |a|);
    SecondOfPair(p.fpos, rest);
    ScanIntNotSpaces(s);
  }

  lemma FirstOfPair(p: Pos, rest: string)
    requires rest == " " + FormatInt(p.fpos) + "\n"
    ensures ScanInt(PairLine(p), 0) == IntAt(p.fnum, |FormatInt(p.fnum)|)
    ensures PairLine(p)[|FormatInt(p.fnum)|..] == rest
  {
    var a := FormatInt(p.fnum);
    assert PairLine(p) == "" + a + rest;
    assert AllSpaces("");
    ScanFormatInt("", p.fnum, rest);
  }

  lemma SecondOfPair(n: int, rest: string)
    requires rest == " " + FormatInt(n) + "\n"
    ensures ScanInts(rest, 1) == [n]
  {
    var e := 1 + |FormatInt(n)|;
    assert AllSpaces(" ");
    ScanFormatInt(" ", n, "\n");
    ScanIntsCons(rest, 1, n, e);
  }

  /** The lines of a list of positions. */
  function Render(ps: seq<Pos>): (lines: seq<string>)
    ensures |lines| == |ps|
  {
    if ps == [] then [] else Render(ps[..|ps| - 1]) + [PairLine(ps[|ps| - 1])]
  }

  /** A file the copy thread wrote reads back as its last position, every
   *  line counting. */
  lemma {:induction false} ReadRendered(ps: seq<Pos>, p0: Pos)
    ensures ReadLines(Render(ps), p0) == Restart(if ps == [] then p0 else ps[|ps| - 1], |ps|)
    decreases |ps|
  {
    if ps != [] {
      var init := ps[..|ps| - 1];
      ReadRendered(init, p0);
      assert Render(ps)[..|ps| - 1] == Render(init);
      ScanPairLine(ps[|ps| - 1]);
    }
  }

  /** Starting from a file of written lines resumes at the last one, and
   *  compacts exactly when there are more than MAX_POS of them. */
  lemma CopyStateRoundTrip(ps: seq<Pos>, p0: Pos)
    requires ps != []
    ensures CopyState(Render(ps), p0) == Resumed(ps[|ps| - 1], |ps| > MaxPos)
  {
    ReadRendered(ps, p0);
  }

  // ---------------------------------------------------------------------
  // Checkpoints while events are applied

  /** The checkpoint settings: every how many events and seconds. */
  datatype CheckConfig = CheckConfig(everyEvents: int, everySecs: int)

  /** The state the copy thread keeps about its checkpoint file: the
   *  lines, the position last compacted to (fnum_cp, fpos_cp), the event
   *  countdown (check_events) and the time of the next checkpoint
   *  (check_time). */
  datatype LogState = LogState(lines: seq<Pos>, cp: Pos, countdown: int, due: int)

  /**
   * After an event at p was applied, at time now, with the thread's own
   * position global: nothing unless the countdown has run out and the
   * time has come; then the countdown and time are reset, and unless p is
   * the position last compacted to, p is appended.  When the file has
   * then grown past MAX_POS bytes from its start and the seek back
   * succeeds, it is rewritten to the single line global, and p becomes
   * the position last compacted to.
   */
  function Record(st: LogState, start: nat, p: Pos, global: Pos, now: int, cfg: CheckConfig, seekOk: bool): LogState
  {
    if st.countdown > 0 || now < st.due then st
    else
      var reset := st.(countdown := cfg.everyEvents, due := now + cfg.everySecs);
      if p == st.cp then reset
      else
        var grown := st.lines + [p];
        if start + Bytes(grown) <= MaxPos || !seekOk then reset.(lines := grown)
        else reset.(lines := [global], cp := p)
  }

  /** A line is written only when it is due and differs from the one last
   *  compacted to; the file then either gains exactly that line or is
   *  compacted to the thread's position; fnum_cp/fpos_cp change only by
   *  a compaction. */
  lemma RecordCases(st: LogState, start: nat, p: Pos, global: Pos, now: int, cfg: CheckConfig, seekOk: bool)
    ensures var r := Record(st, start, p, global, now, cfg, seekOk);
      var due := st.countdown <= 0 && now >= st.due;
      var compact := due && p != st.cp && start + Bytes(st.lines + [p]) > MaxPos && seekOk;
      (r.lines != st.lines ==> due && p != st.cp) &&
      (due && p != st.cp && !compact ==> r.lines == st.lines + [p]) &&
      (compact ==> r.lines == [global] && r.cp == p) &&
      (!compact ==> r.cp == st.cp) &&
      (due ==> r.countdown == cfg.everyEvents && r.due == now + cfg.everySecs) &&
      (!due ==> r == st)
  {
  }

  /** A file kept within MAX_POS bytes stays so, unless it is compacted
   *  to one line, or a failed seek leaves it over. */
  lemma RecordBounded(st: LogState, start: nat, p: Pos, global: Pos, now: int, cfg: CheckConfig)
    requires start + Bytes(st.lines) <= MaxPos
    ensures var r := Record(st, start, p, global, now, cfg, true);
      start + Bytes(r.lines) <= MaxPos || r.lines == [global]
  {
  }

  /** How a batch of events is applied: whether each is still valid after
   *  optimisation, its position, what cp returns for it, the time when it
   *  was applied, and whether a compaction's seek would succeed. */
  datatype Applied = Applied(valid: bool, pos: Pos, code: int, now: int, seekOk: bool)

  /** The loop over a batch: every event counts down, invalid ones are
   *  skipped, a 0 from cp ends the thread, and after each applied event
   *  a checkpoint may be written (when there is a checkpoint file). */
  function Batch(st: LogState, start: nat, evs: seq<Applied>, global: Pos, cfg: CheckConfig, hasFile: bool): (LogState, bool)
    decreases |evs|
  {
    if evs == [] then (st, false)
    else
      var e := evs[0];
      var counted := st.(countdown := st.countdown - 1);
      if !e.valid then Batch(counted, start, evs[1..], global, cfg, hasFile)
      else if e.code == 0 then (counted, true)
      else
        var next := if hasFile then Record(counted, start, e.pos, global, e.now, cfg, e.seekOk) else counted;
        Batch(next, start, evs[1..], global, cfg, hasFile)
  }

  /** A batch stops exactly when a valid event's cp returned 0, and then
   *  nothing after that event is looked at. */
  lemma {:induction false} BatchStops(st: LogState, start: nat, evs: seq<Applied>, global: Pos, cfg: CheckConfig, hasFile: bool)
    ensures Batch(st, start, evs, global, cfg, hasFile).1 <==>
      exists k :: 0 <= k < |evs| && evs[k].valid && evs[k].code == 0
    decreases |evs|
  {
    if evs != [] {
      var counted := st.(countdown := st.countdown - 1);
      var e := evs[0];
      if !e.valid || e.code != 0 {
        var next := if !e.valid || !hasFile then counted else Record(counted, start, e.pos, global, e.now, cfg, e.seekOk);
        BatchStops(next, start, evs[1..], global, cfg, hasFile);
        if exists k :: 0 <= k < |evs| && evs[k].valid && evs[k].code == 0 {
          var k :| 0 <= k < |evs| && evs[k].valid && evs[k].code == 0;
          assert evs[1..][k - 1] == evs[k];
        }
        if exists k :: 0 <= k < |evs[1..]| && evs[1..][k].valid && evs[1..][k].code == 0 {
          var k :| 0 <= k < |evs[1..]| && evs[1..][k].valid && evs[1..][k].code == 0;
          assert evs[k + 1] == evs[1..][k];
        }
      }
    }
  }

  /** What the thread appends when it leaves: its position, when that is
   *  not the one last compacted to. */
  function Exit(st: LogState, global: Pos): LogState
  {
    if global != st.cp then st.(lines := st.lines + [global]) else st
  }

  /** The checkpoint file and what the copy thread keeps about it. */
  class CheckpointLog {
    var lines: seq<Pos>
    var cp: Pos
    var countdown: int
    var due: int
    const start: nat

    function State(): LogState
      reads this
    {
      LogState(lines, cp, countdown, due)
    }

    /** A log over the lines read at start-up, with the position read as
     *  the one last compacted to. */
    constructor (start: nat, lines: seq<Pos>, cp: Pos, countdown: int, due: int)
      ensures this.start == start && State() == LogState(lines, cp, countdown, due)
    {
      this.start := start;
      this.lines := lines;
      this.cp := cp;
      this.countdown := countdown;
      this.due := due;
    }

    /** The checkpoint step after an applied event. */
    method RecordEvent(p: Pos, global: Pos, now: int, cfg: CheckConfig, seekOk: bool)
      modifies this
      ensures State() == Record(old(State()), start, p, global, now, cfg, seekOk)
    {
      if countdown > 0 || now < due {
        return;
      }
      countdown := cfg.everyEvents;
      due := now + cfg.everySecs;
      if p == cp {
        return;
      }
      lines := lines + [p];
      if start + Bytes(lines) <= MaxPos || !seekOk {
        return;
      }
      lines := [global];
      cp := p;
    }

    /** The loop over a batch of events; returns whether cp failed. */
    method RunBatch(evs: seq<Applied>, global: Pos, cfg: CheckConfig, hasFile: bool) returns (stopped: bool)
      modifies this
      ensures (State(), stopped) == Batch(old(State()), start, evs, global, cfg, hasFile)
    {
      var i := 0;
      while i < |evs|
        invariant 0 <= i <= |evs|
        invariant Batch(old(State()), start, evs, global, cfg, hasFile) == Batch(State(), start, evs[i..], global, cfg, hasFile)
      {
        assert evs[i..][1..] == evs[i + 1..];
        countdown := countdown - 1;
        if !evs[i].valid {
          i := i + 1;
          continue;
        }
        if evs[i].code == 0 {
          return true;
        }
        if hasFile {
          RecordEvent(evs[i].pos, global, evs[i].now, cfg, evs[i].seekOk);
        }
        i := i + 1;
      }
      return false;
    }

    /** The append at exit. */
    method Finish(global: Pos)
      modifies this
      ensures State() == Exit(old(State()), global)
    {
      if global != cp {
        lines := lines + [global];
      }
    }
  }
}
